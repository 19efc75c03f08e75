/** The row-list operations of the table editor: `CustomTableModel` keeps the rows
    of one CSV file as a list of lists of cells and edits it in place, and
    `CSVEditorDialog` moves selected rows, pastes clipboard text and tells whether
    anything changed. */
module TableEditor {
  import opened Wrappers
  import opened Calendar

  /** Every cell is modelled as its text. Dates, empty cells and booleans are text after
      the editor's load, and edits and pastes store text; number cells, which the
      source keeps as numbers until they are edited, are modelled by their text too. */
  type Row = seq<string>

  // ---------------------------------------------------------------------------
  // Python list positions.

  /** Where `list.insert(position, x)` puts `x` in a list of length `n`: a negative
      position counts from the end, and the result is clamped to the list. */
  function InsertionPoint(position: int, n: nat): (k: nat)
    ensures k <= n
  {
    var k: int := if position < 0 then position + n else position;
    if k < 0 then 0 else if k > n then n else k
  }

  /** The item `s[position]`, `del s[position]` or `s.pop(position)` refers to; None is
      the IndexError. */
  function ItemIndex(position: int, n: nat): (k: Option<nat>)
    ensures k.Some? ==> k.value < n
    ensures k.Some? <==> -(n as int) <= position < n
  {
    if 0 <= position < n then Some(position)
    else if -(n as int) <= position < 0 then Some(position + n)
    else None
  }

  function InsertAt<T>(s: seq<T>, k: nat, x: T): (r: seq<T>)
    requires k <= |s|
    ensures |r| == |s| + 1 && r[k] == x
    ensures forall i :: 0 <= i < k ==> r[i] == s[i]
    ensures forall i :: k < i < |r| ==> r[i] == s[i - 1]
  {
    s[..k] + [x] + s[k..]
  }

  function RemoveAt<T>(s: seq<T>, k: nat): (r: seq<T>)
    requires k < |s|
    ensures |r| == |s| - 1
    ensures forall i :: 0 <= i < k ==> r[i] == s[i]
    ensures forall i :: k <= i < |r| ==> r[i] == s[i + 1]
  {
    s[..k] + s[k + 1..]
  }

  /** `row = s.pop(k); s.insert(destination, row)`. */
  function MoveAt<T>(s: seq<T>, k: nat, destination: int): (r: seq<T>)
    requires k < |s|
    ensures |r| == |s| && r[InsertionPoint(destination, |s| - 1)] == s[k]
  {
    InsertAt(RemoveAt(s, k), InsertionPoint(destination, |s| - 1), s[k])
  }

  /** Removing what was just inserted gives the list back, and so does putting back
      what was just removed. */
  lemma InsertRemoveRoundTrip<T>(s: seq<T>, k: nat, x: T)
    requires k <= |s|
    ensures RemoveAt(InsertAt(s, k, x), k) == s
    ensures k < |s| ==> InsertAt(RemoveAt(s, k), k, s[k]) == s
  {
  }

  lemma InsertAtMultiset<T>(s: seq<T>, k: nat, x: T)
    requires k <= |s|
    ensures multiset(InsertAt(s, k, x)) == multiset(s) + multiset{x}
  {
    assert s == s[..k] + s[k..];
  }

  lemma RemoveAtMultiset<T>(s: seq<T>, k: nat)
    requires k < |s|
    ensures multiset(RemoveAt(s, k)) + multiset{s[k]} == multiset(s)
  {
    assert s == s[..k] + [s[k]] + s[k + 1..];
  }

  /** A move keeps the same rows, puts the moved row where the destination says, and is
      undone by the opposite move. */
  lemma MoveAtFacts<T>(s: seq<T>, k: nat, destination: nat)
    requires k < |s| && destination < |s|
    ensures var r := MoveAt(s, k, destination);
      |r| == |s| && multiset(r) == multiset(s) && r[destination] == s[k]
      && MoveAt(r, destination, k) == s
  {
    var rest := RemoveAt(s, k);
    assert InsertionPoint(destination, |s| - 1) == destination;
    var r := InsertAt(rest, destination, s[k]);
    assert MoveAt(s, k, destination) == r;
    InsertAtMultiset(rest, destination, s[k]);
    RemoveAtMultiset(s, k);
    InsertRemoveRoundTrip(rest, destination, s[k]);
    InsertRemoveRoundTrip(s, k, s[k]);
    assert InsertionPoint(k, |r| - 1) == k;
    assert MoveAt(r, destination, k) == InsertAt(RemoveAt(r, destination), k, r[destination]);
  }

  function Blank(width: nat): (r: Row)
    ensures |r| == width && forall i :: 0 <= i < width ==> r[i] == ""
  {
    seq(width, _ => "")
  }

  // ---------------------------------------------------------------------------
  // The table model.

  class TableModel {
    var rows: seq<Row>
    var headers: seq<string>

    /** Every row has one cell per header. */
    predicate Valid()
      reads this
    {
      Rectangular(rows, |headers|)
    }

    constructor (rows: seq<Row>, headers: seq<string>)
      requires forall i :: 0 <= i < |rows| ==> |rows[i]| == |headers|
      ensures Valid() && this.rows == rows && this.headers == headers
    {
      this.rows := rows;
      this.headers := headers;
    }

    function RowCount(): nat
      reads this
    {
      |rows|
    }

    function ColumnCount(): nat
      reads this
    {
      |headers|
    }

    /** `insertRow`: a row of empty cells, one per header, at the list position. */
    method InsertRow(position: int)
      requires Valid()
      modifies this
      ensures Valid() && headers == old(headers)
      ensures rows == InsertAt(old(rows), InsertionPoint(position, |old(rows)|), Blank(|headers|))
    {
      rows := InsertAt(rows, InsertionPoint(position, |rows|), Blank(|headers|));
    }

    /** `removeRow`: `del` with Python indexing; false is the IndexError, which leaves
        the rows as they were. */
    method RemoveRow(position: int) returns (ok: bool)
      requires Valid()
      modifies this
      ensures Valid() && headers == old(headers)
      ensures ok <==> -|old(rows)| <= position < |old(rows)|
      ensures rows == if ok then RemoveAt(old(rows), ItemIndex(position, |old(rows)|).value) else old(rows)
    {
      var k := ItemIndex(position, |rows|);
      if k.None? {
        return false;
      }
      rows := RemoveAt(rows, k.value);
      return true;
    }

    /** `moveRow`: pop the source row, insert it at the destination; false is the
        IndexError of the pop. */
    method MoveRow(source: int, destination: int) returns (ok: bool)
      requires Valid()
      modifies this
      ensures Valid() && headers == old(headers)
      ensures ok <==> -|old(rows)| <= source < |old(rows)|
      ensures rows == if ok then MoveAt(old(rows), ItemIndex(source, |old(rows)|).value, destination) else old(rows)
    {
      var k := ItemIndex(source, |rows|);
      if k.None? {
        return false;
      }
      var row := rows[k.value];
      rows := RemoveAt(rows, k.value);
      rows := InsertAt(rows, InsertionPoint(destination, |rows|), row);
      return true;
    }

    /** `setData` for an edit: one cell takes the new text. */
    method SetData(row: nat, column: nat, value: string)
      requires Valid() && row < |rows| && column < |headers|
      modifies this
      ensures Valid() && headers == old(headers)
      ensures rows == old(rows)[row := old(rows)[row][column := value]]
    {
      rows := rows[row := rows[row][column := value]];
    }
  }

  // ---------------------------------------------------------------------------
  // Selected rows: `sorted(set(rows))`, ascending or descending.

  predicate Increasing(s: seq<int>) {
    forall i, j :: 0 <= i < j < |s| ==> s[i] < s[j]
  }

  predicate Decreasing(s: seq<int>) {
    forall i, j :: 0 <= i < j < |s| ==> s[i] > s[j]
  }

  /** Adds `x` to an increasing list unless it is already there. */
  function AddRow(s: seq<int>, x: int): seq<int> {
    if s == [] then [x]
    else if x < s[0] then [x] + s
    else if x == s[0] then s
    else [s[0]] + AddRow(s[1..], x)
  }

  function AscendingRows(selection: seq<int>): seq<int> {
    if selection == [] then [] else AddRow(AscendingRows(selection[..|selection| - 1]), selection[|selection| - 1])
  }

  function Reverse(s: seq<int>): (r: seq<int>)
    ensures |r| == |s| && forall i :: 0 <= i < |s| ==> r[i] == s[|s| - 1 - i]
  {
    if s == [] then [] else Reverse(s[1..]) + [s[0]]
  }

  function DescendingRows(selection: seq<int>): seq<int> {
    Reverse(AscendingRows(selection))
  }

  lemma ReverseIncreasing(s: seq<int>)
    requires Increasing(s)
    ensures Decreasing(Reverse(s)) && forall y :: y in Reverse(s) <==> y in s
  {
    var r := Reverse(s);
    forall y | y in s ensures y in r {
      var i :| 0 <= i < |s| && s[i] == y;
      assert r[|s| - 1 - i] == y;
    }
  }

  /** The rows in descending order, each once: exactly the selected rows. */
  lemma DescendingRowsFacts(selection: seq<int>)
    ensures Decreasing(DescendingRows(selection))
    ensures forall y :: y in DescendingRows(selection) <==> y in selection
  {
    AscendingRowsFacts(selection);
    ReverseIncreasing(AscendingRows(selection));
  }

  lemma {:induction false} AddRowFacts(s: seq<int>, x: int)
    requires Increasing(s)
    ensures Increasing(AddRow(s, x))
    ensures forall y :: y in AddRow(s, x) <==> y in s || y == x
  {
    if s != [] && x > s[0] {
      AddRowFacts(s[1..], x);
      var t := AddRow(s[1..], x);
      forall j | 0 <= j < |t| ensures s[0] < t[j] {
        assert t[j] in t;
        if t[j] != x {
          assert t[j] in s[1..];
        }
      }
      assert AddRow(s, x) == [s[0]] + t;
    }
  }

  /** The rows in ascending order, each once: exactly the selected rows. */
  lemma {:induction false} AscendingRowsFacts(selection: seq<int>)
    ensures Increasing(AscendingRows(selection))
    ensures forall y :: y in AscendingRows(selection) <==> y in selection
  {
    if selection != [] {
      var p := selection[..|selection| - 1];
      AscendingRowsFacts(p);
      AddRowFacts(AscendingRows(p), selection[|selection| - 1]);
      assert selection == p + [selection[|selection| - 1]];
    }
  }

  /** An increasing list is its own ascending list of rows. */
  lemma {:induction false} AscendingRowsOfIncreasing(s: seq<int>)
    requires Increasing(s)
    ensures AscendingRows(s) == s
  {
    if s != [] {
      var p := s[..|s| - 1];
      AscendingRowsOfIncreasing(p);
      AddRowLast(p, s[|s| - 1]);
      assert s == p + [s[|s| - 1]];
    }
  }

  lemma {:induction false} AddRowLast(s: seq<int>, x: int)
    requires forall i :: 0 <= i < |s| ==> s[i] < x
    ensures AddRow(s, x) == s + [x]
  {
    if s != [] {
      AddRowLast(s[1..], x);
      assert s == [s[0]] + s[1..];
    }
  }

  // ---------------------------------------------------------------------------
  // Moving the selected rows up or down by swapping neighbours.

  predicate Rectangular(rows: seq<Row>, width: int) {
    forall i :: 0 <= i < |rows| ==> |rows[i]| == width
  }

  lemma SwapRectangular(s: seq<Row>, i: nat, j: nat, width: int)
    requires i < |s| && j < |s| && Rectangular(s, width)
    ensures Rectangular(Swap(s, i, j), width)
  {
  }

  function Swap(s: seq<Row>, i: nat, j: nat): (r: seq<Row>)
    requires i < |s| && j < |s|
    ensures |r| == |s| && r[i] == s[j] && r[j] == s[i]
    ensures forall k :: 0 <= k < |s| && k != i && k != j ==> r[k] == s[k]
  {
    s[i := s[j]][j := s[i]]
  }

  lemma SwapFacts(s: seq<Row>, i: nat, j: nat)
    requires i < |s| && j < |s|
    ensures multiset(Swap(s, i, j)) == multiset(s)
    ensures Swap(Swap(s, i, j), i, j) == s
  {
  }

  /** For each row in turn, swap it with the row above. */
  function SwapUps(s: seq<Row>, rs: seq<int>): (r: seq<Row>)
    requires forall k :: 0 <= k < |rs| ==> 1 <= rs[k] < |s|
    ensures |r| == |s|
    decreases |rs|
  {
    if rs == [] then s else SwapUps(Swap(s, rs[0] - 1, rs[0]), rs[1..])
  }

  /** For each row in turn, swap it with the row below. */
  function SwapDowns(s: seq<Row>, rs: seq<int>): (r: seq<Row>)
    requires forall k :: 0 <= k < |rs| ==> 0 <= rs[k] < |s| - 1
    ensures |r| == |s|
    decreases |rs|
  {
    if rs == [] then s else SwapDowns(Swap(s, rs[0], rs[0] + 1), rs[1..])
  }

  /** One swap up, then the rest of the selection. */
  lemma SwapUpsStep(s: seq<Row>, rs: seq<int>, k: int)
    requires 0 <= k < |rs| && forall j :: 0 <= j < |rs| ==> 1 <= rs[j] < |s|
    ensures SwapUps(s, rs[k..]) == SwapUps(Swap(s, rs[k] - 1, rs[k]), rs[k + 1..])
  {
    var t := rs[k..];
    assert forall j :: 0 <= j < |t| ==> t[j] == rs[k + j];
    assert t[0] == rs[k] && t[1..] == rs[k + 1..];
  }

  /** One swap down, then the rest of the selection. */
  lemma SwapDownsStep(s: seq<Row>, rs: seq<int>, k: int)
    requires 0 <= k < |rs| && forall j :: 0 <= j < |rs| ==> 0 <= rs[j] < |s| - 1
    ensures SwapDowns(s, rs[k..]) == SwapDowns(Swap(s, rs[k], rs[k] + 1), rs[k + 1..])
  {
    var t := rs[k..];
    assert forall j :: 0 <= j < |t| ==> t[j] == rs[k + j];
    assert t[0] == rs[k] && t[1..] == rs[k + 1..];
  }

  predicate RowsOf(rs: seq<int>, n: nat) {
    forall k :: 0 <= k < |rs| ==> 0 <= rs[k] < n
  }

  /** The rows a move up swaps with are on the table. */
  lemma AboveFacts(rs: seq<int>, n: nat)
    requires Increasing(rs) && RowsOf(rs, n) && rs != [] && rs[0] != 0
    ensures forall k :: 0 <= k < |rs| ==> 1 <= rs[k] < n
    ensures Increasing(Above(rs)) && RowsOf(Above(rs), n)
  {
    assert forall k :: 0 <= k < |rs| ==> rs[0] <= rs[k];
  }

  /** The rows a move down swaps with are on the table. */
  lemma BelowFacts(rs: seq<int>, n: nat)
    requires Decreasing(rs) && RowsOf(rs, n) && rs != [] && rs[0] != n - 1
    ensures forall k :: 0 <= k < |rs| ==> 0 <= rs[k] < n - 1
  {
    assert forall k :: 0 <= k < |rs| ==> rs[k] <= rs[0];
  }

  /** Every selected row number is among the given rows. */
  lemma SelectedRowsOf(selection: seq<int>, rs: seq<int>, n: nat)
    requires RowsOf(selection, n) && forall y :: y in rs <==> y in selection
    ensures RowsOf(rs, n)
  {
    forall k | 0 <= k < |rs| ensures 0 <= rs[k] < n {
      assert rs[k] in rs;
    }
  }

  /** `moveRowUp` on the ascending selected rows: nothing when none is selected or the
      first row is; otherwise each swaps with the row above. */
  function MovedUp(s: seq<Row>, rs: seq<int>): (r: seq<Row>)
    requires Increasing(rs) && RowsOf(rs, |s|)
    ensures |r| == |s|
    ensures rs == [] || rs[0] == 0 ==> r == s
  {
    if rs == [] || rs[0] == 0 then s else SwapUps(s, rs)
  }

  /** `moveRowDown` on the descending selected rows, with the guard on the highest row
      number, which is the first of the list. */
  function MovedDown(s: seq<Row>, rs: seq<int>): (r: seq<Row>)
    requires Decreasing(rs) && RowsOf(rs, |s|)
    ensures |r| == |s|
    ensures rs == [] || rs[0] == |s| - 1 ==> r == s
  {
    if rs == [] || rs[0] == |s| - 1 then s else SwapDowns(s, rs)
  }

  datatype ListError = IndexError

  /** The swaps of `moveRowDown` as written, where a row with nothing below it makes the
      swap fail before it changes anything. */
  function SwapDownsAsWritten(s: seq<Row>, rs: seq<int>): Result<seq<Row>, ListError>
    requires forall k :: 0 <= k < |rs| ==> 0 <= rs[k]
    decreases |rs|
  {
    if rs == [] then Ok(s)
    else if rs[0] + 1 >= |s| then Err(IndexError)
    else SwapDownsAsWritten(Swap(s, rs[0], rs[0] + 1), rs[1..])
  }

  /** `moveRowDown` as written: its guard reads the last element of the descending list,
      which is the lowest row number. */
  function MovedDownAsWritten(s: seq<Row>, rs: seq<int>): Result<seq<Row>, ListError>
    requires Decreasing(rs) && RowsOf(rs, |s|)
  {
    if rs == [] || rs[|rs| - 1] == |s| - 1 then Ok(s) else SwapDownsAsWritten(s, rs)
  }

  /** Five rows with rows 2 and 4 selected: the guard lets the selection through, and
      the swap of row 4 with the missing row 5 raises IndexError. The corrected guard
      sees that row 4 is the last row and changes nothing. */
  lemma MoveDownGuardMissesLastRow(s: seq<Row>)
    requires |s| == 5
    ensures DescendingRows([2, 4]) == [4, 2]
    ensures MovedDownAsWritten(s, [4, 2]) == Err(IndexError)
    ensures MovedDown(s, [4, 2]) == s
  {
    AscendingRowsOfIncreasing([2, 4]);
  }

  lemma {:induction false} SwapUpsMultiset(s: seq<Row>, rs: seq<int>)
    requires forall k :: 0 <= k < |rs| ==> 1 <= rs[k] < |s|
    ensures multiset(SwapUps(s, rs)) == multiset(s)
    decreases |rs|
  {
    if rs != [] {
      SwapFacts(s, rs[0] - 1, rs[0]);
      SwapUpsMultiset(Swap(s, rs[0] - 1, rs[0]), rs[1..]);
    }
  }

  /** A row that is neither selected nor directly above a selected row stays put. */
  lemma {:induction false} SwapUpsUntouched(s: seq<Row>, rs: seq<int>, i: int)
    requires forall k :: 0 <= k < |rs| ==> 1 <= rs[k] < |s|
    requires 0 <= i < |s| && forall k :: 0 <= k < |rs| ==> i != rs[k] && i != rs[k] - 1
    ensures SwapUps(s, rs)[i] == s[i]
    decreases |rs|
  {
    if rs != [] {
      SwapUpsUntouched(Swap(s, rs[0] - 1, rs[0]), rs[1..], i);
    }
  }

  /** Each selected row lands one place higher. */
  lemma {:induction false} SwapUpsLanding(s: seq<Row>, rs: seq<int>)
    requires Increasing(rs) && forall k :: 0 <= k < |rs| ==> 1 <= rs[k] < |s|
    ensures forall k :: 0 <= k < |rs| ==> SwapUps(s, rs)[rs[k] - 1] == s[rs[k]]
    decreases |rs|
  {
    if rs != [] {
      var t := Swap(s, rs[0] - 1, rs[0]);
      var rest := rs[1..];
      SwapUpsLanding(t, rest);
      SwapUpsUntouched(t, rest, rs[0] - 1);
      forall k | 0 <= k < |rs| ensures SwapUps(s, rs)[rs[k] - 1] == s[rs[k]] {
        if k > 0 {
          assert rest[k - 1] == rs[k];
        }
      }
    }
  }

  lemma {:induction false} SwapDownsMultiset(s: seq<Row>, rs: seq<int>)
    requires forall k :: 0 <= k < |rs| ==> 0 <= rs[k] < |s| - 1
    ensures multiset(SwapDowns(s, rs)) == multiset(s)
    decreases |rs|
  {
    if rs != [] {
      SwapFacts(s, rs[0], rs[0] + 1);
      SwapDownsMultiset(Swap(s, rs[0], rs[0] + 1), rs[1..]);
    }
  }

  /** A row that is neither selected nor directly below a selected row stays put. */
  lemma {:induction false} SwapDownsUntouched(s: seq<Row>, rs: seq<int>, i: int)
    requires forall k :: 0 <= k < |rs| ==> 0 <= rs[k] < |s| - 1
    requires 0 <= i < |s| && forall k :: 0 <= k < |rs| ==> i != rs[k] && i != rs[k] + 1
    ensures SwapDowns(s, rs)[i] == s[i]
    decreases |rs|
  {
    if rs != [] {
      SwapDownsUntouched(Swap(s, rs[0], rs[0] + 1), rs[1..], i);
    }
  }

  /** Each selected row lands one place lower. */
  lemma {:induction false} SwapDownsLanding(s: seq<Row>, rs: seq<int>)
    requires Decreasing(rs) && forall k :: 0 <= k < |rs| ==> 0 <= rs[k] < |s| - 1
    ensures forall k :: 0 <= k < |rs| ==> SwapDowns(s, rs)[rs[k] + 1] == s[rs[k]]
    decreases |rs|
  {
    if rs != [] {
      var t := Swap(s, rs[0], rs[0] + 1);
      var rest := rs[1..];
      SwapDownsLanding(t, rest);
      SwapDownsUntouched(t, rest, rs[0] + 1);
      forall k | 0 <= k < |rs| ensures SwapDowns(s, rs)[rs[k] + 1] == s[rs[k]] {
        if k > 0 {
          assert rest[k - 1] == rs[k];
        }
      }
    }
  }

  function Above(rs: seq<int>): (r: seq<int>)
    ensures |r| == |rs| && forall k :: 0 <= k < |rs| ==> r[k] == rs[k] - 1
  {
    if rs == [] then [] else [rs[0] - 1] + Above(rs[1..])
  }

  lemma {:induction false} SwapDownsSnoc(s: seq<Row>, rs: seq<int>, x: int)
    requires forall k :: 0 <= k < |rs| ==> 0 <= rs[k] < |s| - 1
    requires 0 <= x < |s| - 1
    ensures SwapDowns(s, rs + [x]) == Swap(SwapDowns(s, rs), x, x + 1)
    decreases |rs|
  {
    if rs != [] {
      assert (rs + [x])[1..] == rs[1..] + [x];
      SwapDownsSnoc(Swap(s, rs[0], rs[0] + 1), rs[1..], x);
    }
  }

  /** The swaps down through the rows above, in reverse order, undo the swaps up. */
  lemma {:induction false} SwapDownsUndoSwapUps(s: seq<Row>, rs: seq<int>)
    requires forall k :: 0 <= k < |rs| ==> 1 <= rs[k] < |s|
    ensures SwapDowns(SwapUps(s, rs), Reverse(Above(rs))) == s
    decreases |rs|
  {
    if rs != [] {
      var t := Swap(s, rs[0] - 1, rs[0]);
      SwapDownsUndoSwapUps(t, rs[1..]);
      assert Above(rs) == [rs[0] - 1] + Above(rs[1..]);
      assert Reverse(Above(rs)) == Reverse(Above(rs[1..])) + [rs[0] - 1];
      SwapDownsSnoc(SwapUps(t, rs[1..]), Reverse(Above(rs[1..])), rs[0] - 1);
      SwapFacts(s, rs[0] - 1, rs[0]);
    }
  }

  /** After a move up the dialog selects the moved rows in their new places, the rows
      above the old ones; moving that selection down puts every row back. */
  lemma MoveUpThenDownRestores(s: seq<Row>, rs: seq<int>)
    requires Increasing(rs) && RowsOf(rs, |s|) && rs != [] && rs[0] != 0
    ensures Increasing(Above(rs)) && DescendingRows(Above(rs)) == Reverse(Above(rs))
    ensures Decreasing(Reverse(Above(rs))) && RowsOf(Reverse(Above(rs)), |s|)
    ensures MovedDown(MovedUp(s, rs), Reverse(Above(rs))) == s
  {
    var a := Above(rs);
    AboveFacts(rs, |s|);
    AscendingRowsOfIncreasing(a);
    ReverseIncreasing(a);
    var b := Reverse(a);
    assert b[0] == rs[|rs| - 1] - 1;
    assert MovedUp(s, rs) == SwapUps(s, rs);
    SwapDownsUndoSwapUps(s, rs);
  }

  /** The selected rows each move one place up, a row neither selected nor directly
      above a selected row keeps its place, and no row is lost or duplicated. */
  lemma MovedUpFacts(s: seq<Row>, rs: seq<int>, i: int)
    requires Increasing(rs) && RowsOf(rs, |s|) && rs != [] && rs[0] != 0
    ensures multiset(MovedUp(s, rs)) == multiset(s)
    ensures forall k :: 0 <= k < |rs| ==> MovedUp(s, rs)[rs[k] - 1] == s[rs[k]]
    ensures 0 <= i < |s| && (forall k :: 0 <= k < |rs| ==> i != rs[k] && i != rs[k] - 1) ==> MovedUp(s, rs)[i] == s[i]
  {
    assert forall k :: 0 <= k < |rs| ==> rs[0] <= rs[k];
    SwapUpsMultiset(s, rs);
    SwapUpsLanding(s, rs);
    if 0 <= i < |s| && (forall k :: 0 <= k < |rs| ==> i != rs[k] && i != rs[k] - 1) {
      SwapUpsUntouched(s, rs, i);
    }
  }

  /** The selected rows each move one place down when the last row is not among them. */
  lemma MovedDownFacts(s: seq<Row>, rs: seq<int>, i: int)
    requires Decreasing(rs) && RowsOf(rs, |s|) && rs != [] && rs[0] != |s| - 1
    ensures multiset(MovedDown(s, rs)) == multiset(s)
    ensures forall k :: 0 <= k < |rs| ==> MovedDown(s, rs)[rs[k] + 1] == s[rs[k]]
    ensures 0 <= i < |s| && (forall k :: 0 <= k < |rs| ==> i != rs[k] && i != rs[k] + 1) ==> MovedDown(s, rs)[i] == s[i]
  {
    assert forall k :: 0 <= k < |rs| ==> rs[k] <= rs[0];
    SwapDownsMultiset(s, rs);
    SwapDownsLanding(s, rs);
    if 0 <= i < |s| && (forall k :: 0 <= k < |rs| ==> i != rs[k] && i != rs[k] + 1) {
      SwapDownsUntouched(s, rs, i);
    }
  }

  /** The selection, when the last row is in it, leaves the table as it is. */
  lemma MovedDownStopsAtLastRow(s: seq<Row>, rs: seq<int>)
    requires Decreasing(rs) && RowsOf(rs, |s|)
    requires exists k :: 0 <= k < |rs| && rs[k] == |s| - 1
    ensures MovedDown(s, rs) == s
  {
  }

  // ---------------------------------------------------------------------------
  // Clipboard text: `str.split` on one separator keeps empty pieces.

  function SplitOn(s: string, sep: char): (r: seq<string>)
    ensures |r| >= 1
  {
    if s == [] then [""]
    else
      var rest := SplitOn(s[1..], sep);
      if s[0] == sep then [""] + rest else [[s[0]] + rest[0]] + rest[1..]
  }

  function JoinOn(pieces: seq<string>, sep: char): string
    requires |pieces| >= 1
  {
    if |pieces| == 1 then pieces[0] else pieces[0] + [sep] + JoinOn(pieces[1..], sep)
  }

  /** Joining the pieces with the separator gives back the text. */
  lemma {:induction false} JoinSplit(s: string, sep: char)
    ensures JoinOn(SplitOn(s, sep), sep) == s
    ensures forall i :: 0 <= i < |SplitOn(s, sep)| ==> sep !in SplitOn(s, sep)[i]
  {
    JoinOfSplit(s, sep);
    SplitPiecesFree(s, sep);
  }

  lemma {:induction false} JoinOfSplit(s: string, sep: char)
    ensures JoinOn(SplitOn(s, sep), sep) == s
  {
    if s != [] {
      var rest := SplitOn(s[1..], sep);
      JoinOfSplit(s[1..], sep);
      if s[0] == sep {
        assert ([""] + rest)[1..] == rest;
      } else {
        JoinOnPrepend(s[0], rest, sep);
      }
      assert [s[0]] + s[1..] == s;
    }
  }

  /** Putting a character in front of the first piece puts it in front of the text. */
  lemma JoinOnPrepend(c: char, rest: seq<string>, sep: char)
    requires |rest| >= 1
    ensures JoinOn([[c] + rest[0]] + rest[1..], sep) == [c] + JoinOn(rest, sep)
  {
    var r := [[c] + rest[0]] + rest[1..];
    assert r[1..] == rest[1..];
    if |rest| > 1 {
      var tail := JoinOn(rest[1..], sep);
      ConcatAssoc([c], rest[0], [sep] + tail);
      assert ([c] + rest[0]) + [sep] + tail == ([c] + rest[0]) + ([sep] + tail);
      assert rest[0] + [sep] + tail == rest[0] + ([sep] + tail);
    }
  }

  lemma {:induction false} SplitPiecesFree(s: string, sep: char)
    ensures forall i :: 0 <= i < |SplitOn(s, sep)| ==> sep !in SplitOn(s, sep)[i]
  {
    if s != [] {
      var rest := SplitOn(s[1..], sep);
      SplitPiecesFree(s[1..], sep);
      var r := SplitOn(s, sep);
      if s[0] == sep {
        assert r == [""] + rest;
        forall i | 0 <= i < |r|
          ensures sep !in r[i]
        {
          if i > 0 { assert r[i] == rest[i - 1]; }
        }
      } else {
        assert r == [[s[0]] + rest[0]] + rest[1..];
        forall i | 0 <= i < |r|
          ensures sep !in r[i]
        {
          if i > 0 { assert r[i] == rest[i]; }
        }
      }
    }
  }

  /** Splitting a joined text gives back the pieces when none holds the separator. */
  lemma {:induction false} SplitJoin(pieces: seq<string>, sep: char)
    requires |pieces| >= 1 && forall i :: 0 <= i < |pieces| ==> sep !in pieces[i]
    ensures SplitOn(JoinOn(pieces, sep), sep) == pieces
  {
    if |pieces| == 1 {
      SplitOfPiece(pieces[0], sep);
    } else {
      SplitJoin(pieces[1..], sep);
      SplitOfPieceThen(pieces[0], JoinOn(pieces[1..], sep), sep);
      assert pieces == [pieces[0]] + pieces[1..];
    }
  }

  lemma {:induction false} SplitOfPiece(piece: string, sep: char)
    requires sep !in piece
    ensures SplitOn(piece, sep) == [piece]
    decreases |piece|
  {
    if piece != [] {
      SplitOfPiece(piece[1..], sep);
      assert [piece[0]] + piece[1..] == piece;
    }
  }

  /** A piece without the separator, then the separator and more text. */
  lemma {:induction false} SplitOfPieceThen(piece: string, more: string, sep: char)
    requires sep !in piece
    ensures SplitOn(piece + [sep] + more, sep) == [piece] + SplitOn(more, sep)
    decreases |piece|
  {
    var x := piece + [sep] + more;
    if piece == [] {
      assert x == [sep] + more;
      assert x[1..] == more;
    } else {
      SplitOfPieceThen(piece[1..], more, sep);
      assert x[1..] == piece[1..] + [sep] + more;
      assert [piece[0]] + piece[1..] == piece;
    }
  }

  /** The cells to paste: lines split on newlines, each split on tabs. */
  function ClipboardGrid(text: string): (grid: seq<seq<string>>)
    ensures |grid| == |SplitOn(text, '\n')|
  {
    var lines := SplitOn(text, '\n');
    seq(|lines|, i requires 0 <= i < |lines| => SplitOn(lines[i], '\t'))
  }

  /** The cell in row `r`, column `c` after pasting `grid` with its first cell at
      (`top`, `left`): a clipboard cell when one lands there, the old text otherwise. */
  function PastedCell(rows: seq<Row>, top: nat, left: nat, grid: seq<seq<string>>, r: nat, c: nat): string
    requires r < |rows| && c < |rows[r]|
  {
    if top <= r < top + |grid| && left <= c < left + |grid[r - top]| then grid[r - top][c - left] else rows[r][c]
  }

  /** Pasting one more line changes exactly the cells that line lands on. */
  lemma PastedCellStep(rows: seq<Row>, top: nat, left: nat, grid: seq<seq<string>>, i: nat, r: nat, c: nat)
    requires i < |grid| && r < |rows| && c < |rows[r]|
    ensures PastedCell(rows, top, left, grid[..i + 1], r, c)
      == if r == top + i && left <= c < left + |grid[i]| then grid[i][c - left]
         else PastedCell(rows, top, left, grid[..i], r, c)
  {
    if top <= r < top + i {
      assert grid[..i + 1][r - top] == grid[..i][r - top];
    }
  }

  function Pasted(rows: seq<Row>, top: nat, left: nat, grid: seq<seq<string>>): (r: seq<Row>)
    ensures |r| == |rows| && forall i :: 0 <= i < |rows| ==> |r[i]| == |rows[i]|
  {
    seq(|rows|, i requires 0 <= i < |rows| =>
      seq(|rows[i]|, c requires 0 <= c < |rows[i]| => PastedCell(rows, top, left, grid, i, c)))
  }

  /** A clipboard cell that falls inside the table is written; cells past the last row
      or column are dropped; no other cell changes. */
  lemma PastedClips(rows: seq<Row>, top: nat, left: nat, grid: seq<seq<string>>, i: nat, j: nat, r: nat, c: nat)
    requires i < |grid| && j < |grid[i]| && top + i < |rows| && left + j < |rows[top + i]|
    requires r < |rows| && c < |rows[r]|
    requires !(top <= r < top + |grid| && left <= c < left + |grid[r - top]|)
    ensures Pasted(rows, top, left, grid)[top + i][left + j] == grid[i][j]
    ensures Pasted(rows, top, left, grid)[r][c] == rows[r][c]
  {
  }

  /** Text copied as tab-separated lines pastes back as the same cells. */
  lemma ClipboardGridOfCopy(cells: seq<seq<string>>)
    requires |cells| >= 1 && forall i :: 0 <= i < |cells| ==> |cells[i]| >= 1
    requires forall i, j :: 0 <= i < |cells| && 0 <= j < |cells[i]| ==> '\t' !in cells[i][j] && '\n' !in cells[i][j]
    ensures ClipboardGrid(JoinOn(seq(|cells|, i requires 0 <= i < |cells| => JoinOn(cells[i], '\t')), '\n')) == cells
  {
    var lines := seq(|cells|, i requires 0 <= i < |cells| => JoinOn(cells[i], '\t'));
    forall i | 0 <= i < |cells| ensures '\n' !in lines[i] && SplitOn(lines[i], '\t') == cells[i] {
      SplitJoin(cells[i], '\t');
      JoinHasNo(cells[i], '\t', '\n');
    }
    SplitJoin(lines, '\n');
  }

  lemma {:induction false} JoinHasNo(pieces: seq<string>, sep: char, other: char)
    requires |pieces| >= 1 && sep != other && forall i :: 0 <= i < |pieces| ==> other !in pieces[i]
    ensures other !in JoinOn(pieces, sep)
  {
    if |pieces| > 1 {
      JoinHasNo(pieces[1..], sep, other);
    }
  }

  // ---------------------------------------------------------------------------
  // The editor dialog.

  class EditorDialog {
    var model: TableModel
    var initialRows: seq<Row>

    constructor (model: TableModel)
      ensures this.model == model && initialRows == model.rows
    {
      this.model := model;
      initialRows := model.rows;
    }

    /** `isDataModified`: compare lengths, then row by row. */
    method IsDataModified() returns (modified: bool)
      ensures modified <==> model.rows != initialRows
    {
      var current := model.rows;
      if |current| != |initialRows| {
        return true;
      }
      var i := 0;
      while i < |current|
        invariant 0 <= i <= |current|
        invariant forall j :: 0 <= j < i ==> current[j] == initialRows[j]
      {
        if current[i] != initialRows[i] {
          return true;
        }
        i := i + 1;
      }
      assert current == initialRows;
      return false;
    }

    /** `moveRowUp`: the selected rows (`selection` holds the row of each selected
        cell) each swap with the row above, lowest row number first. */
    method MoveRowsUp(selection: seq<int>)
      requires model.Valid() && RowsOf(selection, |model.rows|)
      modifies model
      ensures model.Valid() && model.headers == old(model.headers)
      ensures Increasing(AscendingRows(selection)) && RowsOf(AscendingRows(selection), |old(model.rows)|)
      ensures model.rows == MovedUp(old(model.rows), AscendingRows(selection))
    {
      var rs := AscendingRows(selection);
      AscendingRowsFacts(selection);
      SelectedRowsOf(selection, rs, |model.rows|);
      if rs == [] || rs[0] == 0 {
        return;
      }
      AboveFacts(rs, |model.rows|);
      SwapRowsUp(rs);
    }

    /** The loop of `moveRowUp`: each listed row swaps with the row above, in order. */
    method SwapRowsUp(rs: seq<int>)
      requires model.Valid() && forall k :: 0 <= k < |rs| ==> 1 <= rs[k] < |model.rows|
      modifies model
      ensures model.Valid() && model.headers == old(model.headers)
      ensures model.rows == SwapUps(old(model.rows), rs)
    {
      ghost var start := model.rows;
      var k, n := 0, |rs|;
      while k < n
        invariant 0 <= k <= n == |rs|
        invariant model.Valid() && model.headers == old(model.headers) && |model.rows| == |start|
        invariant SwapUps(model.rows, rs[k..]) == SwapUps(start, rs)
      {
        var r := rs[k];
        SwapUpsStep(model.rows, rs, k);
        SwapRectangular(model.rows, r - 1, r, |model.headers|);
        model.rows := Swap(model.rows, r - 1, r);
        k := k + 1;
      }
      assert rs[k..] == [];
    }

    /** `moveRowDown` with the guard on the highest selected row: the selected rows
        each swap with the row below, highest row number first. */
    method MoveRowsDown(selection: seq<int>)
      requires model.Valid() && RowsOf(selection, |model.rows|)
      modifies model
      ensures model.Valid() && model.headers == old(model.headers)
      ensures Decreasing(DescendingRows(selection)) && RowsOf(DescendingRows(selection), |old(model.rows)|)
      ensures model.rows == MovedDown(old(model.rows), DescendingRows(selection))
    {
      var rs := DescendingRows(selection);
      DescendingRowsFacts(selection);
      SelectedRowsOf(selection, rs, |model.rows|);
      if rs == [] || rs[0] == |model.rows| - 1 {
        return;
      }
      BelowFacts(rs, |model.rows|);
      SwapRowsDown(rs);
    }

    /** The loop of `moveRowDown`: each listed row swaps with the row below, in order. */
    method SwapRowsDown(rs: seq<int>)
      requires model.Valid() && forall k :: 0 <= k < |rs| ==> 0 <= rs[k] < |model.rows| - 1
      modifies model
      ensures model.Valid() && model.headers == old(model.headers)
      ensures model.rows == SwapDowns(old(model.rows), rs)
    {
      ghost var start := model.rows;
      var k, n := 0, |rs|;
      while k < n
        invariant 0 <= k <= n == |rs|
        invariant model.Valid() && model.headers == old(model.headers) && |model.rows| == |start|
        invariant SwapDowns(model.rows, rs[k..]) == SwapDowns(start, rs)
      {
        var r := rs[k];
        SwapDownsStep(model.rows, rs, k);
        SwapRectangular(model.rows, r, r + 1, |model.headers|);
        model.rows := Swap(model.rows, r, r + 1);
        k := k + 1;
      }
      assert rs[k..] == [];
    }
    /** `pasteSelection`: the clipboard cells go to the table from the first selected
        cell on; those past the last row or column are dropped. */
    method PasteSelection(selection: seq<(nat, nat)>, clipboard: string)
      requires model.Valid()
      modifies model
      ensures model.Valid() && model.headers == old(model.headers)
      ensures selection == [] ==> model.rows == old(model.rows)
      ensures selection != [] ==>
        model.rows == Pasted(old(model.rows), selection[0].0, selection[0].1, ClipboardGrid(clipboard))
    {
      if selection == [] {
        return;
      }
      var grid := ClipboardGrid(clipboard);
      var top, left := selection[0].0, selection[0].1;
      ghost var before := model.rows;
      var i, n := 0, |grid|;
      while i < n
        invariant 0 <= i <= n == |grid|
        invariant model.Valid() && model.headers == old(model.headers) && |model.rows| == |before|
        invariant forall r :: 0 <= r < |before| ==> |model.rows[r]| == |before[r]|
        invariant forall r, c :: 0 <= r < |model.rows| && 0 <= c < |model.rows[r]| ==>
          model.rows[r][c] == PastedCell(before, top, left, grid[..i], r, c)
      {
        PasteLine(top + i, left, grid[i]);
        forall r, c | 0 <= r < |model.rows| && 0 <= c < |model.rows[r]|
          ensures model.rows[r][c] == PastedCell(before, top, left, grid[..i + 1], r, c)
        {
          PastedCellStep(before, top, left, grid, i, r, c);
        }
        i := i + 1;
      }
      assert grid[..i] == grid;
      forall r | 0 <= r < |model.rows| ensures model.rows[r] == Pasted(before, top, left, grid)[r] {
        assert |model.rows[r]| == |before[r]|;
      }
    }

    /** One clipboard line into table row `row` from column `left` on; cells past the
        last row or column are dropped. */
    method PasteLine(row: nat, left: nat, line: seq<string>)
      requires model.Valid()
      modifies model
      ensures model.Valid() && model.headers == old(model.headers) && |model.rows| == |old(model.rows)|
      ensures forall r :: 0 <= r < |model.rows| ==> |model.rows[r]| == |old(model.rows)[r]|
      ensures forall r, c :: 0 <= r < |model.rows| && 0 <= c < |model.rows[r]| ==>
        model.rows[r][c] == (if r == row && left <= c < left + |line| then line[c - left] else old(model.rows)[r][c])
    {
      var j, n := 0, |line|;
      while j < n
        invariant 0 <= j <= n == |line|
        invariant model.Valid() && model.headers == old(model.headers) && |model.rows| == |old(model.rows)|
        invariant forall r :: 0 <= r < |model.rows| ==> |model.rows[r]| == |old(model.rows)[r]|
        invariant forall r, c :: 0 <= r < |model.rows| && 0 <= c < |model.rows[r]| ==>
          model.rows[r][c] == (if r == row && left <= c < left + j then line[c - left] else old(model.rows)[r][c])
      {
        var col := left + j;
        if row < model.RowCount() && col < model.ColumnCount() {
          model.SetData(row, col, line[j]);
        }
        j := j + 1;
      }
    }
  }

  // ---------------------------------------------------------------------------
  // Date cells and their sort key.

  function DigitValue(c: char): int {
    c as int - '0' as int
  }

  predicate IsAsciiDigit(c: char) {
    '0' <= c <= '9'
  }

  /** The text `%d` accepts: one or two digits, the first of two may be a space, value
      1 to 31. */
  function DayField(t: string): (r: Option<int>)
    ensures r.Some? ==> 1 <= r.value <= 31
  {
    if |t| == 1 && IsAsciiDigit(t[0]) && t[0] != '0' then Some(DigitValue(t[0]))
    else if |t| == 2 && IsAsciiDigit(t[1]) && (IsAsciiDigit(t[0]) || t[0] == ' ') then
      var v := (if t[0] == ' ' then 0 else 10 * DigitValue(t[0])) + DigitValue(t[1]);
      if 1 <= v <= 31 then Some(v) else None
    else None
  }

  /** The text `%m` accepts: one or two digits, value 1 to 12. */
  function MonthField(t: string): (r: Option<int>)
    ensures r.Some? ==> 1 <= r.value <= 12
  {
    if |t| == 1 && IsAsciiDigit(t[0]) && t[0] != '0' then Some(DigitValue(t[0]))
    else if |t| == 2 && IsAsciiDigit(t[0]) && IsAsciiDigit(t[1]) then
      var v := 10 * DigitValue(t[0]) + DigitValue(t[1]);
      if 1 <= v <= 12 then Some(v) else None
    else None
  }

  /** The text `%Y` accepts: exactly four digits. */
  function YearField(t: string): (r: Option<int>)
    ensures r.Some? ==> 0 <= r.value <= 9999
  {
    if |t| == 4 && IsAsciiDigit(t[0]) && IsAsciiDigit(t[1]) && IsAsciiDigit(t[2]) && IsAsciiDigit(t[3]) then
      Some(1000 * DigitValue(t[0]) + 100 * DigitValue(t[1]) + 10 * DigitValue(t[2]) + DigitValue(t[3]))
    else None
  }

  /** `datetime.strptime(t, '%d-%m-%Y')`; None is the ValueError: a text that does not
      match the format, or a date that does not exist (year 0 included). */
  function ParseDateText(t: string): (r: Option<Date>)
    ensures r.Some? ==> ValidDate(r.value) && 1 <= r.value.year <= 9999
  {
    var parts := SplitOn(t, '-');
    if |parts| != 3 then None
    else match (DayField(parts[0]), MonthField(parts[1]), YearField(parts[2]))
      case (Some(d), Some(m), Some(y)) =>
        if y >= 1 && d <= DaysInMonth(y, m) then Some(Date(y, m, d)) else None
      case _ => None
  }

  function DigitChar(n: int): (c: char)
    requires 0 <= n <= 9
    ensures IsAsciiDigit(c) && DigitValue(c) == n
  {
    ('0' as int + n) as char
  }

  function TwoDigits(n: int): (t: string)
    requires 0 <= n <= 99
    ensures |t| == 2 && IsAsciiDigit(t[0]) && IsAsciiDigit(t[1]) && 10 * DigitValue(t[0]) + DigitValue(t[1]) == n
  {
    [DigitChar(n / 10), DigitChar(n % 10)]
  }

  function FourDigits(n: int): (t: string)
    requires 0 <= n <= 9999
    ensures |t| == 4 && IsAsciiDigit(t[0]) && IsAsciiDigit(t[1]) && IsAsciiDigit(t[2]) && IsAsciiDigit(t[3])
    ensures 1000 * DigitValue(t[0]) + 100 * DigitValue(t[1]) + 10 * DigitValue(t[2]) + DigitValue(t[3]) == n
  {
    var high, low := TwoDigits(n / 100), TwoDigits(n % 100);
    assert n == 100 * (n / 100) + n % 100;
    high + low
  }

  /** `strftime('%d-%m-%Y')` for a year of four digits. */
  function DateText(d: Date): (t: string)
    requires ValidDate(d) && 1000 <= d.year <= 9999
    ensures |t| == 10 && t[2] == '-' && t[5] == '-'
  {
    TwoDigits(d.day) + "-" + TwoDigits(d.month) + "-" + FourDigits(d.year)
  }

  /** A date written by the program reads back as the same date. */
  lemma ParseDateTextRoundTrip(d: Date)
    requires ValidDate(d) && 1000 <= d.year <= 9999
    ensures ParseDateText(DateText(d)) == Some(d)
  {
    var dd, mm, yyyy := TwoDigits(d.day), TwoDigits(d.month), FourDigits(d.year);
    assert JoinOn([mm, yyyy], '-') == mm + "-" + JoinOn([yyyy], '-');
    assert DateText(d) == JoinOn([dd, mm, yyyy], '-');
    SplitJoin([dd, mm, yyyy], '-');
    assert DayField(dd) == Some(d.day);
    assert MonthField(mm) == Some(d.month);
    assert YearField(yyyy) == Some(d.year);
  }

  /** `getSortKeyForDate`: (month, day, year) of a readable date, (13, 32, 9999) for
      any other text. */
  function SortKeyForDate(t: string): (key: (int, int, int))
    ensures ParseDateText(t).Some? ==> 1 <= key.0 <= 12 && ValidDate(Date(key.2, key.0, key.1))
    ensures ParseDateText(t).None? ==> key == (13, 32, 9999)
  {
    match ParseDateText(t)
    case Some(d) => (d.month, d.day, d.year)
    case None => (13, 32, 9999)
  }

  predicate KeyBefore(a: (int, int, int), b: (int, int, int)) {
    a.0 < b.0 || (a.0 == b.0 && (a.1 < b.1 || (a.1 == b.1 && a.2 < b.2)))
  }

  /** Sorting by the key puts dates in calendar order of month and day, earlier years
      first on the same day, and every unreadable text after every date. */
  lemma SortKeyOrder(t1: string, t2: string)
    ensures ParseDateText(t1).Some? && ParseDateText(t2).None? ==> KeyBefore(SortKeyForDate(t1), SortKeyForDate(t2))
    ensures ParseDateText(t1).Some? && ParseDateText(t2).Some? ==>
      (KeyBefore(SortKeyForDate(t1), SortKeyForDate(t2)) <==>
        Before(Date(0, ParseDateText(t1).value.month, ParseDateText(t1).value.day),
               Date(0, ParseDateText(t2).value.month, ParseDateText(t2).value.day))
        || (ParseDateText(t1).value.month == ParseDateText(t2).value.month
            && ParseDateText(t1).value.day == ParseDateText(t2).value.day
            && ParseDateText(t1).value.year < ParseDateText(t2).value.year))
  {
  }

  /** The key of a date the program wrote is its month, day and year. */
  lemma SortKeyOfDateText(d: Date)
    requires ValidDate(d) && 1000 <= d.year <= 9999
    ensures SortKeyForDate(DateText(d)) == (d.month, d.day, d.year)
  {
    ParseDateTextRoundTrip(d);
  }
}
