/** The recurrence advance of `ReminderApp.adjust_date_custom`: a cycle text
    ("", "lunar", "anual", "la N luni|luna|ani|an") is read into a step in calendar
    months, and the event's date is pushed forward step by step, each step applied to
    the running date, until it is strictly after today. */
module Recurrence {
  import opened Wrappers
  import opened Calendar

  // ---------------------------------------------------------------------------
  // Python's str.split() with no separator: maximal runs of non-whitespace.

  /** The characters for which Python's str.isspace() holds. */
  predicate IsSpace(c: char) {
    ('\t' <= c <= '\r') || ('\U{1C}' <= c <= ' ') || c == '\U{85}' || c == '\U{A0}' || c == '\U{1680}'
    || ('\U{2000}' <= c <= '\U{200A}') || c == '\U{2028}' || c == '\U{2029}' || c == '\U{202F}'
    || c == '\U{205F}' || c == '\U{3000}'
  }

  predicate IsWord(w: string) {
    w != [] && forall i :: 0 <= i < |w| ==> !IsSpace(w[i])
  }

  /** Length of the leading run of non-whitespace characters. */
  function WordLength(s: string): (n: nat)
    ensures n <= |s|
    ensures forall i :: 0 <= i < n ==> !IsSpace(s[i])
    ensures n < |s| ==> IsSpace(s[n])
  {
    if s == [] || IsSpace(s[0]) then 0 else 1 + WordLength(s[1..])
  }

  /** `s.split()`. */
  function Words(s: string): (ws: seq<string>)
    ensures forall i :: 0 <= i < |ws| ==> IsWord(ws[i])
    decreases |s|
  {
    if s == [] then []
    else if IsSpace(s[0]) then Words(s[1..])
    else
      var n := WordLength(s);
      [s[..n]] + Words(s[n..])
  }

  /** Words joined by single spaces. */
  function JoinWords(ws: seq<string>): string {
    if ws == [] then ""
    else if |ws| == 1 then ws[0]
    else ws[0] + " " + JoinWords(ws[1..])
  }

  lemma {:induction false} WordLengthOfWord(w: string, rest: string)
    requires IsWord(w)
    requires rest == [] || IsSpace(rest[0])
    ensures WordLength(w + rest) == |w|
    decreases |w|
  {
    if |w| > 1 {
      assert (w + rest)[1..] == w[1..] + rest;
      WordLengthOfWord(w[1..], rest);
    } else {
      assert (w + rest)[1..] == rest;
    }
  }

  /** Splitting words that were joined by spaces gives the words back. */
  lemma {:induction false} WordsOfJoin(ws: seq<string>)
    requires forall i :: 0 <= i < |ws| ==> IsWord(ws[i])
    ensures Words(JoinWords(ws)) == ws
  {
    if ws == [] {
    } else if |ws| == 1 {
      var w := ws[0];
      WordLengthOfWord(w, "");
      assert w + "" == w;
      assert w[|w|..] == [];
      assert w[..|w|] == w;
    } else {
      var w := ws[0];
      var rest := " " + JoinWords(ws[1..]);
      var s := w + rest;
      assert JoinWords(ws) == s;
      WordLengthOfWord(w, rest);
      assert s[..|w|] == w;
      assert s[|w|..] == rest;
      assert Words(rest) == Words(JoinWords(ws[1..])) by {
        assert rest[1..] == JoinWords(ws[1..]);
      }
      WordsOfJoin(ws[1..]);
      assert ws == [w] + ws[1..];
    }
  }

  // ---------------------------------------------------------------------------
  // Python's int(text) on a text without surrounding whitespace: an optional sign,
  // then decimal digits, single underscores allowed between digits.

  predicate IsDigit(c: char) {
    '0' <= c <= '9'
  }

  predicate WellFormedDigits(t: string) {
    && t != [] && IsDigit(t[0]) && IsDigit(t[|t| - 1])
    && (forall i :: 0 <= i < |t| ==> IsDigit(t[i]) || t[i] == '_')
    && (forall i :: 0 <= i < |t| - 1 ==> t[i] == '_' ==> t[i + 1] != '_')
  }

  /** The value of a digit string; underscores are skipped. */
  function DigitsValue(t: string): (v: nat)
    decreases |t|
  {
    if t == [] then 0
    else if t[|t| - 1] == '_' then DigitsValue(t[..|t| - 1])
    else DigitsValue(t[..|t| - 1]) * 10 + DigitOf(t[|t| - 1])
  }

  function DigitOf(c: char): nat {
    if IsDigit(c) then (c - '0') as nat else 0
  }

  /** `int(t)`; None stands for the ValueError Python raises. */
  function ParseInt(t: string): Option<int> {
    if t != [] && (t[0] == '+' || t[0] == '-') then
      var body := t[1..];
      var v: int := DigitsValue(body);
      if WellFormedDigits(body) then Some(if t[0] == '-' then -v else v)
      else None
    else if WellFormedDigits(t) then Some(DigitsValue(t))
    else None
  }

  /** `str(n)` for a natural number. */
  function NatText(n: nat): (t: string)
    ensures t != [] && forall i :: 0 <= i < |t| ==> IsDigit(t[i])
  {
    if n < 10 then [('0' as int + n) as char]
    else NatText(n / 10) + [('0' as int + n % 10) as char]
  }

  /** `str(n)`. */
  function IntText(n: int): (t: string) {
    if n < 0 then "-" + NatText(-n) else NatText(n)
  }

  lemma {:induction false} NatTextValue(n: nat)
    ensures WellFormedDigits(NatText(n)) && DigitsValue(NatText(n)) == n
  {
    var t := NatText(n);
    if n >= 10 {
      NatTextValue(n / 10);
      assert t[..|t| - 1] == NatText(n / 10);
    }
  }

  /** `int(str(n)) == n`: the number printed in a cycle text is read back unchanged. */
  lemma ParseIntText(n: int)
    ensures ParseInt(IntText(n)) == Some(n)
  {
    if n < 0 { ParseNegativeText(-n); } else { ParseNaturalText(n); }
  }

  /** A text without a sign reads as its digits. */
  lemma ParseNaturalText(n: nat)
    ensures ParseInt(NatText(n)) == Some(n)
  {
    var b := NatText(n);
    NatTextValue(n);
    assert IsDigit(b[0]);
  }

  /** A text with a minus sign reads as the negated digits. */
  lemma ParseNegativeText(m: nat)
    ensures ParseInt("-" + NatText(m)) == Some(-(m as int))
  {
    var b := NatText(m);
    var t := "-" + b;
    NatTextValue(m);
    assert t[1..] == b && t[0] == '-';
  }

  lemma IntTextIsWord(n: int)
    ensures IsWord(IntText(n))
  {
    var t := NatText(if n < 0 then -n else n);
    assert forall i :: 0 <= i < |t| ==> !IsSpace(t[i]);
  }

  // ---------------------------------------------------------------------------
  // Cycle texts.

  /** What the loop of `adjust_date_custom` does for a cycle text. */
  datatype Cycle =
    | Once                    // no loop: the date is returned as it is
    | EveryMonths(n: int)     // the loop adds n calendar months per step (12 per year)
    | Spin                    // "la N <unit>" with an unknown unit: the loop body changes nothing

  /** Reads the cycle text the way `adjust_date_custom` branches on it. An empty text,
      an unknown text, a "la ..." text that is not three words, and a count that
      `int()` refuses all leave the date alone. */
  function ParseCycle(text: string): (c: Cycle)
    ensures c != Once ==>
      text == "lunar" || text == "anual"
      || (|text| >= 3 && text[..3] == "la " && |Words(text)| == 3 && ParseInt(Words(text)[1]).Some?)
  {
    if text == "" then Once
    else if text == "lunar" then EveryMonths(1)
    else if text == "anual" then EveryMonths(12)
    else if |text| >= 3 && text[..3] == "la " then
      var parts := Words(text);
      if |parts| != 3 then Once
      else match ParseInt(parts[1])
        case None => Once
        case Some(n) =>
          if parts[2] == "ani" || parts[2] == "an" then EveryMonths(12 * n)
          else if parts[2] == "luni" || parts[2] == "luna" then EveryMonths(n)
          else Spin
    else Once
  }

  /** "la N luni" and "la N luna" step by N months, "la N ani" and "la N an" by N years,
      any other one-word unit leaves the loop without a step. */
  lemma ParseCycleEvery(n: int, unit: string)
    requires IsWord(unit)
    ensures ParseCycle("la " + IntText(n) + " " + unit) ==
      if unit == "luni" || unit == "luna" then EveryMonths(n)
      else if unit == "ani" || unit == "an" then EveryMonths(12 * n)
      else Spin
  {
    ParseIntText(n);
    WordsOfEvery(n, unit);
    EveryTextHead(n, unit);
  }

  /** The words of "la <n> <unit>". */
  lemma WordsOfEvery(n: int, unit: string)
    requires IsWord(unit)
    ensures Words("la " + IntText(n) + " " + unit) == ["la", IntText(n), unit]
  {
    var text := "la " + IntText(n) + " " + unit;
    IntTextIsWord(n);
    var ws := ["la", IntText(n), unit];
    assert IsWord("la");
    assert forall i :: 0 <= i < |ws| ==> IsWord(ws[i]);
    WordsOfJoin(ws);
    assert JoinWords(ws) == text by {
      assert JoinWords(ws[2..]) == unit;
      assert JoinWords(ws[1..]) == IntText(n) + " " + unit;
    }
  }

  /** "la <n> <unit>" starts with "la " and is none of the fixed cycle names. */
  lemma EveryTextHead(n: int, unit: string)
    ensures var text := "la " + IntText(n) + " " + unit;
      |text| >= 3 && text[..3] == "la " && text != "" && text != "lunar" && text != "anual"
  {
    var text := "la " + IntText(n) + " " + unit;
    assert text[..3] == "la ";
    assert text[0] == 'l' && text[1] == 'a' && text[2] == ' ';
  }

  // ---------------------------------------------------------------------------
  // The advance, as a specification.

  /** Where the loop of `adjust_date_custom` comes to rest, or that it never does. */
  datatype Advanced = Landed(date: Date) | Diverges

  /** The running date after k steps of n months. */
  function Iterate(d: Date, n: int, k: nat): (r: Date)
    requires ValidDate(d)
    ensures ValidDate(r)
  {
    if k == 0 then d else AddMonths(Iterate(d, n, k - 1), n)
  }

  lemma NotBeforeIsNotAfter(a: Date, b: Date)
    requires !Before(b, a)
    ensures NotAfter(a, b)
  {
  }

  /** Steps of n months from d until the running date is strictly after now. */
  function FirstAfter(d: Date, now: Date, n: int): (r: Date)
    requires ValidDate(d) && ValidDate(now) && n >= 1
    ensures ValidDate(r) && Before(now, r)
    decreases MonthIndex(now) - MonthIndex(d)
  {
    if Before(now, d) then d
    else
      NotBeforeIsNotAfter(d, now);
      NotAfterMonthIndex(d, now);
      AddMonthsMoves(d, n);
      FirstAfter(AddMonths(d, n), now, n)
  }

  /** `adjust_date_custom(base, now, text)` for a cycle already read. */
  function Advance(base: Date, now: Date, c: Cycle): (r: Advanced)
    requires ValidDate(base) && ValidDate(now)
    ensures r.Landed? ==> ValidDate(r.date) && !Before(r.date, base)
    ensures r.Landed? && c != Once ==> Before(now, r.date)
  {
    match c
    case Once => Landed(base)
    case EveryMonths(n) =>
      if Before(now, base) then Landed(base)
      else if n >= 1 then Landed(FirstAfter(base, now, n))
      else Diverges
    case Spin => if Before(now, base) then Landed(base) else Diverges
  }

  /** The loop runs for ever exactly when it is entered (the date is not after now) and
      its step does not move the date forward: an unknown unit, or a count below 1. */
  lemma AdvanceDivergesWhen(base: Date, now: Date, c: Cycle)
    requires ValidDate(base) && ValidDate(now)
    ensures Advance(base, now, c) == Diverges <==>
      NotAfter(base, now) && (c == Spin || (c.EveryMonths? && c.n < 1))
  {
    if !Before(now, base) {
      NotBeforeIsNotAfter(base, now);
    }
  }

  /** An empty cell, a missing one (read as "nan"), any text that is neither `lunar`,
      `anual` nor "la ...", a "la ..." text that is not three words, and one whose count
      `int()` refuses (the ValueError is caught) all return the date unchanged, even
      when it is in the past. */
  lemma AdvanceOnceKeepsDate(base: Date, now: Date, text: string)
    requires ValidDate(base) && ValidDate(now)
    requires || text == "" || text == "nan"
             || (text != "lunar" && text != "anual" && !(|text| >= 3 && text[..3] == "la "))
             || (|text| >= 3 && text[..3] == "la " && (|Words(text)| != 3 || ParseInt(Words(text)[1]).None?))
    ensures Advance(base, now, ParseCycle(text)) == Landed(base)
  {
    if text == "nan" {
      assert text[..3] != "la " by { assert text[0] == 'n'; }
    }
    if |text| >= 3 && text[..3] == "la " {
      assert text != "lunar" by { assert text[1] == 'a'; }
      assert text != "anual" by { assert text[0] == 'l'; }
    }
  }

  /** A recurring date lands strictly after now, and one already after now is kept. */
  lemma AdvanceLandsAfterNow(base: Date, now: Date, n: int)
    requires ValidDate(base) && ValidDate(now) && n >= 1
    ensures Advance(base, now, EveryMonths(n)).Landed?
    ensures Before(now, Advance(base, now, EveryMonths(n)).date)
    ensures Before(now, base) ==> Advance(base, now, EveryMonths(n)).date == base
  {
  }

  /** How many steps the loop takes from d. */
  function StepsToPass(d: Date, now: Date, n: int): nat
    requires ValidDate(d) && ValidDate(now) && n >= 1
    decreases MonthIndex(now) - MonthIndex(d)
  {
    if Before(now, d) then 0
    else
      NotBeforeIsNotAfter(d, now);
      NotAfterMonthIndex(d, now);
      AddMonthsMoves(d, n);
      1 + StepsToPass(AddMonths(d, n), now, n)
  }

  /** The date the loop lands on is the first of d, d + step, (d + step) + step, ...
      that is strictly after now: it is reached by a whole number of steps, and every
      earlier running date was not after now. */
  lemma {:induction false} FirstAfterIsFirstIterate(d: Date, now: Date, n: int)
    requires ValidDate(d) && ValidDate(now) && n >= 1
    ensures FirstAfter(d, now, n) == Iterate(d, n, StepsToPass(d, now, n))
    ensures forall j: nat :: j < StepsToPass(d, now, n) ==> NotAfter(Iterate(d, n, j), now)
    decreases MonthIndex(now) - MonthIndex(d)
  {
    if !Before(now, d) {
      NotBeforeIsNotAfter(d, now);
      NotAfterMonthIndex(d, now);
      AddMonthsMoves(d, n);
      var d' := AddMonths(d, n);
      FirstAfterIsFirstIterate(d', now, n);
      var k := StepsToPass(d', now, n);
      IterateShift(d, n, k);
      forall j: nat | j < k + 1
        ensures NotAfter(Iterate(d, n, j), now)
      {
        if j > 0 {
          IterateShift(d, n, j - 1);
        }
      }
    }
  }

  lemma {:induction false} IterateShift(d: Date, n: int, j: nat)
    requires ValidDate(d)
    ensures Iterate(AddMonths(d, n), n, j) == Iterate(d, n, j + 1)
  {
    if j > 0 {
      IterateShift(d, n, j - 1);
    }
  }

  /** Advancing an already advanced date to a later day gives what advancing the
      original date to that day gives: the chain of occurrences does not depend on
      when it was last advanced. In particular, advancing twice to the same day changes
      nothing the second time. */
  lemma {:induction false} FirstAfterComposes(d: Date, t1: Date, t2: Date, n: int)
    requires ValidDate(d) && ValidDate(t1) && ValidDate(t2) && n >= 1
    requires NotAfter(t1, t2)
    ensures FirstAfter(FirstAfter(d, t1, n), t2, n) == FirstAfter(d, t2, n)
    decreases MonthIndex(t1) - MonthIndex(d)
  {
    if Before(t1, d) {
    } else {
      NotBeforeIsNotAfter(d, t1);
      NotAfterMonthIndex(d, t1);
      AddMonthsMoves(d, n);
      FirstAfterComposes(AddMonths(d, n), t1, t2, n);
    }
  }

  lemma AdvanceComposes(base: Date, t1: Date, t2: Date, c: Cycle)
    requires ValidDate(base) && ValidDate(t1) && ValidDate(t2) && NotAfter(t1, t2)
    requires Advance(base, t1, c).Landed? && Advance(base, t2, c).Landed?
    ensures Advance(Advance(base, t1, c).date, t2, c) == Advance(base, t2, c)
  {
    match c
    case Once =>
    case Spin =>
    case EveryMonths(n) =>
      if !Before(t1, base) {
        FirstAfterComposes(base, t1, t2, n);
        var r := FirstAfter(base, t1, n);
        if Before(t2, r) {
          assert FirstAfter(r, t2, n) == r;
        }
      } else if !Before(t2, base) {
        assert n >= 1;
      }
  }

  // ---------------------------------------------------------------------------
  // The advance, as the source runs it.

  /** `adjust_date_custom(event_date, now, ciclu)` for a date that is present. The loop
      is the source's `while event_date <= now`; the precondition says that the loop
      comes to rest, which the source does not check (with an unknown unit or a count
      below 1 it never does once the date is not after now). */
  method AdjustDate(base: Date, now: Date, text: string) returns (r: Date)
    requires ValidDate(base) && ValidDate(now)
    requires Advance(base, now, ParseCycle(text)).Landed?
    ensures Advance(base, now, ParseCycle(text)) == Landed(r)
  {
    var cycle := ParseCycle(text);
    r := base;
    match cycle
    case Once =>
    case Spin =>
    case EveryMonths(n) =>
      while NotAfter(r, now)
        invariant ValidDate(r)
        invariant NotAfter(r, now) ==> n >= 1
        invariant Advance(r, now, cycle) == Advance(base, now, cycle)
        decreases MonthIndex(now) - MonthIndex(r)
      {
        NotAfterMonthIndex(r, now);
        AddMonthsMoves(r, n);
        r := AddMonths(r, n);
      }
  }
}
