/**
 * formatNumber from beta/assets/js/main.js: an integer's decimal text with a
 * comma inserted by the regular-expression replace \B(?=(\d{3})+(?!\d)) with
 * the global flag, and the read-back the statistics counter performs on it
 * (delete every comma, then parseInt).
 */
module NumberFormat {
  import opened Dom
  import opened JsText

  function DigitChar(d: nat): (c: char)
    requires d < 10
    ensures IsDigit(c) && DigitValue(c, 10) == d
  {
    ('0' as int + d) as char
  }

  /** Number.prototype.toString on a non-negative integer (below 1e21). */
  function NatToString(n: nat): (s: string)
    ensures |s| >= 1 && AllDigits(s)
    ensures RadixValue(s, 10) == n
    ensures s[0] == '0' <==> n == 0
    ensures |s| == 1 || s[0] != '0'
    decreases n
  {
    if n < 10 then [DigitChar(n)]
    else
      var s := NatToString(n / 10) + [DigitChar(n % 10)];
      assert s[..|s| - 1] == NatToString(n / 10);
      s
  }

  /** Number.prototype.toString on an integer (magnitude below 1e21). */
  function IntToString(n: int): string {
    if n < 0 then "-" + NatToString(-n) else NatToString(n)
  }

  /** The regular expression's \w: ASCII letters, digits and underscore. */
  predicate IsWordChar(c: char) {
    IsDigit(c) || 'a' <= c <= 'z' || 'A' <= c <= 'Z' || c == '_'
  }

  /** The number of consecutive digits starting at position p. */
  function DigitRun(s: string, p: nat): (k: nat)
    requires p <= |s|
    ensures p + k <= |s|
    ensures forall i :: p <= i < p + k ==> IsDigit(s[i])
    ensures p + k == |s| || !IsDigit(s[p + k])
    decreases |s| - p
  {
    if p < |s| && IsDigit(s[p]) then 1 + DigitRun(s, p + 1) else 0
  }

  /** \B at position p: the characters on either side are both word characters or both not (an edge counts as not). */
  predicate NotWordBoundary(s: string, p: nat)
    requires p <= |s|
  {
    (p > 0 && IsWordChar(s[p - 1])) == (p < |s| && IsWordChar(s[p]))
  }

  /**
   * (?=(\d{3})+(?!\d)) at position p, written as the regular expression
   * reads it: some m >= 1 groups of three digits, and no digit after them.
   */
  predicate GroupsEndAt(s: string, p: nat, m: nat)
    requires p <= |s|
  {
    1 <= m && p + 3 * m <= |s|
    && (forall i :: p <= i < p + 3 * m ==> IsDigit(s[i]))
    && (p + 3 * m == |s| || !IsDigit(s[p + 3 * m]))
  }

  ghost predicate LookaheadMatches(s: string, p: nat)
    requires p <= |s|
  {
    exists m: nat :: GroupsEndAt(s, p, m)
  }

  /**
   * The same lookahead, computed: the groups must use up the whole run of
   * digits at p, so that run is non-empty and a multiple of three long.
   */
  predicate GroupsOfThreeAhead(s: string, p: nat)
    requires p <= |s|
  {
    var k := DigitRun(s, p);
    k > 0 && k % 3 == 0
  }

  /** The computed lookahead is the regular expression's lookahead. */
  lemma LookaheadByRun(s: string, p: nat)
    requires p <= |s|
    ensures LookaheadMatches(s, p) <==> GroupsOfThreeAhead(s, p)
  {
    var k := DigitRun(s, p);
    if GroupsOfThreeAhead(s, p) {
      assert GroupsEndAt(s, p, k / 3);
    }
    if LookaheadMatches(s, p) {
      var m: nat :| GroupsEndAt(s, p, m);
      RunEndsAt(s, p, p + 3 * m);
    }
  }

  /** A run of digits from p that stops at q (a non-digit or the end) is DigitRun's run. */
  lemma {:induction false} RunEndsAt(s: string, p: nat, q: nat)
    requires p <= q <= |s|
    requires forall i :: p <= i < q ==> IsDigit(s[i])
    requires q == |s| || !IsDigit(s[q])
    ensures DigitRun(s, p) == q - p
    decreases q - p
  {
    if p < q {
      RunEndsAt(s, p + 1, q);
    }
  }

  /** The regular expression matches (an empty match) at position p. */
  predicate SeparatorAt(s: string, p: nat)
    requires p <= |s|
  {
    NotWordBoundary(s, p) && GroupsOfThreeAhead(s, p)
  }

  /** replace(regex, ',') with the global flag: a comma before every character where the expression matches, scanning from p. */
  function InsertSeparators(s: string, p: nat): string
    requires p <= |s|
    decreases |s| - p
  {
    if p == |s| then ""
    else (if SeparatorAt(s, p) then "," else "") + [s[p]] + InsertSeparators(s, p + 1)
  }

  /** formatNumber(num) for an integer num */
  function FormatNumber(n: int): string {
    InsertSeparators(IntToString(n), 0)
  }

  /** text.replace(/,/g, '') */
  function StripCommas(s: string): (r: string)
    decreases |s|
  {
    if s == [] then ""
    else (if s[0] == ',' then "" else [s[0]]) + StripCommas(s[1..])
  }

  /** Digits grouped in threes from the right: a reference definition of the grouping, independent of the regular expression. */
  function Grouped(d: string): string
    decreases |d|
  {
    if |d| <= 3 then d else Grouped(d[..|d| - 3]) + "," + d[|d| - 3..]
  }

  /** A leading group of one to three digits, then groups of a comma and exactly three digits. */
  predicate WellGrouped(r: string)
    decreases |r|
  {
    if |r| <= 3 then 1 <= |r| && AllDigits(r)
    else r[|r| - 4] == ',' && AllDigits(r[|r| - 3..]) && WellGrouped(r[..|r| - 4])
  }

  // ---------------------------------------------------------------------------
  // Deleting the commas gives back the decimal text.
  // ---------------------------------------------------------------------------

  lemma {:induction false} StripCommasAppend(a: string, b: string)
    ensures StripCommas(a + b) == StripCommas(a) + StripCommas(b)
    decreases |a|
  {
    if a != [] {
      assert (a + b)[1..] == a[1..] + b;
      StripCommasAppend(a[1..], b);
    } else {
      assert a + b == b;
    }
  }

  lemma {:induction false} StripCommasNoComma(s: string)
    requires forall i :: 0 <= i < |s| ==> s[i] != ','
    ensures StripCommas(s) == s
    decreases |s|
  {
    if s != [] {
      StripCommasNoComma(s[1..]);
    }
  }

  /** The inserted text is the scanned text with commas added and nothing else changed. */
  lemma {:induction false} StripInserted(s: string, p: nat)
    requires p <= |s|
    ensures StripCommas(InsertSeparators(s, p)) == StripCommas(s[p..])
    decreases |s| - p
  {
    if p < |s| {
      var sep := if SeparatorAt(s, p) then "," else "";
      StripInserted(s, p + 1);
      StripCommasAppend(sep + [s[p]], InsertSeparators(s, p + 1));
      StripCommasAppend(sep, [s[p]]);
      assert s[p..] == [s[p]] + s[p + 1..];
      StripCommasAppend([s[p]], s[p + 1..]);
    }
  }

  /** Deleting every comma from formatNumber(n) yields n's decimal text. */
  lemma StripFormatted(n: int)
    ensures StripCommas(FormatNumber(n)) == IntToString(n)
  {
    var s := IntToString(n);
    StripInserted(s, 0);
    assert s[0..] == s;
    assert forall i :: 0 <= i < |s| ==> s[i] == '-' || IsDigit(s[i]);
    StripCommasNoComma(s);
  }

  /** The counter's read-back, replace(/,/g, '') and then parseInt, recovers the number formatNumber wrote. */
  lemma CounterReadBack(n: int)
    ensures ParseInt(StripCommas(FormatNumber(n))) == Some(n)
  {
    StripFormatted(n);
    if n < 0 {
      var d := NatToString(-n);
      assert ("-" + d)[1..] == d;
      ParseIntNegative("-" + d);
    } else {
      ParseIntDecimal(NatToString(n));
    }
  }

  // ---------------------------------------------------------------------------
  // Where the commas go.
  // ---------------------------------------------------------------------------

  lemma {:induction false} DigitRunToEnd(s: string, p: nat)
    requires p <= |s| && AllDigits(s)
    ensures DigitRun(s, p) == |s| - p
    decreases |s| - p
  {
    if p < |s| {
      DigitRunToEnd(s, p + 1);
    }
  }

  /** In a string of digits the expression matches exactly inside it, a multiple of three before the end. */
  lemma SeparatorInDigits(s: string, p: nat)
    requires p <= |s| && AllDigits(s) && |s| > 0
    ensures SeparatorAt(s, p) <==> 0 < p < |s| && (|s| - p) % 3 == 0
  {
    DigitRunToEnd(s, p);
    if p > 0 {
      assert IsWordChar(s[p - 1]);
    }
    if p < |s| {
      assert IsWordChar(s[p]);
    }
  }

  /** Past the last possible separator the scan copies the rest unchanged. */
  lemma {:induction false} InsertedTail(s: string, p: nat)
    requires p <= |s| && AllDigits(s) && |s| > 0
    requires |s| - p < 3 || (p == 0 && |s| <= 3)
    ensures InsertSeparators(s, p) == s[p..]
    decreases |s| - p
  {
    if p < |s| {
      SeparatorInDigits(s, p);
      InsertedTail(s, p + 1);
      assert s[p..] == [s[p]] + s[p + 1..];
    }
  }

  /** Scanning a numeral longer than three splits into scanning all but its last three digits, a comma, and those three. */
  lemma {:induction false} InsertedSplit(s: string, p: nat)
    requires AllDigits(s) && |s| > 3 && p <= |s| - 3
    ensures InsertSeparators(s, p) == InsertSeparators(s[..|s| - 3], p) + "," + s[|s| - 3..]
    decreases |s| - p
  {
    var a := s[..|s| - 3];
    if p == |a| {
      InsertedLastGroup(s);
    } else {
      InsertedSplit(s, p + 1);
      SameSeparator(s, p);
      InsertedSplitStep(s, p);
    }
  }

  /** One step of the scan is the same on the numeral and on the numeral without its last group. */
  lemma InsertedSplitStep(s: string, p: nat)
    requires |s| > 3 && p < |s| - 3
    requires SeparatorAt(s, p) == SeparatorAt(s[..|s| - 3], p)
    requires InsertSeparators(s, p + 1) == InsertSeparators(s[..|s| - 3], p + 1) + "," + s[|s| - 3..]
    ensures InsertSeparators(s, p) == InsertSeparators(s[..|s| - 3], p) + "," + s[|s| - 3..]
  {
    var a := s[..|s| - 3];
    var sep := if SeparatorAt(s, p) then "," else "";
    var rest, tail := InsertSeparators(a, p + 1), s[|s| - 3..];
    assert a[p] == s[p];
    assert InsertSeparators(a, p) == sep + [a[p]] + rest;
    assert sep + [s[p]] + (rest + "," + tail) == (sep + [a[p]] + rest) + "," + tail;
  }

  lemma InsertedLastGroup(s: string)
    requires AllDigits(s) && |s| > 3
    ensures InsertSeparators(s, |s| - 3) == "," + s[|s| - 3..]
  {
    var p := |s| - 3;
    SeparatorInDigits(s, p);
    InsertedTail(s, p + 1);
    assert s[p..] == [s[p]] + s[p + 1..];
  }

  lemma SameSeparator(s: string, p: nat)
    requires AllDigits(s) && |s| > 3 && p < |s| - 3
    ensures SeparatorAt(s, p) == SeparatorAt(s[..|s| - 3], p)
  {
    var a := s[..|s| - 3];
    assert AllDigits(a);
    SeparatorInDigits(s, p);
    SeparatorInDigits(a, p);
    assert (|s| - p) % 3 == (|a| - p) % 3;
  }

  /** On a numeral the regular expression groups exactly as the reference grouping does. */
  lemma {:induction false} InsertedIsGrouped(s: string)
    requires |s| > 0 && AllDigits(s)
    ensures InsertSeparators(s, 0) == Grouped(s)
    decreases |s|
  {
    if |s| <= 3 {
      InsertedTail(s, 0);
      assert s[0..] == s;
    } else {
      InsertedSplit(s, 0);
      InsertedIsGrouped(s[..|s| - 3]);
    }
  }

  lemma WellGroupedNonEmpty(r: string)
    requires WellGrouped(r)
    ensures |r| >= 1
  {
  }

  lemma {:induction false} GroupedIsWellGrouped(s: string)
    requires |s| > 0 && AllDigits(s)
    ensures WellGrouped(Grouped(s))
    decreases |s|
  {
    if |s| > 3 {
      var a := s[..|s| - 3];
      GroupedIsWellGrouped(a);
      var g, tail := Grouped(a), s[|s| - 3..];
      assert |g| >= 1 by { WellGroupedNonEmpty(g); }
      var r := g + "," + tail;
      assert Grouped(s) == r;
      assert r[..|r| - 4] == g;
      assert r[|r| - 4] == ',';
      assert r[|r| - 3..] == tail;
      assert AllDigits(tail);
    }
  }

  /**
   * For n >= 0, formatNumber(n) is n's digits grouped in threes from the
   * right: a leading group of one to three digits, then groups of exactly
   * three, no comma first or last.
   */
  lemma FormatGroups(n: nat)
    ensures FormatNumber(n) == Grouped(NatToString(n))
    ensures WellGrouped(FormatNumber(n))
  {
    InsertedIsGrouped(NatToString(n));
    GroupedIsWellGrouped(NatToString(n));
  }

  lemma {:induction false} NatToStringLength(n: nat)
    ensures n < 10 ==> |NatToString(n)| == 1
    ensures 10 <= n < 100 ==> |NatToString(n)| == 2
    ensures 100 <= n < 1000 ==> |NatToString(n)| == 3
    ensures n >= 1000 ==> |NatToString(n)| >= 4
    decreases n
  {
    if n >= 10 {
      NatToStringLength(n / 10);
    }
  }

  /** Non-negative numbers below 1000 come out unchanged, and every larger one gains a comma. */
  lemma FormatSmall(n: nat)
    ensures FormatNumber(n) == NatToString(n) <==> n < 1000
  {
    FormatGroups(n);
    NatToStringLength(n);
    var d := NatToString(n);
    if n >= 1000 {
      var r := Grouped(d);
      assert r[|r| - 4] == ',';
      assert !IsDigit(',');
      assert r != d by {
        if |r| == |d| { assert IsDigit(d[|r| - 4]); }
      }
    }
  }

  /** A minus sign is not a word character: formatNumber of a negative number is a minus sign before the formatted magnitude. */
  lemma FormatNegative(n: int)
    requires n < 0
    ensures FormatNumber(n) == "-" + FormatNumber(-n)
  {
    var d := NatToString(-n);
    var s := "-" + d;
    assert s[1..] == d;
    ShiftedScan(s, 0);
    assert !SeparatorAt(s, 0);
  }

  lemma {:induction false} ShiftedScan(s: string, q: nat)
    requires |s| > 0 && !IsWordChar(s[0]) && !IsDigit(s[0]) && q <= |s| - 1
    ensures InsertSeparators(s, q + 1) == InsertSeparators(s[1..], q)
    decreases |s| - q
  {
    var t := s[1..];
    if q < |t| {
      ShiftedRun(s, q + 1);
      assert SeparatorAt(s, q + 1) == SeparatorAt(t, q);
      ShiftedScan(s, q + 1);
    }
  }

  lemma {:induction false} ShiftedRun(s: string, p: nat)
    requires 1 <= p <= |s|
    ensures DigitRun(s, p) == DigitRun(s[1..], p - 1)
    decreases |s| - p
  {
    if p < |s| {
      ShiftedRun(s, p + 1);
    }
  }
}
