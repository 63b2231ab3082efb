/**
 * The JavaScript string built-ins the scripts lean on: String.prototype.trim
 * (the form validator) and the global parseInt (the statistics counter).
 */
module JsText {
  import opened Dom

  /**
   * The ECMAScript WhiteSpace and LineTerminator code points: the characters
   * that trim removes and that parseInt skips before the number.
   */
  predicate IsSpace(c: char) {
    || c == '\t' || c == '\U{000B}' || c == '\U{000C}' || c == ' ' || c == '\U{00A0}'
    || c == '\U{1680}' || ('\U{2000}' <= c <= '\U{200A}') || c == '\U{202F}' || c == '\U{205F}'
    || c == '\U{3000}' || c == '\U{FEFF}'
    || c == '\n' || c == '\r' || c == '\U{2028}' || c == '\U{2029}'
  }

  predicate Blank(s: string) {
    forall i :: 0 <= i < |s| ==> IsSpace(s[i])
  }

  predicate IsDigit(c: char) {
    '0' <= c <= '9'
  }

  predicate AllDigits(s: string) {
    forall i :: 0 <= i < |s| ==> IsDigit(s[i])
  }

  /** The end of the run of white space that starts at index i. */
  function SpacesFrom(s: string, i: nat): (k: nat)
    requires i <= |s|
    ensures i <= k <= |s|
    ensures forall j :: i <= j < k ==> IsSpace(s[j])
    ensures k == |s| || !IsSpace(s[k])
    decreases |s| - i
  {
    if i < |s| && IsSpace(s[i]) then SpacesFrom(s, i + 1) else i
  }

  /** The start of the run of white space that ends just before index k. */
  function SpacesBefore(s: string, k: nat): (j: nat)
    requires k <= |s|
    ensures j <= k
    ensures forall m :: j <= m < k ==> IsSpace(s[m])
    ensures j == 0 || !IsSpace(s[j - 1])
    decreases k
  {
    if k > 0 && IsSpace(s[k - 1]) then SpacesBefore(s, k - 1) else k
  }

  /** Drops the leading white space. */
  function TrimStart(s: string): string {
    s[SpacesFrom(s, 0)..]
  }

  /** Drops the trailing white space. */
  function TrimEnd(s: string): string {
    s[..SpacesBefore(s, |s|)]
  }

  /** String.prototype.trim */
  function Trim(s: string): string {
    TrimEnd(TrimStart(s))
  }

  /** A value is empty after trimming exactly when every character of it is white space. */
  lemma TrimEmptyIffBlank(s: string)
    ensures Trim(s) == "" <==> Blank(s)
  {
    var a := SpacesFrom(s, 0);
    var t := s[a..];
    var b := SpacesBefore(t, |t|);
    assert Trim(s) == t[..b];
    assert forall m :: a <= m < |s| ==> s[m] == t[m - a];
  }

  /** A digit of the given radix (parseInt only ever uses 10 or 16 here). */
  predicate IsRadixDigit(c: char, radix: nat) {
    if radix == 16 then IsDigit(c) || 'a' <= c <= 'f' || 'A' <= c <= 'F' else IsDigit(c)
  }

  function DigitValue(c: char, radix: nat): (v: nat)
    requires IsRadixDigit(c, radix)
    ensures radix == 16 ==> v < 16
    ensures radix != 16 ==> v < 10
  {
    if IsDigit(c) then c as int - '0' as int
    else if 'a' <= c <= 'f' then c as int - 'a' as int + 10
    else c as int - 'A' as int + 10
  }

  /** Length of the longest prefix of s made of digits of the radix. */
  function RadixPrefix(s: string, radix: nat): (k: nat)
    ensures k <= |s|
    ensures forall i :: 0 <= i < k ==> IsRadixDigit(s[i], radix)
    ensures k == |s| || !IsRadixDigit(s[k], radix)
    decreases |s|
  {
    if |s| > 0 && IsRadixDigit(s[0], radix) then 1 + RadixPrefix(s[1..], radix) else 0
  }

  /** The value of a string of digits, most significant first. */
  function RadixValue(s: string, radix: nat): nat
    requires forall i :: 0 <= i < |s| ==> IsRadixDigit(s[i], radix)
    decreases |s|
  {
    if s == [] then 0
    else RadixValue(s[..|s| - 1], radix) * radix + DigitValue(s[|s| - 1], radix)
  }

  /** The longest run of digits at the start of d, read in the radix; None (NaN) when there is none. */
  function ParseDigits(d: string, radix: nat): Option<nat> {
    var k := RadixPrefix(d, radix);
    if k == 0 then None else Some(RadixValue(d[..k], radix))
  }

  /** After the sign: a "0x" or "0X" prefix selects radix 16, anything else radix 10. */
  function ParseUnsigned(u: string): Option<nat> {
    if |u| >= 2 && u[0] == '0' && (u[1] == 'x' || u[1] == 'X') then ParseDigits(u[2..], 16)
    else ParseDigits(u, 10)
  }

  /** One optional sign; a minus negates the value. */
  function ParseSigned(t: string): Option<int> {
    if |t| > 0 && t[0] == '-' then
      match ParseUnsigned(t[1..])
      case None => None
      case Some(v) => Some(-(v as int))
    else if |t| > 0 && t[0] == '+' then
      match ParseUnsigned(t[1..])
      case None => None
      case Some(v) => Some(v)
    else
      match ParseUnsigned(t)
      case None => None
      case Some(v) => Some(v)
  }

  /**
   * The global parseInt with no radix argument, None standing for NaN:
   * skip leading white space, take one optional sign, read a "0x"/"0X"
   * prefix as radix 16, then the longest run of digits; NaN when that run is
   * empty.
   */
  function ParseInt(s: string): Option<int> {
    ParseSigned(TrimStart(s))
  }

  /** A decimal numeral is read whole: nothing after its last digit is left unread. */
  lemma ParseDecimalDigits(d: string)
    requires |d| > 0 && AllDigits(d)
    ensures ParseUnsigned(d) == Some(RadixValue(d, 10))
  {
    assert !(|d| >= 2 && d[0] == '0' && (d[1] == 'x' || d[1] == 'X')) by {
      assert |d| >= 2 ==> IsDigit(d[1]);
    }
    var k := RadixPrefix(d, 10);
    assert forall i :: 0 <= i < |d| ==> IsRadixDigit(d[i], 10);
    assert k == |d|;
    assert d[..k] == d;
  }

  /** A decimal numeral parses to its value. */
  lemma ParseIntDecimal(d: string)
    requires |d| > 0 && AllDigits(d)
    ensures ParseInt(d) == Some(RadixValue(d, 10) as int)
  {
    assert IsDigit(d[0]);
    NothingToTrim(d);
    ParseDecimalDigits(d);
    assert ParseSigned(d) == Some(RadixValue(d, 10) as int);
  }

  /** A minus sign followed by a decimal numeral parses to the negated value. */
  lemma ParseIntNegative(s: string)
    requires |s| > 1 && s[0] == '-' && AllDigits(s[1..])
    ensures ParseInt(s) == Some(-(RadixValue(s[1..], 10) as int))
  {
    NothingToTrim(s);
    ParseDecimalDigits(s[1..]);
  }

  lemma NothingToTrim(s: string)
    requires |s| > 0 && !IsSpace(s[0])
    ensures TrimStart(s) == s
    ensures ParseInt(s) == ParseSigned(s)
  {
  }
}
