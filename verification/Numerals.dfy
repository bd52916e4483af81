/** Decimal numerals: `str(n)` for an integer, and Python's `int(text)`. */
module Numerals {

  datatype Option<+T> = None | Some(value: T)

  predicate IsDigit(c: char) { '0' <= c <= '9' }

  predicate AllDigits(s: string) { forall i | 0 <= i < |s| :: IsDigit(s[i]) }

  function DigitChar(d: nat): (c: char)
    requires d < 10
    ensures IsDigit(c) && DigitValue(c) == d
  {
    ('0' as int + d) as char
  }

  function DigitValue(c: char): (d: nat)
    requires IsDigit(c)
    ensures d < 10
  {
    c as int - '0' as int
  }

  function Decimal(n: nat): (s: string)
    ensures s != [] && AllDigits(s)
  {
    if n < 10 then [DigitChar(n)] else Decimal(n / 10) + [DigitChar(n % 10)]
  }

  function ValueOf(s: string): nat
    requires AllDigits(s)
  {
    if s == [] then 0 else 10 * ValueOf(s[..|s| - 1]) + DigitValue(s[|s| - 1])
  }

  lemma {:induction false} DecimalValue(n: nat)
    ensures ValueOf(Decimal(n)) == n
  {
    if n >= 10 {
      DecimalValue(n / 10);
      var s := Decimal(n);
      assert s[..|s| - 1] == Decimal(n / 10);
    } else {
      assert Decimal(n)[..0] == [];
    }
  }

  lemma DecimalInjective(a: nat, b: nat)
    requires Decimal(a) == Decimal(b)
    ensures a == b
  {
    DecimalValue(a);
    DecimalValue(b);
  }

  /** Numbers below 10^k print in at most k digits. */
  lemma {:induction false} DecimalLength(n: nat, k: nat)
    requires 1 <= k && n < Power10(k)
    ensures |Decimal(n)| <= k
  {
    if n >= 10 {
      assert k >= 2;
      DecimalLength(n / 10, k - 1);
    }
  }

  function Power10(k: nat): nat { if k == 0 then 1 else 10 * Power10(k - 1) }

  // ----- int(text) -----

  /** `str.isspace` on ASCII. */
  predicate IsSpace(c: char) { 9 <= c as int <= 13 || 28 <= c as int <= 32 }

  function StripLeft(s: string): string {
    if s != [] && IsSpace(s[0]) then StripLeft(s[1..]) else s
  }

  function StripRight(s: string): string {
    if s != [] && IsSpace(s[|s| - 1]) then StripRight(s[..|s| - 1]) else s
  }

  function Strip(s: string): string { StripRight(StripLeft(s)) }

  /** The digits of an int literal body: groups of digits joined by single underscores. */
  function DigitGroups(s: string): Option<string> {
    if s == [] || !IsDigit(s[0]) then None
    else if |s| == 1 then Some(s)
    else
      var rest := if s[1] == '_' then DigitGroups(s[2..]) else DigitGroups(s[1..]);
      if rest.None? then None else Some([s[0]] + rest.value)
  }

  lemma DigitGroupsAreDigits(s: string)
    ensures DigitGroups(s).Some? ==> AllDigits(DigitGroups(s).value)
  {
  }

  /** Python's `int(text)` on ASCII text; None where it raises ValueError. */
  function ParseInt(s: string): Option<int> {
    var t := Strip(s);
    var signed := t != [] && (t[0] == '-' || t[0] == '+');
    var body := DigitGroups(if signed then t[1..] else t);
    DigitGroupsAreDigits(if signed then t[1..] else t);
    if body.None? then None
    else
      var magnitude: int := ValueOf(body.value);
      Some(if signed && t[0] == '-' then -magnitude else magnitude)
  }

  lemma {:induction false} PlainDigitGroups(s: string)
    requires s != [] && AllDigits(s)
    ensures DigitGroups(s) == Some(s)
  {
    if |s| > 1 {
      assert IsDigit(s[1]) && AllDigits(s[1..]);
      PlainDigitGroups(s[1..]);
      assert s == [s[0]] + s[1..];
    }
  }

  lemma {:induction false} StripRightSpaces(s: string, pad: string)
    requires s != [] && !IsSpace(s[|s| - 1]) && forall i | 0 <= i < |pad| :: IsSpace(pad[i])
    ensures StripRight(s + pad) == s
  {
    if pad == [] {
      assert s + pad == s;
    } else {
      assert (s + pad)[..|s + pad| - 1] == s + pad[..|pad| - 1];
      StripRightSpaces(s, pad[..|pad| - 1]);
    }
  }

  /** `s` padded on the right with white space strips back to `s`. */
  lemma StripPadded(s: string, pad: string)
    requires s != [] ==> !IsSpace(s[0]) && !IsSpace(s[|s| - 1])
    requires forall i | 0 <= i < |pad| :: IsSpace(pad[i])
    ensures Strip(s + pad) == s
  {
    if s == [] {
      assert s + pad == pad;
      StripAllSpaces(pad);
    } else {
      assert (s + pad)[0] == s[0];
      StripRightSpaces(s, pad);
    }
  }

  lemma {:induction false} StripAllSpaces(pad: string)
    requires forall i | 0 <= i < |pad| :: IsSpace(pad[i])
    ensures StripLeft(pad) == []
  {
    if pad != [] { StripAllSpaces(pad[1..]); }
  }

  /** `int(str(n))` with padding around it is `n`. */
  lemma ParsePaddedDecimal(n: nat, pad: string)
    requires forall i | 0 <= i < |pad| :: IsSpace(pad[i])
    ensures ParseInt(Decimal(n) + pad) == Some(n)
  {
    var s := Decimal(n);
    assert IsDigit(s[0]) && IsDigit(s[|s| - 1]);
    StripPadded(s, pad);
    PlainDigitGroups(s);
    DecimalValue(n);
  }
}
