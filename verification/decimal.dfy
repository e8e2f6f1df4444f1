/**
 * Decimal rendering of integers, as a JavaScript template literal renders an
 * integral number (`${n}`): an optional minus sign followed by the digits of
 * the magnitude, without leading zeros. The matching reader recovers the
 * number, which is what makes the rendered messages and filter arguments
 * faithful carriers of the values they report.
 */
module Decimal {
  import opened Results

  predicate IsDigit(c: char) {
    '0' <= c <= '9'
  }

  predicate AllDigits(s: string) {
    forall i :: 0 <= i < |s| ==> IsDigit(s[i])
  }

  function DigitChar(d: nat): (c: char)
    requires d < 10
    ensures IsDigit(c)
  {
    ('0' as int + d) as char
  }

  function DigitValue(c: char): (d: nat)
    requires IsDigit(c)
    ensures d < 10
    ensures DigitChar(d) == c
  {
    c as int - '0' as int
  }

  /** The canonical decimal digits of `n`. */
  function NatToString(n: nat): (s: string)
    ensures |s| > 0 && AllDigits(s)
    ensures n > 0 ==> s[0] != '0'
  {
    if n < 10 then [DigitChar(n)] else NatToString(n / 10) + [DigitChar(n % 10)]
  }

  /** The number a string of decimal digits denotes (most significant digit first). */
  function DigitsValue(s: string): nat
    requires AllDigits(s)
  {
    if s == [] then 0 else DigitsValue(s[..|s| - 1]) * 10 + DigitValue(s[|s| - 1])
  }

  /** `n` rendered with a leading minus sign when it is negative. */
  function IntToString(n: int): (s: string)
    ensures |s| > 0
    ensures n < 0 <==> s[0] == '-'
    ensures AllDigits(s[1..])
  {
    if n < 0 then "-" + NatToString(-n) else NatToString(n)
  }

  /** The length of the longest prefix of `s` made of digits. */
  function DigitRun(s: string): (k: nat)
    ensures k <= |s|
    ensures AllDigits(s[..k])
    ensures k < |s| ==> !IsDigit(s[k])
  {
    if s == [] || !IsDigit(s[0]) then 0
    else
      var k := 1 + DigitRun(s[1..]);
      assert forall i :: 1 <= i < k ==> s[..k][i] == s[1..][..k - 1][i - 1];
      k
  }

  /** True when `rest` cannot extend a number written just before it. */
  predicate Stops(rest: string) {
    rest == [] || !IsDigit(rest[0])
  }

  /** Reads a natural number from the front of `s`; fails when `s` does not start with a digit. */
  function ReadNat(s: string): (r: Option<(nat, string)>)
    ensures r.Some? <==> |s| > 0 && IsDigit(s[0])
    ensures r.Some? ==> |r.value.1| < |s| && s[|s| - |r.value.1|..] == r.value.1
    ensures r.Some? ==> Stops(r.value.1)
  {
    var k := DigitRun(s);
    if k == 0 then None else Some((DigitsValue(s[..k]), s[k..]))
  }

  /** Reads an integer, with an optional leading minus sign, from the front of `s`. */
  function ReadInt(s: string): (r: Option<(int, string)>)
    ensures r.Some? ==> |r.value.1| < |s| && s[|s| - |r.value.1|..] == r.value.1
    ensures r.Some? ==> Stops(r.value.1)
  {
    if |s| > 0 && s[0] == '-' then
      match ReadNat(s[1..])
      case None => None
      case Some((m, rest)) => Some((-(m as int), rest))
    else
      ReadNat(s)
  }

  /** Consumes the literal `lit` from the front of `s`. */
  function ReadLit(lit: string, s: string): (r: Option<string>)
    ensures r.Some? <==> lit <= s
    ensures r.Some? ==> s == lit + r.value
  {
    if lit <= s then Some(s[|lit|..]) else None
  }

  lemma {:induction false} NatToStringValue(n: nat)
    ensures DigitsValue(NatToString(n)) == n
  {
    if n >= 10 {
      var s := NatToString(n);
      assert s[..|s| - 1] == NatToString(n / 10);
      NatToStringValue(n / 10);
    }
  }

  lemma {:induction false} DigitRunOfDigits(d: string, rest: string)
    requires AllDigits(d) && Stops(rest)
    ensures DigitRun(d + rest) == |d|
  {
    if d != [] {
      assert (d + rest)[1..] == d[1..] + rest;
      DigitRunOfDigits(d[1..], rest);
    } else {
      assert d + rest == rest;
    }
  }

  /** Reading back a rendered natural number yields the number and leaves the rest untouched. */
  lemma ReadNatRoundTrip(n: nat, rest: string)
    requires Stops(rest)
    ensures ReadNat(NatToString(n) + rest) == Some((n, rest))
  {
    var d := NatToString(n);
    DigitRunOfDigits(d, rest);
    assert (d + rest)[..|d|] == d;
    assert (d + rest)[|d|..] == rest;
    NatToStringValue(n);
  }

  /** Reading back a rendered integer yields the integer and leaves the rest untouched. */
  lemma ReadIntRoundTrip(n: int, rest: string)
    requires Stops(rest)
    ensures ReadInt(IntToString(n) + rest) == Some((n, rest))
  {
    if n < 0 {
      var d := NatToString(-n);
      var s := "-" + d + rest;
      assert IntToString(n) + rest == s;
      assert s[1..] == d + rest;
      ReadNatRoundTrip(-n, rest);
    } else {
      var d := NatToString(n);
      assert IntToString(n) + rest == d + rest;
      assert (d + rest)[0] == d[0];
      ReadNatRoundTrip(n, rest);
    }
  }

  lemma ReadLitRoundTrip(lit: string, rest: string)
    ensures ReadLit(lit, lit + rest) == Some(rest)
  {
    assert (lit + rest)[..|lit|] == lit;
    assert (lit + rest)[|lit|..] == rest;
  }

  /**
   * Separators of a template: each but the last is non-empty and starts with a
   * non-digit, so it ends the number written before it; the last may be empty.
   */
  predicate Separating(seps: seq<string>) {
    && (forall i :: 0 <= i < |seps| - 1 ==> |seps[i]| > 0)
    && (forall i :: 0 <= i < |seps| ==> Stops(seps[i]))
  }

  /** The numbers `ns`, each followed by its separator, as a template literal renders them. */
  function RenderFields(ns: seq<int>, seps: seq<string>): string
    requires |ns| == |seps|
  {
    if ns == [] then "" else IntToString(ns[0]) + seps[0] + RenderFields(ns[1..], seps[1..])
  }

  /** Reads an integer followed by the separator `sep`. */
  function ReadField(s: string, sep: string): (r: Option<(int, string)>)
    ensures r.Some? ==> |r.value.1| < |s|
  {
    var p :- ReadInt(s);
    var rest :- ReadLit(sep, p.1);
    Some((p.0, rest))
  }

  /** Reads one number per separator and requires the whole of `s` to be consumed. */
  function ReadFields(s: string, seps: seq<string>): (r: Option<seq<int>>)
    ensures r.Some? ==> |r.value| == |seps|
    decreases seps
  {
    if seps == [] then
      if s == [] then Some([]) else None
    else
      var p :- ReadField(s, seps[0]);
      var tail :- ReadFields(p.1, seps[1..]);
      Some([p.0] + tail)
  }

  lemma ReadFieldRoundTrip(n: int, sep: string, rest: string)
    requires Stops(sep + rest)
    ensures ReadField(IntToString(n) + sep + rest, sep) == Some((n, rest))
  {
    assert IntToString(n) + sep + rest == IntToString(n) + (sep + rest);
    ReadIntRoundTrip(n, sep + rest);
    ReadLitRoundTrip(sep, rest);
  }

  /** Reading a rendered template with the same separators recovers every number. */
  lemma {:induction false} FieldsRoundTrip(ns: seq<int>, seps: seq<string>)
    requires |ns| == |seps| && Separating(seps)
    ensures ReadFields(RenderFields(ns, seps), seps) == Some(ns)
  {
    if ns != [] {
      var rest := RenderFields(ns[1..], seps[1..]);
      assert Separating(seps[1..]) by {
        forall i | 0 <= i < |seps[1..]| ensures Stops(seps[1..][i]) {
          assert seps[1..][i] == seps[i + 1];
        }
      }
      if |seps| > 1 {
        assert (seps[0] + rest)[0] == seps[0][0];
      } else {
        assert seps[0] + rest == seps[0];
      }
      ReadFieldRoundTrip(ns[0], seps[0], rest);
      FieldsRoundTrip(ns[1..], seps[1..]);
      assert [ns[0]] + ns[1..] == ns;
    }
  }
}
