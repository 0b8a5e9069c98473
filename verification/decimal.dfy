/** Decimal numerals: how Rust's `{}` formats an unsigned integer, and a reader for
    the digits of such a numeral on the wire. */
module Decimal {

  import opened Optional
  import opened Utf8

  /** The ASCII digit for `d`. */
  function DigitChar(d: nat): (c: char)
    requires d < 10
    ensures '0' <= c <= '9'
  {
    (48 + d) as char
  }

  /** The shortest decimal numeral of `n`: digits only, no sign, no leading zero. */
  function Format(n: nat): (r: string)
    ensures |r| >= 1
    ensures forall i | 0 <= i < |r| :: '0' <= r[i] <= '9'
    ensures |r| > 1 ==> r[0] != '0'
    ensures n < 10 <==> |r| == 1
  {
    if n < 10 then [DigitChar(n)] else Format(n / 10) + [DigitChar(n % 10)]
  }

  predicate IsDigit(b: byte) {
    48 <= b < 58
  }

  /** The length of the longest prefix of `b` made of ASCII digits. */
  function DigitRun(b: seq<byte>): (r: nat)
    ensures r <= |b|
    ensures forall i | 0 <= i < r :: IsDigit(b[i])
    ensures r < |b| ==> !IsDigit(b[r])
    decreases |b|
  {
    if b == [] || !IsDigit(b[0]) then 0 else 1 + DigitRun(b[1..])
  }

  /** The number that a run of ASCII digits denotes. */
  function DigitsValue(b: seq<byte>): nat
    requires forall i | 0 <= i < |b| :: IsDigit(b[i])
    decreases |b|
  {
    if b == [] then 0
    else
      assert IsDigit(b[|b| - 1]);
      DigitsValue(b[..|b| - 1]) * 10 + (b[|b| - 1] - 48)
  }

  /** Reads the numeral at the start of `b`: its value and how many bytes it takes;
      None when `b` does not start with a digit. */
  function ReadNumber(b: seq<byte>): Option<(nat, nat)>
  {
    var k := DigitRun(b);
    if k == 0 then None else Some((DigitsValue(b[..k]), k))
  }

  /** A formatted numeral is ASCII, so its bytes are its characters. */
  lemma FormatAscii(n: nat)
    ensures IsAscii(Format(n))
    ensures |Encode(Format(n))| == |Format(n)|
    ensures forall i | 0 <= i < |Format(n)| :: IsDigit(Encode(Format(n))[i])
  {
    EncodeAscii(Format(n));
  }

  /** The digits of a formatted numeral denote the number that was formatted. */
  lemma {:induction false} FormatValue(n: nat)
    ensures forall i | 0 <= i < |Encode(Format(n))| :: IsDigit(Encode(Format(n))[i])
    ensures DigitsValue(Encode(Format(n))) == n
    decreases n
  {
    FormatAscii(n);
    if n >= 10 {
      var d := [DigitChar(n % 10)];
      var e := Encode(Format(n / 10));
      EncodeConcat(Format(n / 10), d);
      assert Encode(d) == [48 + n % 10];
      FormatValue(n / 10);
      var b := e + [48 + n % 10];
      assert b[..|b| - 1] == e;
    }
  }

  /** Reading back a formatted numeral that is followed by a non-digit (or by nothing)
      gives the number and the length of the numeral. */
  lemma ReadFormat(n: nat, rest: seq<byte>)
    requires rest == [] || !IsDigit(rest[0])
    ensures ReadNumber(Encode(Format(n)) + rest) == Some((n, |Format(n)|))
  {
    var e := Encode(Format(n));
    FormatAscii(n);
    FormatValue(n);
    var b := e + rest;
    DigitRunOf(e, rest);
    assert b[..|e|] == e;
  }

  /** A run of digits followed by a non-digit is read up to that non-digit. */
  lemma {:induction false} DigitRunOf(a: seq<byte>, rest: seq<byte>)
    requires forall i | 0 <= i < |a| :: IsDigit(a[i])
    requires rest == [] || !IsDigit(rest[0])
    ensures DigitRun(a + rest) == |a|
    decreases |a|
  {
    if a == [] {
      assert a + rest == rest;
    } else {
      assert (a + rest)[0] == a[0];
      assert (a + rest)[1..] == a[1..] + rest;
      DigitRunOf(a[1..], rest);
    }
  }

}
