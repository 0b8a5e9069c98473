/** The UTF-8 byte representation of a Rust `String`. `String::len` is the number
    of bytes of this representation, and `as_bytes` is what goes onto the wire. */
module Utf8 {

  import opened Optional

  type byte = x: int | 0 <= x < 256

  /** The continuation bytes 0x80..0xBF. */
  predicate IsContinuation(b: byte) {
    0x80 <= b < 0xC0
  }

  /** The encoding of one Unicode scalar value: 1 to 4 bytes, a single byte exactly
      for ASCII, and only bytes of 0x80 or more otherwise. */
  function EncodeChar(c: char): (r: seq<byte>)
    ensures 1 <= |r| <= 4
    ensures |r| == 1 <==> (c as int) < 0x80
    ensures |r| == 1 ==> r[0] == c as int
    ensures |r| > 1 ==> forall i | 0 <= i < |r| :: r[i] >= 0x80
  {
    var n := c as int;
    if n < 0x80 then [n]
    else if n < 0x800 then [0xC0 + n / 64, 0x80 + n % 64]
    else if n < 0x1_0000 then [0xE0 + n / 4096, 0x80 + (n / 64) % 64, 0x80 + n % 64]
    else [0xF0 + n / 262144, 0x80 + (n / 4096) % 64, 0x80 + (n / 64) % 64, 0x80 + n % 64]
  }

  /** The bytes of a string, character after character. */
  function Encode(s: string): seq<byte>
  {
    if s == [] then [] else EncodeChar(s[0]) + Encode(s[1..])
  }

  /** The byte length of a string, which is what Rust's `String::len` returns. */
  function ByteLength(s: string): nat
  {
    |Encode(s)|
  }

  /** The scalar value held by a well-formed encoding at the start of `b`, with the
      number of bytes it takes; None on a truncated, overlong or otherwise invalid
      sequence. */
  function DecodeChar(b: seq<byte>): (r: Option<(char, nat)>)
    ensures r.Some? ==> 1 <= r.value.1 <= |b| && r.value.1 <= 4
  {
    if b == [] then None
    else if b[0] < 0x80 then Some((b[0] as char, 1))
    else if 0xC0 <= b[0] < 0xE0 then
      if |b| < 2 || !IsContinuation(b[1]) then None
      else
        var n := (b[0] as int - 0xC0) * 64 + (b[1] as int - 0x80);
        if n < 0x80 then None else Some((n as char, 2))
    else if 0xE0 <= b[0] < 0xF0 then
      if |b| < 3 || !IsContinuation(b[1]) || !IsContinuation(b[2]) then None
      else
        var n := (b[0] as int - 0xE0) * 4096 + (b[1] as int - 0x80) * 64 + (b[2] as int - 0x80);
        if n < 0x800 || 0xD800 <= n < 0xE000 then None else Some((n as char, 3))
    else if 0xF0 <= b[0] < 0xF8 then
      if |b| < 4 || !IsContinuation(b[1]) || !IsContinuation(b[2]) || !IsContinuation(b[3]) then None
      else
        var n := (b[0] as int - 0xF0) * 262144 + (b[1] as int - 0x80) * 4096
          + (b[2] as int - 0x80) * 64 + (b[3] as int - 0x80);
        if n < 0x1_0000 || n > 0x10_FFFF then None else Some((n as char, 4))
    else None
  }

  /** The string whose encoding `b` is, or None if `b` is not well-formed UTF-8. */
  function Decode(b: seq<byte>): Option<string>
    decreases |b|
  {
    if b == [] then Some([])
    else match DecodeChar(b)
      case None => None
      case Some((c, k)) =>
        match Decode(b[k..])
        case None => None
        case Some(s) => Some([c] + s)
  }

  /** The string consists of ASCII characters only. */
  predicate IsAscii(s: string) {
    forall i | 0 <= i < |s| :: (s[i] as int) < 0x80
  }

  /** Decoding the first character of an encoding gives that character back. */
  lemma DecodeEncodeChar(c: char, rest: seq<byte>)
    ensures DecodeChar(EncodeChar(c) + rest) == Some((c, |EncodeChar(c)|))
  {
    var n := c as int;
    var b := EncodeChar(c) + rest;
    if n < 0x80 {
    } else if n < 0x800 {
      DecodeTwo(n, b);
    } else if n < 0x1_0000 {
      DecodeThree(n, b);
    } else {
      DecodeFour(n, b);
    }
  }

  lemma DecodeTwo(n: int, b: seq<byte>)
    requires 0x80 <= n < 0x800
    requires |b| >= 2 && b[0] == 0xC0 + n / 64 && b[1] == 0x80 + n % 64
    ensures DecodeChar(b) == Some((n as char, 2))
  {
    var hi, lo := n / 64, n % 64;
    assert hi * 64 + lo == n;
    assert (b[0] as int - 0xC0) * 64 + (b[1] as int - 0x80) == n;
  }

  lemma DecodeThree(n: int, b: seq<byte>)
    requires 0x800 <= n < 0x1_0000 && !(0xD800 <= n < 0xE000)
    requires |b| >= 3 && b[0] == 0xE0 + n / 4096
    requires b[1] == 0x80 + (n / 64) % 64 && b[2] == 0x80 + n % 64
    ensures DecodeChar(b) == Some((n as char, 3))
  {
    var q := n / 64;
    assert q * 64 + n % 64 == n;
    assert (q / 64) * 64 + q % 64 == q;
    assert q / 64 == n / 4096;
    assert (b[0] as int - 0xE0) * 4096 + (b[1] as int - 0x80) * 64 + (b[2] as int - 0x80) == n;
  }

  lemma DecodeFour(n: int, b: seq<byte>)
    requires 0x1_0000 <= n <= 0x10_FFFF
    requires |b| >= 4 && b[0] == 0xF0 + n / 262144 && b[1] == 0x80 + (n / 4096) % 64
    requires b[2] == 0x80 + (n / 64) % 64 && b[3] == 0x80 + n % 64
    ensures DecodeChar(b) == Some((n as char, 4))
  {
    var q := n / 64;
    var p := q / 64;
    assert q * 64 + n % 64 == n;
    assert p * 64 + q % 64 == q;
    assert (p / 64) * 64 + p % 64 == p;
    assert p == n / 4096;
    assert p / 64 == n / 262144;
    assert (b[0] as int - 0xF0) * 262144 + (b[1] as int - 0x80) * 4096
      + (b[2] as int - 0x80) * 64 + (b[3] as int - 0x80) == n;
  }

  /** Encoding distributes over concatenation. */
  lemma {:induction false} EncodeConcat(a: string, b: string)
    ensures Encode(a + b) == Encode(a) + Encode(b)
    decreases |a|
  {
    if a != [] {
      assert (a + b)[1..] == a[1..] + b;
      EncodeConcat(a[1..], b);
    } else {
      assert a + b == b;
    }
  }

  /** Decoding undoes encoding: the bytes of a string determine the string. */
  lemma {:induction false} DecodeEncode(s: string)
    ensures Decode(Encode(s)) == Some(s)
    decreases |s|
  {
    if s != [] {
      var e := EncodeChar(s[0]);
      DecodeEncodeChar(s[0], Encode(s[1..]));
      assert (e + Encode(s[1..]))[|e|..] == Encode(s[1..]);
      DecodeEncode(s[1..]);
      assert [s[0]] + s[1..] == s;
    }
  }

  /** An ASCII string is encoded one byte per character, each byte its code point. */
  lemma {:induction false} EncodeAscii(s: string)
    requires IsAscii(s)
    ensures |Encode(s)| == |s|
    ensures forall i | 0 <= i < |s| :: Encode(s)[i] == s[i] as int
    decreases |s|
  {
    if s != [] {
      EncodeAscii(s[1..]);
      assert Encode(s) == [s[0] as int] + Encode(s[1..]);
    }
  }

  /** An ASCII character that a string does not contain has no byte in its encoding. */
  lemma {:induction false} EncodeAvoids(s: string, c: char)
    requires (c as int) < 0x80
    requires c !in s
    ensures (c as int) !in Encode(s)
    decreases |s|
  {
    if s != [] {
      assert s == [s[0]] + s[1..];
      EncodeAvoids(s[1..], c);
    }
  }

}
