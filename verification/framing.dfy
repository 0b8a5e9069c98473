/** Response framing: the text that `format!` builds from a handler's response,
    the bytes written for it, and a reader that takes such bytes apart again the
    way an HTTP client does (split at the first blank line, read Content-Length,
    take that many body bytes). */
module Framing {

  import opened Optional
  import opened Utf8
  import opened Decimal
  import opened Render

  const StatusLineStart: string := "HTTP/1.1 "
  const CRLF: string := "\r\n"
  const LengthName: string := "Content-Length: "
  const TypeName: string := "Content-Type: "

  /** The response text: a status line with the bare numeric code, a Content-Length
      header holding the byte length of the body, a Content-Type header, a blank
      line and the body. */
  function FormatResponse(r: Response): string
  {
    StatusLineStart + Format(r.status) + CRLF
    + LengthName + Format(ByteLength(r.body)) + CRLF
    + TypeName + r.contentType + CRLF
    + CRLF + r.body
  }

  /** The bytes written to the stream for a response. */
  function Wire(r: Response): seq<byte>
  {
    Encode(FormatResponse(r))
  }

  /** CR LF CR LF, the end of the header block. */
  const Blank: seq<byte> := [13, 10, 13, 10]

  /** A blank line (CR LF CR LF) starts at position `j` of `w`. */
  predicate BlankAt(w: seq<byte>, j: nat) {
    j + 4 <= |w| && w[j] == 13 && w[j + 1] == 10 && w[j + 2] == 13 && w[j + 3] == 10
  }

  /** The position of the first blank line in `w`, if any. */
  function FindBlank(w: seq<byte>): (r: Option<nat>)
    ensures r.Some? ==> BlankAt(w, r.value)
    ensures r.Some? ==> forall j: nat | j < r.value :: !BlankAt(w, j)
    ensures r.None? ==> forall j: nat :: !BlankAt(w, j)
    decreases |w|
  {
    if |w| < 4 then None
    else if BlankAt(w, 0) then Some(0)
    else
      var r := FindBlank(w[1..]);
      assert forall j: nat | 1 <= j :: BlankAt(w, j) == BlankAt(w[1..], j - 1);
      if r.None? then None else Some(r.value + 1)
  }

  /** A response as a client reads it off the wire. */
  datatype WireResponse = WireResponse(status: nat, contentType: seq<byte>, body: seq<byte>)

  /** Reads a numeral at the start of `h` that is followed by `field`: the number and
      what follows the field. */
  function ReadNumberThen(h: seq<byte>, field: seq<byte>): Option<(nat, seq<byte>)>
  {
    match ReadNumber(h)
    case None => None
    case Some((n, k)) =>
      if field <= h[k..] then Some((n, h[k + |field|..])) else None
  }

  /** Reads a header block laid out as `start`, a numeral, `lengthField`, a numeral,
      `typeField` and the content type. */
  function ReadHeadWith(h: seq<byte>, start: seq<byte>, lengthField: seq<byte>, typeField: seq<byte>)
    : Option<(nat, nat, seq<byte>)>
  {
    if !(start <= h) then None
    else
      match ReadNumberThen(h[|start|..], lengthField)
      case None => None
      case Some((status, rest)) =>
        match ReadNumberThen(rest, typeField)
        case None => None
        case Some((len, ct)) => Some((status, len, ct))
  }

  /** Reads the header block (everything before the blank line): the status code,
      the Content-Length value and the Content-Type bytes. */
  function ReadHead(h: seq<byte>): Option<(nat, nat, seq<byte>)>
  {
    ReadHeadWith(h, StatusLineBytes, [13, 10] + LengthNameBytes, [13, 10] + TypeNameBytes)
  }

  /** The bytes the reader expects: `HTTP/1.1 `, `Content-Length: ` and `Content-Type: `. */
  const StatusLineBytes: seq<byte> := [72, 84, 84, 80, 47, 49, 46, 49, 32]
  const LengthNameBytes: seq<byte> := [67, 111, 110, 116, 101, 110, 116, 45, 76, 101, 110, 103, 116, 104, 58, 32]
  const TypeNameBytes: seq<byte> := [67, 111, 110, 116, 101, 110, 116, 45, 84, 121, 112, 101, 58, 32]

  /** The reader's constants hold no CR and are not empty. */
  lemma ConstantsFree()
    ensures 13 !in StatusLineBytes && 13 !in LengthNameBytes && 13 !in TypeNameBytes
    ensures LengthNameBytes != [] && TypeNameBytes != []
  {
  }

  /** An ASCII string is encoded as the bytes of its character codes. */
  lemma AsciiBytes(s: string, bytes: seq<byte>)
    requires |bytes| == |s|
    requires forall i | 0 <= i < |s| :: (s[i] as int) < 0x80 && bytes[i] == s[i] as int
    ensures Encode(s) == bytes
  {
    EncodeAscii(s);
  }

  /** The fixed pieces of the framing, as bytes: the reader's constants are the UTF-8
      bytes of the strings the server formats. */
  lemma PieceBytes()
    ensures Encode(StatusLineStart) == StatusLineBytes
    ensures Encode(CRLF + LengthName) == [13, 10] + LengthNameBytes
    ensures Encode(CRLF + TypeName) == [13, 10] + TypeNameBytes
    ensures Encode(CRLF + CRLF) == Blank
  {
    StatusBytes();
    LengthBytes();
    TypeBytes();
    FixedBytes();
  }

  lemma StatusBytes()
    ensures Encode(StatusLineStart) == StatusLineBytes
  {
    AsciiBytes(StatusLineStart, StatusLineBytes);
  }

  lemma LengthBytes()
    ensures Encode(CRLF + LengthName) == [13, 10] + LengthNameBytes
  {
    AsciiBytes(CRLF + LengthName, [13, 10] + LengthNameBytes);
  }

  lemma TypeBytes()
    ensures Encode(CRLF + TypeName) == [13, 10] + TypeNameBytes
  {
    AsciiBytes(CRLF + TypeName, [13, 10] + TypeNameBytes);
  }

  /** Reads a response: splits at the first blank line, reads the header block and
      takes Content-Length bytes after the blank line as the body. */
  function ReadResponse(w: seq<byte>): Option<WireResponse>
  {
    match FindBlank(w)
    case None => None
    case Some(k) => TakeBody(ReadHead(w[..k]), w[k + 4..])
  }

  /** Given what the header block reads as, takes Content-Length bytes of what follows
      the blank line as the body; None if the header block is unreadable or the
      bytes are too few. */
  function TakeBody(head: Option<(nat, nat, seq<byte>)>, rest: seq<byte>): Option<WireResponse>
  {
    match head
    case None => None
    case Some((status, len, ct)) =>
      if len > |rest| then None else Some(WireResponse(status, ct, rest[..len]))
  }

  /** A header field as it is framed: CR LF and then the field name, whose bytes hold
      no CR and start with the name's first (ASCII) character. */
  lemma FieldBytes(name: string)
    requires name != [] && (name[0] as int) < 0x80 && '\r' !in name
    ensures Encode(CRLF + name) == [13, 10] + Encode(name)
    ensures 13 !in Encode(name)
    ensures Encode(name) != [] && Encode(name)[0] == name[0] as int
  {
    EncodeConcat(CRLF, name);
    assert Encode(CRLF) == [13, 10];
    EncodeAvoids(name, '\r');
    assert Encode(name) == EncodeChar(name[0]) + Encode(name[1..]);
  }

  /** The bytes of the blank line. */
  lemma FixedBytes()
    ensures Encode(CRLF + CRLF) == Blank
  {
    assert Encode(CRLF) == [13, 10];
    EncodeConcat(CRLF, CRLF);
  }

  /** The layout of the bytes of a framed response, piece by piece. */
  lemma WireLayout(r: Response)
    ensures Wire(r) == Encode(StatusLineStart) + Encode(Format(r.status)) + Encode(CRLF + LengthName)
                     + Encode(Format(ByteLength(r.body))) + Encode(CRLF + TypeName) + Encode(r.contentType)
                     + Encode(CRLF + CRLF) + Encode(r.body)
  {
    var s0, s1, s2 := StatusLineStart, Format(r.status), CRLF + LengthName;
    var s3, s4, s5 := Format(ByteLength(r.body)), CRLF + TypeName, r.contentType;
    var s6, s7 := CRLF + CRLF, r.body;
    assert FormatResponse(r) == s0 + s1 + s2 + s3 + s4 + s5 + s6 + s7;
    EncodeConcat(s0 + s1 + s2 + s3 + s4 + s5 + s6, s7);
    EncodeConcat(s0 + s1 + s2 + s3 + s4 + s5, s6);
    EncodeConcat(s0 + s1 + s2 + s3 + s4, s5);
    EncodeConcat(s0 + s1 + s2 + s3, s4);
    EncodeConcat(s0 + s1 + s2, s3);
    EncodeConcat(s0 + s1, s2);
    EncodeConcat(s0, s1);
  }

  /** The only blank line in a header block whose CR bytes each start a header line
      is the one that ends it. */
  lemma {:induction false} BlankEndsHeader(a: seq<byte>, l: seq<byte>, t: seq<byte>, b: seq<byte>)
    requires 13 !in a && 13 !in l && 13 !in t
    requires l != [] && t != []
    ensures FindBlank(a + [13, 10] + l + [13, 10] + t + Blank + b) == Some(|a| + |l| + |t| + 4)
  {
    var w := a + [13, 10] + l + [13, 10] + t + Blank + b;
    var p1 := |a|;
    var p2 := |a| + 2 + |l|;
    var h := p2 + 2 + |t|;
    assert BlankAt(w, h);
    forall j: nat | j < h
      ensures !BlankAt(w, j)
    {
      if j < p1 {
        assert w[j] == a[j];
      } else if j == p1 {
        assert w[j + 2] == l[0];
      } else if j == p1 + 1 {
        assert w[j] == 10;
      } else if j < p2 {
        assert w[j] == l[j - p1 - 2];
      } else if j == p2 {
        assert w[j + 2] == t[0];
      } else if j == p2 + 1 {
        assert w[j] == 10;
      } else {
        assert w[j] == t[j - p2 - 2];
      }
    }
  }

  /** A formatted numeral followed by a field that starts with a non-digit reads back
      as the number, with the text after the field left over. */
  lemma NumberThenFormat(n: nat, field: seq<byte>, rest: seq<byte>)
    requires field != [] && !IsDigit(field[0])
    ensures ReadNumberThen(Encode(Format(n)) + (field + rest), field) == Some((n, rest))
  {
    var f := Encode(Format(n));
    FormatAscii(n);
    ReadFormat(n, field + rest);
    NumberThen(f, n, field, rest);
  }

  /** A numeral `f` that reads as `n` and is followed by `field` leaves what comes
      after the field. */
  lemma NumberThen(f: seq<byte>, n: nat, field: seq<byte>, rest: seq<byte>)
    requires ReadNumber(f + (field + rest)) == Some((n, |f|))
    ensures ReadNumberThen(f + (field + rest), field) == Some((n, rest))
  {
    var h := f + (field + rest);
    assert h[|f|..] == field + rest;
    assert h[|f| + |field|..] == rest;
  }

  /** Reading a header block of numerals between fields that start with a non-digit
      gives back the two numbers and the content type. */
  lemma ReadHeadWithFormat(start: seq<byte>, lf: seq<byte>, tf: seq<byte>, status: nat, len: nat, c: seq<byte>)
    requires lf != [] && !IsDigit(lf[0]) && tf != [] && !IsDigit(tf[0])
    ensures ReadHeadWith(start + (Encode(Format(status)) + (lf + (Encode(Format(len)) + (tf + c)))), start, lf, tf)
         == Some((status, len, c))
  {
    var rest := Encode(Format(len)) + (tf + c);
    var h1 := Encode(Format(status)) + (lf + rest);
    var h := start + h1;
    assert h[|start|..] == h1;
    NumberThenFormat(status, lf, rest);
    NumberThenFormat(len, tf, c);
  }

  /** Reading the header block of a framed response gives back the status code, the
      Content-Length value and the content type. */
  lemma HeadRoundTrip(status: nat, len: nat, ct: string)
    ensures ReadHead(StatusLineBytes + (Encode(Format(status)) + (([13, 10] + LengthNameBytes)
                     + (Encode(Format(len)) + (([13, 10] + TypeNameBytes) + Encode(ct))))))
         == Some((status, len, Encode(ct)))
  {
    ReadHeadWithFormat(StatusLineBytes, [13, 10] + LengthNameBytes, [13, 10] + TypeNameBytes,
                       status, len, Encode(ct));
  }

  /** The bytes of a framed response start with the status line: `HTTP/1.1 `, the
      decimal status code and CR LF. */
  lemma StatusLineFirst(r: Response)
    ensures Encode(StatusLineStart) + Encode(Format(r.status)) + [13, 10] <= Wire(r)
  {
    WireBytes(r);
    StatusBytes();
    StartsWithStatusLine(Wire(r), StatusLineBytes, Encode(Format(r.status)), LengthNameBytes,
      Encode(Format(ByteLength(r.body))), TypeNameBytes, Encode(r.contentType), Encode(r.body));
  }

  lemma StartsWithStatusLine(w: seq<byte>, start: seq<byte>, f1: seq<byte>, ln: seq<byte>, f2: seq<byte>,
                             tn: seq<byte>, c: seq<byte>, body: seq<byte>)
    requires w == start + f1 + ([13, 10] + ln) + f2 + ([13, 10] + tn) + c + Blank + body
    ensures start + f1 + [13, 10] <= w
  {
    assert w == (start + f1 + [13, 10]) + (ln + f2 + ([13, 10] + tn) + c + Blank + body);
  }

  /** In bytes laid out like a framed response, the first blank line ends the header
      block and the body follows it. */
  lemma SplitAtBlank(w: seq<byte>, start: seq<byte>, f1: seq<byte>, ln: seq<byte>, f2: seq<byte>,
                     tn: seq<byte>, c: seq<byte>, body: seq<byte>)
    requires w == start + f1 + ([13, 10] + ln) + f2 + ([13, 10] + tn) + c + Blank + body
    requires 13 !in start && 13 !in f1 && 13 !in ln && 13 !in f2 && 13 !in tn && 13 !in c
    requires ln != [] && tn != []
    ensures FindBlank(w) == Some(|start| + |f1| + |ln| + |f2| + |tn| + |c| + 4)
    ensures w[..|start| + |f1| + |ln| + |f2| + |tn| + |c| + 4]
         == start + (f1 + (([13, 10] + ln) + (f2 + (([13, 10] + tn) + c))))
    ensures w[|start| + |f1| + |ln| + |f2| + |tn| + |c| + 8..] == body
  {
    var a, l, t := start + f1, ln + f2, tn + c;
    var head := start + (f1 + (([13, 10] + ln) + (f2 + (([13, 10] + tn) + c))));
    Regrouped(start, f1, ln, f2, tn, c, body);
    BlankEndsHeader(a, l, t, body);
    Around(head, Blank, body);
  }

  /** The framed layout, grouped as `BlankEndsHeader` and `Around` read it. */
  lemma Regrouped(start: seq<byte>, f1: seq<byte>, ln: seq<byte>, f2: seq<byte>,
                  tn: seq<byte>, c: seq<byte>, body: seq<byte>)
    ensures start + f1 + ([13, 10] + ln) + f2 + ([13, 10] + tn) + c + Blank + body
         == (start + f1) + [13, 10] + (ln + f2) + [13, 10] + (tn + c) + Blank + body
    ensures start + f1 + ([13, 10] + ln) + f2 + ([13, 10] + tn) + c + Blank + body
         == start + (f1 + (([13, 10] + ln) + (f2 + (([13, 10] + tn) + c)))) + (Blank + body)
  {
  }

  /** The parts of `x + (y + z)` are recovered by slicing at their lengths. */
  lemma Around(x: seq<byte>, y: seq<byte>, z: seq<byte>)
    ensures (x + (y + z))[..|x|] == x
    ensures (x + (y + z))[|x| + |y|..] == z
  {
  }

  /** A response is read off bytes whose first blank line ends a readable header block
      and whose remainder is exactly Content-Length bytes. */
  lemma ReadSplit(w: seq<byte>, k: nat, status: nat, ct: seq<byte>, body: seq<byte>)
    requires FindBlank(w) == Some(k)
    requires ReadHead(w[..k]) == Some((status, |body|, ct))
    requires w[k + 4..] == body
    ensures ReadResponse(w) == Some(WireResponse(status, ct, body))
  {
    assert body[..|body|] == body;
    assert TakeBody(Some((status, |body|, ct)), body) == Some(WireResponse(status, ct, body));
  }

  /** Framing then reading is the identity on what the response carries: the status
      code, the content type, and exactly the bytes of the body, with nothing left
      over after the body; the Content-Length value in the header block is the
      number of bytes after the blank line. */
  lemma WireRoundTrip(r: Response)
    requires '\r' !in r.contentType
    ensures ReadResponse(Wire(r)) == Some(WireResponse(r.status, Encode(r.contentType), Encode(r.body)))
    ensures FindBlank(Wire(r)).Some?
    ensures Wire(r)[FindBlank(Wire(r)).value + 4..] == Encode(r.body)
    ensures ReadHead(Wire(r)[..FindBlank(Wire(r)).value]).Some?
    ensures ReadHead(Wire(r)[..FindBlank(Wire(r)).value]).value.1
         == |Wire(r)[FindBlank(Wire(r)).value + 4..]|
  {
    var len := ByteLength(r.body);
    var f1, f2, c := Encode(Format(r.status)), Encode(Format(len)), Encode(r.contentType);
    WireBytes(r);
    NoCarriageReturns(r);
    ConstantsFree();
    HeadRoundTrip(r.status, len, r.contentType);
    var w := Wire(r);
    SplitAtBlank(w, StatusLineBytes, f1, LengthNameBytes, f2, TypeNameBytes, c, Encode(r.body));
    var k := |StatusLineBytes| + |f1| + |LengthNameBytes| + |f2| + |TypeNameBytes| + |c| + 4;
    FramedRead(w, k, w[..k], r.status, c, Encode(r.body));
  }

  /** Bytes whose first blank line follows a header block that reads back with a
      Content-Length equal to the number of bytes after the blank line read back as
      that status, content type and body, with nothing after the body. */
  lemma FramedRead(w: seq<byte>, k: nat, head: seq<byte>, status: nat, c: seq<byte>, body: seq<byte>)
    requires FindBlank(w) == Some(k)
    requires w[..k] == head && w[k + 4..] == body
    requires ReadHead(head) == Some((status, |body|, c))
    ensures ReadResponse(w) == Some(WireResponse(status, c, body))
    ensures FindBlank(w).Some?
    ensures w[FindBlank(w).value + 4..] == body
    ensures ReadHead(w[..FindBlank(w).value]).Some?
    ensures ReadHead(w[..FindBlank(w).value]).value.1 == |w[FindBlank(w).value + 4..]|
  {
    ReadSplit(w, k, status, c, body);
  }

  /** The bytes of a framed response, with the CR LF before each header field and the
      blank line spelled out. */
  lemma WireBytes(r: Response)
    ensures Wire(r) == StatusLineBytes + Encode(Format(r.status)) + ([13, 10] + LengthNameBytes)
                     + Encode(Format(ByteLength(r.body))) + ([13, 10] + TypeNameBytes) + Encode(r.contentType)
                     + Blank + Encode(r.body)
  {
    WireLayout(r);
    PieceBytes();
  }

  /** The pieces of a framed response that vary hold no CR byte, provided the content
      type holds none: the only CR bytes are those of the line ends. */
  lemma NoCarriageReturns(r: Response)
    requires '\r' !in r.contentType
    ensures 13 !in Encode(Format(r.status))
    ensures 13 !in Encode(Format(ByteLength(r.body)))
    ensures 13 !in Encode(r.contentType)
  {
    FormatAscii(r.status);
    EncodeAvoids(Format(r.status), '\r');
    EncodeAvoids(Format(ByteLength(r.body)), '\r');
    EncodeAvoids(r.contentType, '\r');
  }

}
