/**
  The frame header of section 5.2 of RFC 6455: what a byte string means as a header, and
  the shortest bytes for a header.
*/
module Header {
  import opened Bytes
  import opened Errors

  const OP_CONTINUATION := 0
  const OP_TEXT := 1
  const OP_BINARY := 2
  const OP_CLOSE := 8
  const OP_PING := 9
  const OP_PONG := 10

  const MAX_HEADER_SIZE := 14
  const LEN7 := 125
  const LEN16 := 0xffff
  const LEN64 := 0x7fff_ffff_ffff_ffff

  /** A decoded header; `rsv` holds RSV1, RSV2, RSV3 as the bits 4, 2, 1. */
  datatype Head = Head(fin: bool, rsv: nat, opCode: nat, masked: bool, mask: Mask, length: nat)

  predicate ValidHead(h: Head) {
    && h.rsv < 8
    && h.opCode < 16
    && h.length <= LEN64
    && (!h.masked ==> h.mask == NO_MASK)
  }

  predicate IsControl(opCode: nat) { opCode >= 8 }

  datatype Parsed = Parsed(h: Head, size: nat) | Bad(err: Error)

  // ----- reading -----

  /** How many bytes follow the first two, given the second one. */
  function ExtraSize(b1: byte): nat {
    (if b1 >= 128 then 4 else 0)
    + (if b1 % 128 == 126 then 2 else if b1 % 128 == 127 then 8 else 0)
  }

  /** The header whose first two bytes are `b0`, `b1` and whose remaining bytes are `ext`. */
  function Assemble(b0: byte, b1: byte, ext: seq<byte>): Head
    requires |ext| == ExtraSize(b1)
  {
    var masked := b1 >= 128;
    var length :=
      if b1 % 128 == 126 then FromBigEndian(ext[..2])
      else if b1 % 128 == 127 then FromBigEndian(ext[..8])
      else b1 % 128;
    Head(b0 >= 128, b0 / 16 % 8, b0 % 16, masked, if masked then ext[|ext| - 4..] else NO_MASK, length)
  }

  /** The header at the front of the byte stream `s`, and the number of bytes it takes. */
  function ParseHeader(s: seq<byte>): (r: Parsed)
    ensures r.Parsed? ==> 2 <= r.size <= |s|
  {
    if |s| == 0 then Bad(Eof)
    else if |s| == 1 then Bad(UnexpectedEof)
    else
      var extra := ExtraSize(s[1]);
      if |s| == 2 && extra > 0 then Bad(Eof)
      else if |s| < 2 + extra then Bad(UnexpectedEof)
      else if s[1] % 128 == 127 && s[2] >= 128 then Bad(HeaderLengthMsb)
      else Parsed(Assemble(s[0], s[1], s[2..2 + extra]), 2 + extra)
  }

  /** How many bytes of `s` are read for its header, accepted or not. */
  function Consumed(s: seq<byte>): (n: nat)
    ensures n <= |s|
  {
    match ParseHeader(s)
    case Parsed(_, k) => k
    case Bad(e) => if e == HeaderLengthMsb then 2 + ExtraSize(s[1]) else |s|
  }

  // ----- writing -----

  /** The length field: the seven-bit value and the bytes after it. */
  function LengthForm(length: nat): (byte, seq<byte>)
    requires length <= LEN64
  {
    if length <= LEN7 then (length, [])
    else if length <= LEN16 then (126, ToBigEndian(length, 2))
    else (127, ToBigEndian(length, 8))
  }

  /** The shortest bytes for a header. */
  function HeaderBytes(h: Head): (s: seq<byte>)
    requires ValidHead(h)
  {
    [FirstByte(h)] + SecondPart(h)
  }

  function FirstByte(h: Head): byte
    requires ValidHead(h)
  {
    (if h.fin then 128 else 0) + 16 * h.rsv + h.opCode
  }

  function SecondPart(h: Head): seq<byte>
    requires ValidHead(h)
  {
    var (l7, ext) := LengthForm(h.length);
    [(if h.masked then 128 else 0) + l7] + ext + (if h.masked then h.mask else [])
  }

  /** The header of a data frame that this side writes. */
  function DataHead(client: bool, opCode: nat, fin: bool, mask: Mask, length: nat, compressed: bool): Head {
    Head(fin, if compressed then 4 else 0, opCode, client, if client then mask else NO_MASK, length)
  }

  // ----- laws -----

  /** A parsed header does not depend on what follows it. */
  lemma ParsePrefix(s: seq<byte>, t: seq<byte>)
    requires ParseHeader(s).Parsed?
    ensures ParseHeader(s[..ParseHeader(s).size] + t) == ParseHeader(s)
  {
    var k := ParseHeader(s).size;
    assert (s[..k] + t)[2..k] == s[2..k];
  }

  /** Cutting a header short: nothing at all, and a cut just after two bytes, read as a plain end of file. */
  lemma ParseTruncated(s: seq<byte>, j: nat)
    requires ParseHeader(s).Parsed? && j < ParseHeader(s).size
    ensures ParseHeader(s[..j]) == Bad(if j == 0 || j == 2 then Eof else UnexpectedEof)
  {
  }

  lemma ParsedIsValid(s: seq<byte>)
    requires ParseHeader(s).Parsed?
    ensures ValidHead(ParseHeader(s).h)
  {
    var extra := ExtraSize(s[1]);
    var ext := s[2..2 + extra];
    assert ParseHeader(s).h == Assemble(s[0], s[1], ext);
    if s[1] % 128 == 126 {
      BigEndianTop(ext[..2]);
      Powers();
    } else if s[1] % 128 == 127 {
      BigEndianTop(ext[..8]);
      Powers();
    }
  }

  lemma Powers()
    ensures Pow256(1) == 256
    ensures Pow256(2) == 0x1_0000
    ensures Pow256(7) == 0x100_0000_0000_0000
    ensures Pow256(8) == 0x1_0000_0000_0000_0000
  {
    assert Pow256(2) == 256 * 256;
    assert Pow256(4) == Pow256(2) * 0x1_0000;
    assert Pow256(6) == Pow256(4) * 0x1_0000;
    assert Pow256(8) == 256 * Pow256(7);
  }

  lemma LengthFormReads(length: nat)
    requires length <= LEN64
    ensures var (l7, ext) := LengthForm(length);
            && l7 < 128
            && |ext| == (if l7 == 126 then 2 else if l7 == 127 then 8 else 0)
            && length == (if l7 >= 126 then FromBigEndian(ext) else l7)
            && (l7 == 127 ==> ext[0] < 128)
  {
    Powers();
    if LEN7 < length <= LEN16 {
      BigEndianRoundTrip(length, 2);
    } else if LEN16 < length {
      BigEndianRoundTrip(length, 8);
      BigEndianTop(ToBigEndian(length, 8));
    }
  }

  lemma FirstByteFields(h: Head)
    requires ValidHead(h)
    ensures var b := FirstByte(h);
            (b >= 128) == h.fin && b / 16 % 8 == h.rsv && b % 16 == h.opCode
  {
  }

  /** The bytes behind the first one of a written header assemble to its length and mask. */
  lemma AssembleBack(h: Head, b1: byte, rest: seq<byte>)
    requires ValidHead(h)
    requires var (l7, ext) := LengthForm(h.length);
             && b1 == (if h.masked then 128 else 0) + l7
             && rest == ext + (if h.masked then h.mask else [])
    ensures |rest| == ExtraSize(b1) && Assemble(FirstByte(h), b1, rest) == h
    ensures b1 % 128 == 127 ==> rest[0] < 128
  {
    LengthFormReads(h.length);
    FirstByteFields(h);
    var (l7, ext) := LengthForm(h.length);
    assert b1 % 128 == l7 && (b1 >= 128) == h.masked;
    assert rest[..|ext|] == ext && rest[|ext|..] == if h.masked then h.mask else [];
  }

  lemma SecondPartShape(h: Head) returns (b1: byte, rest: seq<byte>)
    requires ValidHead(h)
    ensures SecondPart(h) == [b1] + rest && |rest| == ExtraSize(b1) && Assemble(FirstByte(h), b1, rest) == h
    ensures b1 % 128 == 127 ==> rest[0] < 128
  {
    LengthFormReads(h.length);
    var (l7, ext) := LengthForm(h.length);
    b1, rest := (if h.masked then 128 else 0) + l7, ext + if h.masked then h.mask else [];
    AssembleBack(h, b1, rest);
  }

  lemma ParsesBack(first: byte, b1: byte, rest: seq<byte>, t: seq<byte>, s: seq<byte>)
    requires s == [first] + ([b1] + rest) + t && |rest| == ExtraSize(b1) && (b1 % 128 == 127 ==> rest[0] < 128)
    ensures ParseHeader(s) == Parsed(Assemble(first, b1, rest), 2 + |rest|)
  {
    assert s[0] == first && s[1] == b1 && s[2..2 + |rest|] == rest;
    assert rest != [] ==> s[2] == rest[0];
  }

  /** Reading back a written header, whatever follows it. */
  lemma HeaderRoundTrip(h: Head, t: seq<byte>)
    requires ValidHead(h)
    ensures ParseHeader(HeaderBytes(h) + t) == Parsed(h, |HeaderBytes(h)|)
  {
    var b1, rest := SecondPartShape(h);
    ParsesBack(FirstByte(h), b1, rest, t, HeaderBytes(h) + t);
  }

  /** Any other length field for the same number is longer. */
  lemma LengthFormMinimal(l7: nat, ext: seq<byte>, length: nat)
    requires l7 < 128 && |ext| == (if l7 == 126 then 2 else if l7 == 127 then 8 else 0)
    requires length == (if l7 >= 126 then FromBigEndian(ext) else l7) <= LEN64
    ensures var (m7, best) := LengthForm(length);
            |best| <= |ext| && (|best| == |ext| ==> m7 == l7 && best == ext)
  {
    BigEndianUnique(ext);
    if l7 == 126 {
      BigEndianTop(ext);
      Powers();
    }
  }

  lemma FirstByteReads(s: seq<byte>)
    requires ParseHeader(s).Parsed? && ValidHead(ParseHeader(s).h)
    ensures FirstByte(ParseHeader(s).h) == s[0]
  {
    var b0 := s[0];
    assert (if b0 >= 128 then 128 else 0) + 16 * (b0 / 16 % 8) + b0 % 16 == b0;
  }

  /** The bytes after the first two, as the length bytes and the mask. */
  lemma ExtraParts(s: seq<byte>) returns (n: nat)
    requires ParseHeader(s).Parsed? && ParseHeader(s).size == |s|
    ensures var h, l7 := ParseHeader(s).h, s[1] % 128;
            && n == (if l7 == 126 then 2 else if l7 == 127 then 8 else 0)
            && h.masked == (s[1] >= 128)
            && n + 2 <= |s|
            && s[2 + n..] == (if h.masked then h.mask else [])
            && h.length == (if l7 >= 126 then FromBigEndian(s[2..2 + n]) else l7)
  {
    n := if s[1] % 128 == 126 then 2 else if s[1] % 128 == 127 then 8 else 0;
    assert s[2..|s|] == s[2..];
    assert s[2..][..n] == s[2..2 + n];
  }

  lemma SecondPartMinimal(s: seq<byte>)
    requires ParseHeader(s).Parsed? && ParseHeader(s).size == |s|
    requires ValidHead(ParseHeader(s).h)
    ensures var best := SecondPart(ParseHeader(s).h);
            |best| <= |s| - 1 && (|best| == |s| - 1 ==> best == s[1..])
  {
    var h, l7 := ParseHeader(s).h, s[1] % 128;
    var n := ExtraParts(s);
    LengthFormMinimal(l7, s[2..2 + n], h.length);
    BehindFirst(s, n);
  }

  lemma BehindFirst(s: seq<byte>, n: nat)
    requires 2 + n <= |s|
    ensures s[1..] == [s[1]] + s[2..2 + n] + s[2 + n..]
  {
  }

  lemma JoinFirst(s: seq<byte>, first: byte, rest: seq<byte>)
    requires s != [] && s[0] == first && |rest| <= |s| - 1 && (|rest| == |s| - 1 ==> rest == s[1..])
    ensures |[first] + rest| <= |s| && (|[first] + rest| == |s| ==> [first] + rest == s)
  {
  }

  /** The written header is the unique shortest among all bytes that read as it. */
  lemma HeaderMinimal(s: seq<byte>)
    requires ParseHeader(s).Parsed? && ParseHeader(s).size == |s|
    ensures ValidHead(ParseHeader(s).h)
    ensures var best := HeaderBytes(ParseHeader(s).h);
            |best| <= |s| && (|best| == |s| ==> best == s)
  {
    ParsedIsValid(s);
    var h := ParseHeader(s).h;
    SecondPartMinimal(s);
    FirstByteReads(s);
    JoinFirst(s, FirstByte(h), SecondPart(h));
  }
}
