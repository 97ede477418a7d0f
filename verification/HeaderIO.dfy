/** The two header routines: parsing from a source, and packing into a pooled buffer. */
module HeaderIO {
  import opened Bytes
  import opened Errors
  import opened Header
  import opened Streams

  lemma RestSlice(data: seq<byte>, pos: nat, i: nat, j: nat)
    requires i <= j && pos + j <= |data|
    ensures data[pos..][i..j] == data[pos + i..pos + j]
  {
  }

  /** The second switch: the length and the mask from the bytes behind the first two. */
  method Unpack(bts: array<byte>, b0: byte, b1: byte, start: Head) returns (h: Head, err: Error)
    requires bts.Length == MAX_HEADER_SIZE && ExtraSize(b1) > 0
    requires start == Head(b0 >= 128, b0 / 16 % 8, b0 % 16, b1 >= 128, NO_MASK, if b1 % 128 < 126 then b1 % 128 else 0)
    ensures if b1 % 128 == 127 && bts[0] >= 128 then err == HeaderLengthMsb
            else err == Ok && h == Assemble(b0, b1, bts[..ExtraSize(b1)])
  {
    h, err := start, Ok;
    var extra, from := ExtraSize(b1), 0;
    ghost var ext := bts[..extra];
    if b1 % 128 == 126 {
      assert bts[..2] == ext[..2];
      h := h.(length := FromBigEndian(bts[..2]));
      from := 2;
    } else if b1 % 128 == 127 {
      if bts[0] >= 128 {
        err := HeaderLengthMsb;
        return;
      }
      assert bts[..8] == ext[..8];
      h := h.(length := FromBigEndian(bts[..8]));
      from := 8;
    }
    if h.masked {
      assert bts[from..from + 4] == ext[extra - 4..];
      h := h.(mask := bts[from..from + 4]);
    }
  }

  /** The second read: the bytes behind the first two, `b0` and `b1`, of the stream `s`. */
  method ReadExtra(src: Source, bts: array<byte>, b0: byte, b1: byte, start: Head, extra: nat, ghost s: seq<byte>)
    returns (h: Head, err: Error)
    requires src.Valid() && bts.Length == MAX_HEADER_SIZE && extra == ExtraSize(b1) > 0
    requires |s| >= 2 && s[0] == b0 && s[1] == b1 && src.Rest() == s[2..]
    requires start == Head(b0 >= 128, b0 / 16 % 8, b0 % 16, b1 >= 128, NO_MASK, if b1 % 128 < 126 then b1 % 128 else 0)
    modifies src, bts
    ensures src.Valid() && src.pos + 2 == old(src.pos) + Consumed(s)
    ensures ParseHeader(s) == if err == Ok then Parsed(h, 2 + extra) else Bad(err)
  {
    h := start;
    var n;
    ghost var rest := src.Rest();
    n, err := src.ReadFull(bts, 0, extra);
    if err == Ok {
      RestSlice(src.data, old(src.pos), 0, extra);
      assert bts[..extra] == bts[0..0 + extra] == rest[0..extra];
      ExtraThere(s, bts[..extra]);
      h, err := Unpack(bts, b0, b1, h);
    } else {
      ExtraCut(s);
    }
  }

  lemma ExtraCut(s: seq<byte>)
    requires 2 <= |s| < 2 + ExtraSize(s[1])
    ensures ParseHeader(s) == Bad(if |s| == 2 then Eof else UnexpectedEof) && Consumed(s) == |s|
  {
  }

  lemma ExtraThere(s: seq<byte>, ext: seq<byte>)
    requires |s| >= 2 && |ext| == ExtraSize(s[1]) > 0 && |s| >= 2 + |ext| && ext == s[2..][0..|ext|]
    ensures ParseHeader(s) == if s[1] % 128 == 127 && ext[0] >= 128 then Bad(HeaderLengthMsb)
                              else Parsed(Assemble(s[0], s[1], ext), 2 + |ext|)
    ensures Consumed(s) == 2 + |ext|
  {
    assert ext == s[2..2 + |ext|];
    assert ext[0] == s[2];
  }

  /** Reads one header and not a byte more; `bts` is scratch space reused for both reads. */
  method ReadHeader(src: Source, bts: array<byte>) returns (h: Head, err: Error)
    requires src.Valid() && bts.Length == MAX_HEADER_SIZE
    modifies src, bts
    ensures src.Valid() && src.pos == old(src.pos) + Consumed(old(src.Rest()))
    ensures match ParseHeader(old(src.Rest()))
            case Parsed(head, k) => err == Ok && h == head
            case Bad(e) => err == e
    ensures err == Ok ==> ParseHeader(old(src.Rest())).Parsed?
    ensures err == Eof ==> src.pos == |src.data|
  {
    ghost var s := src.Rest();
    h := Head(false, 0, 0, false, NO_MASK, 0);
    var n;
    n, err := src.ReadFull(bts, 0, 2);
    if err != Ok {
      assert ParseHeader(s) == Bad(err);
      return;
    }
    RestSlice(src.data, old(src.pos), 0, 2);
    var b0, b1 := bts[0], bts[1];
    assert b0 == bts[0..2][0] == s[0] && b1 == bts[0..2][1] == s[1];
    h := h.(fin := b0 >= 128, rsv := b0 / 16 % 8, opCode := b0 % 16);
    var extra := 0;
    if b1 >= 128 {
      h := h.(masked := true);
      extra := extra + 4;
    }
    var length := b1 % 128;
    if length < 126 {
      h := h.(length := length);
    } else if length == 126 {
      extra := extra + 2;
    } else {
      extra := extra + 8;
    }
    assert extra == ExtraSize(s[1]);
    if extra == 0 {
      assert ParseHeader(s) == Parsed(h, 2);
      return;
    }
    assert src.Rest() == s[2..];
    h, err := ReadExtra(src, bts, b0, b1, h, extra, s);
  }

  /** Stores the low `n` bytes of `v`, the most significant first. */
  method PutBigEndian(bts: array<byte>, lo: nat, n: nat, v: nat)
    requires lo + n <= bts.Length
    modifies bts
    ensures bts[..lo] == old(bts[..lo]) && bts[lo..lo + n] == ToBigEndian(v, n)
  {
    var i, w := n, v;
    while i > 0
      invariant 0 <= i <= n
      invariant bts[..lo] == old(bts[..lo])
      invariant ToBigEndian(v, n) == ToBigEndian(w, i) + bts[lo + i..lo + n]
    {
      ghost var done := bts[lo + i..lo + n];
      i := i - 1;
      bts[lo + i] := w % 256;
      assert bts[lo + i..lo + n] == [w % 256] + done;
      w := w / 256;
    }
  }

  /** The length switch: bytes 1 up to `n` of the header, without the mask bit. */
  method PackLength(bts: array<byte>, length: nat) returns (n: nat, err: Error)
    requires bts.Length >= MAX_HEADER_SIZE
    modifies bts
    ensures bts[0] == old(bts[0])
    ensures err == if length <= LEN64 then Ok else HeaderLengthUnexpected
    ensures if err == Ok
            then 2 <= n <= 10 && bts[1] == LengthForm(length).0 && bts[2..n] == LengthForm(length).1
            else n == 0
  {
    n, err := 0, Ok;
    if length <= LEN7 {
      bts[1] := length;
      n := 2;
    } else if length <= LEN16 {
      bts[1] := 126;
      ghost var front := bts[..2];
      PutBigEndian(bts, 2, 2, length);
      assert bts[1] == bts[..2][1] == front[1] && bts[0] == bts[..2][0] == front[0];
      n := 4;
    } else if length <= LEN64 {
      bts[1] := 127;
      ghost var front := bts[..2];
      PutBigEndian(bts, 2, 8, length);
      assert bts[1] == bts[..2][1] == front[1] && bts[0] == bts[..2][0] == front[0];
      n := 10;
    } else {
      err := HeaderLengthUnexpected;
    }
  }

  /** Sets the mask bit and appends the mask. */
  method PackMask(bts: array<byte>, n: nat, mask: Mask) returns (n': nat)
    requires n + 4 <= bts.Length && bts.Length >= 2
    modifies bts
    ensures n' == n + 4
    ensures n >= 2 && old(bts[1]) < 128 ==>
              bts[0] == old(bts[0]) && bts[1..n'] == [old(bts[1]) + 128] + old(bts[2..n]) + mask
  {
    bts[1] := if bts[1] < 128 then bts[1] + 128 else bts[1];
    forall i | 0 <= i < 4 {
      bts[n + i] := mask[i];
    }
    n' := n + 4;
    assert n >= 2 ==> bts[1..n'] == [bts[1]] + bts[2..n] + bts[n..n'];
  }

  /**
    Writes the header of an outgoing data frame at the front of a pooled buffer. The bytes depend
    on the arguments alone, never on what the buffer held. A client also writes its mask.
  */
  method PackHeader(bts: array<byte>, client: bool, opCode: nat, fin: bool, mask: Mask, length: nat, compressed: bool)
    returns (n: nat, err: Error)
    requires bts.Length >= MAX_HEADER_SIZE
    requires opCode == OP_TEXT || opCode == OP_BINARY
    modifies bts
    ensures n <= MAX_HEADER_SIZE
    ensures err == if length <= LEN64 then Ok else HeaderLengthUnexpected
    ensures err == Ok ==>
              bts[..n] == HeaderBytes(DataHead(client, opCode, fin, mask, length, compressed))
  {
    ghost var h := DataHead(client, opCode, fin, mask, Min(length, LEN64), compressed);
    bts[0] := opCode;
    if fin {
      bts[0] := bts[0] + 128;
    }
    if compressed {
      bts[0] := bts[0] + 64;
    }
    n, err := PackLength(bts, length);
    if client {
      // on the error path this masks and sets bits of stale bytes; nobody reads them
      n := PackMask(bts, n, mask);
    }
    if err == Ok {
      FirstAndRest(bts, n);
      Packed(h, bts[0], bts[1..n], bts[1], if client then [] else bts[2..n]);
    }
  }

  lemma FirstAndRest(bts: array<byte>, n: nat)
    requires 2 <= n <= bts.Length
    ensures bts[..n] == [bts[0]] + bts[1..n] && bts[1..n] == [bts[1]] + bts[2..n]
  {
  }

  /** The bytes of the header from what the two routines stored. */
  lemma Packed(h: Head, first: byte, rest: seq<byte>, second: byte, ext: seq<byte>)
    requires ValidHead(h) && first == FirstByte(h)
    requires var (l7, e) := LengthForm(h.length);
             if h.masked then rest == [l7 + 128] + e + h.mask
             else rest == [second] + ext && second == l7 && ext == e
    ensures [first] + rest == HeaderBytes(h)
  {
    assert [second] + ext + [] == [second] + ext;
    assert rest == SecondPart(h);
  }
}
