/**
  The tail handling of section 7.2 of RFC 7692 around an abstract compressor: a writer that holds
  back the last four bytes, a reader that appends them again, and the reuse of one compressor
  for many messages.
*/
module Deflate {
  import opened Bytes
  import opened Errors
  import opened Streams

  const TAIL: seq<byte> := [0, 0, 0xff, 0xff]

  /** The destination of compressed bytes; if it is faulty, a write may fail after any part of it. */
  class Sink {
    const faulty: bool
    var contents: seq<byte>

    constructor (faulty: bool)
      ensures contents == [] && this.faulty == faulty
    {
      this.faulty, contents := faulty, [];
    }

    method Write(p: seq<byte>) returns (err: Error)
      modifies this
      ensures err == Ok || (err == WriteFailed && faulty)
      ensures err == Ok ==> contents == old(contents) + p
      ensures old(contents) <= contents <= old(contents) + p
    {
      var n: nat :| n <= |p| && (n < |p| ==> faulty);
      contents := contents + p[..n];
      err := if n == |p| then Ok else WriteFailed;
    }
  }

  predicate EndsInTail(w: seq<byte>) {
    |w| >= 4 && w[|w| - 4..] == TAIL
  }

  // ----- holding back four bytes -----

  /** The last four bytes of `w`, or all of it if it is shorter. */
  function Held(w: seq<byte>): seq<byte> {
    if |w| <= 4 then w else w[|w| - 4..]
  }

  /** What comes before them. */
  function Passed(w: seq<byte>): seq<byte> {
    if |w| <= 4 then [] else w[..|w| - 4]
  }

  lemma HeldAndPassed(w: seq<byte>)
    ensures Passed(w) + Held(w) == w
  {
  }

  function Zeros(n: nat): (s: seq<byte>)
    ensures |s| == n
  {
    seq(n, i => 0)
  }

  /** The four bytes of the buffer: what is held, then the zeros it was reset to. */
  function Buffered(w: seq<byte>): (s: seq<byte>)
    ensures |s| == 4
  {
    Held(w) + Zeros(4 - |Held(w)|)
  }

  /** The buffer equals the tail exactly if all that was written ends in it; short writes never do. */
  lemma TailCheckExact(w: seq<byte>)
    ensures Buffered(w) == TAIL <==> EndsInTail(w)
    ensures EndsInTail(w) <==> |w| >= 4 && w == w[..|w| - 4] + [0, 0, 0xff, 0xff]
  {
    if |w| < 4 {
      assert Buffered(w)[3] == 0;
    } else {
      assert w == w[..|w| - 4] + w[|w| - 4..];
      assert (w[..|w| - 4] + [0, 0, 0xff, 0xff])[|w| - 4..] == [0, 0, 0xff, 0xff];
      assert Held(w) == w[|w| - 4..];
      assert Held(w) + Zeros(0) == Held(w);
    }
  }

  /** How many bytes leave the buffer when `p` is written behind `w`. */
  function Leaving(w: seq<byte>, p: seq<byte>): (x: nat)
    ensures x <= |Held(w)|
  {
    var total := |Held(w)| + Min(|p|, 4);
    if total > 4 then total - 4 else 0
  }

  function HeadOf(p: seq<byte>): seq<byte> { if |p| > 4 then p[..|p| - 4] else [] }

  function TailOf(p: seq<byte>): seq<byte> { if |p| > 4 then p[|p| - 4..] else p }

  /** One write moves `Passed` forward by exactly what leaves the buffer. */
  lemma HeldMoves(w: seq<byte>, p: seq<byte>)
    ensures Passed(w + p) == Passed(w) + Held(w)[..Leaving(w, p)] + HeadOf(p)
    ensures Held(w + p) == Held(w)[Leaving(w, p)..] + TailOf(p)
  {
    PassedForward(w, p);
    HeldForward(w, p);
  }

  lemma PassedForward(w: seq<byte>, p: seq<byte>)
    ensures Passed(w + p) == Passed(w) + Held(w)[..Leaving(w, p)] + HeadOf(p)
  {
    if |p| > 4 {
      HeldAndPassed(w);
      assert Held(w)[..|Held(w)|] == Held(w);
      assert (w + p)[..|w| + |p| - 4] == w + p[..|p| - 4];
    } else {
      assert Held(w)[..Leaving(w, p)] + [] == Held(w)[..Leaving(w, p)];
    }
  }

  lemma HeldForward(w: seq<byte>, p: seq<byte>)
    ensures Held(w + p) == Held(w)[Leaving(w, p)..] + TailOf(p)
  {
    var total := |w| + |p|;
    if |p| > 4 {
      DropBoth(w, p, total - 4);
      assert Held(w)[|Held(w)|..] == [];
    } else if total <= 4 {
      assert Held(w)[0..] == w;
    } else {
      DropFirst(w, p, total - 4);
      if |w| > 4 {
        DropTwice(w, |w| - 4, |p|);
      }
    }
  }

  lemma DropFirst(a: seq<byte>, b: seq<byte>, k: nat)
    requires k <= |a|
    ensures (a + b)[k..] == a[k..] + b
  {
  }

  lemma DropBoth(a: seq<byte>, b: seq<byte>, k: nat)
    requires |a| <= k <= |a| + |b|
    ensures (a + b)[k..] == b[k - |a|..]
  {
  }

  lemma DropTwice(a: seq<byte>, i: nat, j: nat)
    requires i + j <= |a|
    ensures a[i..][j..] == a[i + j..]
  {
  }

  lemma Regroup(a: seq<byte>, b: seq<byte>, c: seq<byte>, d: seq<byte>)
    ensures a + (b + c + d) == a + b + c + d
  {
  }

  /** Filling a buffer of four behind its first bytes `kept`, with zeros behind them. */
  lemma FilledBuffer(kept: seq<byte>, tail: seq<byte>, shifted: seq<byte>)
    requires |kept| + |tail| <= 4 && |shifted| == 4 && shifted[..|kept|] == kept
    requires |kept| + |tail| < 4 ==> shifted == kept + Zeros(4 - |kept|)
    ensures shifted[..|kept|] + tail + shifted[|kept| + |tail|..] == kept + tail + Zeros(4 - |kept| - |tail|)
  {
    var rest := shifted[|kept| + |tail|..];
    assert |rest| == 4 - |kept| - |tail|;
    if |kept| + |tail| < 4 {
      assert rest == Zeros(4 - |kept|)[|tail|..];
    }
    assert rest == Zeros(4 - |kept| - |tail|);
  }

  /** The buffer: `x` bytes are shifted out and the tail of `p` is filled in. */
  lemma BufferMoves(w: seq<byte>, p: seq<byte>, shifted: seq<byte>, filled: seq<byte>)
    requires var x, n := Leaving(w, p), |Held(w)|;
             && |shifted| == 4 && shifted[..4 - x] == Buffered(w)[x..]
             && (x == 0 ==> shifted == Buffered(w))
             && filled == shifted[..n - x] + TailOf(p) + shifted[n - x + |TailOf(p)|..]
    ensures filled == Buffered(w + p)
    ensures |Held(w + p)| == |Held(w)| - Leaving(w, p) + |TailOf(p)|
  {
    HeldMoves(w, p);
    var x, n := Leaving(w, p), |Held(w)|;
    var kept := Held(w)[x..];
    assert shifted[..n - x] == shifted[..4 - x][..n - x] == Buffered(w)[x..][..n - x] == kept;
    FilledBuffer(kept, TailOf(p), shifted);
  }

  /** The destination: it gets the bytes shifted out and the head of `p`, or a part of them. */
  lemma PassedMoves(base: seq<byte>, w: seq<byte>, p: seq<byte>, after: seq<byte>, all: bool)
    requires var whole := base + Passed(w) + Held(w)[..Leaving(w, p)] + HeadOf(p);
             base + Passed(w) <= after <= whole && (all ==> after == whole)
    ensures base <= after <= base + (w + p) && (all ==> after == base + Passed(w + p))
  {
    HeldMoves(w, p);
    Regroup(base, Passed(w), Held(w)[..Leaving(w, p)], HeadOf(p));
    HeldAndPassed(w + p);
    Regroup(base, Passed(w + p), Held(w + p), []);
    assert Passed(w + p) + Held(w + p) + [] == w + p;
  }

  /** Two writes, the second of which does nothing if the first failed. */
  lemma TwoParts(before: seq<byte>, a: seq<byte>, b: seq<byte>, middle: seq<byte>, after: seq<byte>,
                 ok: bool, done: bool)
    requires before <= middle <= before + a && (ok ==> middle == before + a)
    requires if ok then middle <= after <= middle + b && (done ==> after == middle + b) else after == middle && !done
    ensures before <= after <= before + a + b && (done ==> after == before + a + b)
  {
    assert before + a <= before + a + b;
  }

  class HoldBack {
    const buf: array<byte>
    var n: nat
    var dst: Sink?
    var err: Error
    ghost var base: seq<byte>     // what the destination held at the reset
    ghost var written: seq<byte>  // all that was written since

    ghost predicate Valid()
      reads this, buf, dst
    {
      && buf.Length == 4
      && (err == Ok || err == WriteFailed)
      && (err == Ok ==> n == |Held(written)| && buf[..] == Buffered(written))
      && (dst != null && err == Ok ==> dst.contents == base + Passed(written))
      && (dst != null ==> base <= dst.contents <= base + written)
    }

    constructor ()
      ensures Valid() && dst == null && fresh(buf)
    {
      buf := new byte[4](i => 0);
      n, dst, err, base, written := 0, null, Ok, [], [];
      new;
      assert buf[..] == Zeros(4);
    }

    method Reset(dst: Sink?)
      requires buf.Length == 4
      modifies this, buf
      ensures Valid() && this.dst == dst && err == Ok && written == []
      ensures dst != null ==> base == dst.contents
    {
      n, err, this.dst := 0, Ok, dst;
      written := [];
      base := if dst != null then dst.contents else [];
      forall i | 0 <= i < 4 {
        buf[i] := 0;
      }
      assert buf[..] == Zeros(4) == Buffered([]);
    }

    /** Passes `p` on unless an earlier write failed. */
    method Flush(p: seq<byte>)
      requires dst != null && (err == Ok || err == WriteFailed)
      modifies `err, dst
      ensures err == old(err) || (err == WriteFailed && dst.faulty)
      ensures err == Ok ==> old(err) == Ok && dst.contents == old(dst.contents) + p
      ensures old(err) != Ok ==> err == old(err) && dst.contents == old(dst.contents)
      ensures old(dst.contents) <= dst.contents <= old(dst.contents) + p
    {
      if err == Ok {
        err := dst.Write(p);
      }
    }

    /** `copy(buf[:], buf[x:])` */
    method Shift(x: nat)
      requires buf.Length == 4 && x <= 4
      modifies buf
      ensures buf[..4 - x] == old(buf[x..]) && buf[4 - x..] == old(buf[4 - x..])
    {
      forall i | 0 <= i < 4 - x {
        buf[i] := buf[i + x];
      }
    }

    /** `copy(buf[n:], tail)` */
    method Fill(n: nat, tail: seq<byte>)
      requires buf.Length == 4 && n + |tail| <= 4
      modifies buf
      ensures buf[..] == old(buf[..n]) + tail + old(buf[n + |tail|..])
    {
      forall i | 0 <= i < |tail| {
        buf[n + i] := tail[i];
      }
    }

    /** Passes on the first `x` bytes held and then `head`, and moves the other bytes to the front. */
    method PassOn(x: nat, head: seq<byte>)
      requires buf.Length == 4 && x <= n && x <= 4 && dst != null && err == Ok
      modifies `n, `err, dst, buf
      ensures n == old(n) - x && (err == Ok || (err == WriteFailed && dst.faulty))
      ensures err == Ok ==> dst.contents == old(dst.contents) + old(buf[..x]) + head
      ensures old(dst.contents) <= dst.contents <= old(dst.contents) + old(buf[..x]) + head
      ensures buf[..4 - x] == old(buf[x..]) && (x == 0 ==> buf[..] == old(buf[..]))
    {
      ghost var before, first := dst.contents, buf[..x];
      if x > 0 {
        Flush(buf[..x]);
        Shift(x);
        n := n - x;
      }
      ghost var middle, ok := dst.contents, err == Ok;
      assert x == 0 ==> first == [] && before + first == before;
      if |head| > 0 {
        Flush(head);
      }
      assert head == [] ==> middle + head == middle;
      TwoParts(before, first, head, middle, dst.contents, ok, err == Ok);
    }

    /** Passes on `x` held bytes and `head`, and puts `tail` behind the bytes that stay. */
    method Store(x: nat, head: seq<byte>, tail: seq<byte>) returns (ghost shifted: seq<byte>)
      requires buf.Length == 4 && x <= n <= 4 && n - x + |tail| <= 4 && dst != null && err == Ok
      modifies `n, `err, dst, buf
      ensures n == old(n) - x + |tail| && (err == Ok || (err == WriteFailed && dst.faulty))
      ensures err == Ok ==> dst.contents == old(dst.contents) + old(buf[..])[..x] + head
      ensures old(dst.contents) <= dst.contents <= old(dst.contents) + old(buf[..])[..x] + head
      ensures |shifted| == 4 && shifted[..4 - x] == old(buf[..])[x..] && (x == 0 ==> shifted == old(buf[..]))
      ensures buf[..] == shifted[..old(n) - x] + tail + shifted[n..]
    {
      assert buf[..x] == buf[..][..x] && buf[x..] == buf[..][x..];
      PassOn(x, head);
      shifted := buf[..];
      assert buf[..4 - x] == shifted[..4 - x] && buf[..n] == shifted[..n] && buf[n + |tail|..] == shifted[n + |tail|..];
      Fill(n, tail);
      n := Min(n + |tail|, 4);
    }

    /**
      Writes `p`: passes on whatever can no longer be among the last four bytes. After an error
      nothing more is taken.
    */
    method Write(p: seq<byte>) returns (count: nat, e: Error)
      requires Valid() && dst != null
      modifies this, buf, dst
      ensures Valid() && dst == old(dst) && e == err && base == old(base)
      ensures old(err) != Ok ==>
                count == 0 && err == old(err) && dst.contents == old(dst.contents) && written == old(written)
      ensures old(err) == Ok ==> count == |p| && written == old(written) + p && (err == Ok || dst.faulty)
    {
      if err != Ok {
        return 0, err;
      }
      ghost var w := written;
      var head, tail := HeadOf(p), TailOf(p);
      var x := if n + |tail| > 4 then n + |tail| - 4 else 0;
      assert x == Leaving(w, p) && n == |Held(w)| && buf[..] == Buffered(w);
      assert Buffered(w)[..x] == Held(w)[..x];
      ghost var shifted := Store(x, head, tail);
      PassedMoves(base, w, p, dst.contents, err == Ok);
      BufferMoves(w, p, shifted, buf[..]);
      written := w + p;
      count, e := |p|, err;
    }
  }

  // ----- appending four bytes -----

  lemma TakeFront(a: seq<byte>, b: seq<byte>, n: nat)
    requires n <= |a|
    ensures (a + b)[..n] == a[..n] && (a + b)[n..] == a[n..] + b
  {
  }

  /** Reads its source to the end and then the tail. */
  class SuffixedReader {
    var r: Source?
    var pos: nat

    ghost predicate Valid()
      reads this, r
    {
      pos <= 4 && (r != null ==> r.Valid() && pos == 0)
    }

    /** What is still to come. */
    ghost function Remaining(): seq<byte>
      requires Valid()
      reads this, r
    {
      if r == null then TAIL[pos..] else r.Rest() + TAIL
    }

    constructor (src: Source?)
      requires src != null ==> src.Valid()
      ensures Valid() && r == src && Remaining() == (if src == null then [] else src.Rest()) + TAIL
    {
      r, pos := src, 0;
      new;
      assert TAIL[0..] == TAIL;
    }

    method Reset(src: Source?)
      requires src != null ==> src.Valid()
      modifies this
      ensures Valid() && r == src && Remaining() == (if src == null then [] else src.Rest()) + TAIL
    {
      r, pos := src, 0;
      assert TAIL[0..] == TAIL;
    }

    /** Takes a front part of what remains. The end of the source itself is not an end of file. */
    method Read(p: array<byte>) returns (n: nat, err: Error)
      requires Valid()
      modifies this, r, p
      ensures Valid() && (r == old(r) || r == null) && n <= p.Length
      ensures n <= |old(Remaining())| && p[..n] == old(Remaining())[..n] && Remaining() == old(Remaining())[n..]
      ensures err == Ok || err == Eof
      ensures err == Eof ==> n == 0 && old(Remaining()) == []
      ensures p.Length > 0 && err == Ok ==> n > 0 || (old(r) != null && r == null)
    {
      if r != null {
        ghost var rest := r.Rest();
        n, err := r.Read(p, 0, p.Length);
        TakeFront(rest, TAIL, n);
        assert p[..n] == p[0..0 + n] == rest[..n] && r.Rest() == rest[n..];
        if err == Eof {
          err := Ok;
          r := null;
          assert rest[n..] + TAIL == TAIL == TAIL[0..];
        }
        return;
      }
      if pos >= 4 {
        return 0, Eof;
      }
      n, err := Min(p.Length, 4 - pos), Ok;
      forall i | 0 <= i < n {
        p[i] := TAIL[pos + i];
      }
      pos := pos + n;
    }
  }

  /** Reads a suffixed reader to its end of file, with buffers of any sizes. */
  method ReadAll(sr: SuffixedReader) returns (all: seq<byte>)
    requires sr.Valid()
    modifies sr, sr.r
    ensures all == old(sr.Remaining())
    ensures old(sr.r) != null ==> all == old(sr.r.Rest()) + [0, 0, 0xff, 0xff]
  {
    all := [];
    var err := Ok;
    while err == Ok
      invariant sr.Valid() && (sr.r == old(sr.r) || sr.r == null)
      invariant all + sr.Remaining() == old(sr.Remaining())
      invariant err == Ok || (err == Eof && sr.Remaining() == [])
      decreases |sr.Remaining()|, if sr.r == null then 0 else 1, if err == Ok then 1 else 0
    {
      var size: nat :| size > 0;
      var buffer := new byte[size];
      ghost var rest := sr.Remaining();
      var n;
      n, err := sr.Read(buffer);
      ChunkMoved(all, rest, n);
      all := all + buffer[..n];
    }
  }

  // ----- the compressor -----

  /**
    A compressor: the chunks it writes for one more piece of input, or for a flush, given the input
    it was fed since its last reset; and what inflating a byte string gives.
  */
  datatype Codec = Codec(
    onWrite: (seq<seq<byte>>, seq<byte>) -> seq<seq<byte>>,
    onFlush: seq<seq<byte>> -> seq<seq<byte>>,
    inflate: seq<byte> -> seq<byte>)

  /** All that a fresh compressor writes for one message. */
  function Deflated(codec: Codec, p: seq<byte>): seq<byte> {
    Concat(codec.onWrite([], p)) + Concat(codec.onFlush([p]))
  }

  /** A sync flush ends in the tail, and inflating gives the message back. */
  predicate Lawful(codec: Codec, p: seq<byte>) {
    var d := Deflated(codec, p);
    EndsInTail(d) && codec.inflate(d) == p
  }

  lemma EmitStep(w: seq<byte>, chunks: seq<seq<byte>>, i: nat)
    requires i < |chunks|
    ensures w + Concat(chunks[..i]) + chunks[i] == w + Concat(chunks[..i + 1])
  {
    assert chunks[..i + 1] == chunks[..i] + [chunks[i]];
    ConcatSnoc(chunks[..i], chunks[i]);
  }

  class FlateWriter {
    const codec: Codec
    const cbuf: HoldBack
    var fed: seq<seq<byte>>  // the state of the compressor
    var err: Error

    ghost predicate Valid()
      reads this, cbuf, cbuf.buf, cbuf.dst
    {
      cbuf.Valid()
    }

    constructor (codec: Codec)
      ensures Valid() && this.codec == codec && cbuf.dst == null && fresh(cbuf) && fresh(cbuf.buf)
    {
      this.codec := codec;
      cbuf := new HoldBack();
      fed, err := [], Ok;
    }

    /** Forgets the message before, and any error. */
    method Reset(dst: Sink?)
      requires cbuf.buf.Length == 4
      modifies this, cbuf, cbuf.buf
      ensures Valid() && err == Ok && fed == []
      ensures cbuf.dst == dst && cbuf.err == Ok && cbuf.written == []
      ensures dst != null ==> cbuf.base == dst.contents
    {
      err := Ok;
      cbuf.Reset(dst);
      fed := [];
    }

    /** All is well, and `written` has been compressed into `dst` since the reset. */
    ghost predicate Writing(dst: Sink?, base: seq<byte>, written: seq<byte>)
      reads cbuf, cbuf.buf, cbuf.dst
    {
      cbuf.Valid() && cbuf.err == Ok && cbuf.dst == dst && cbuf.base == base && cbuf.written == written
    }

    /** The compressor writes `chunks`, stopping at an error. */
    method Emit(chunks: seq<seq<byte>>) returns (e: Error)
      requires Valid() && cbuf.dst != null && cbuf.err == Ok
      modifies cbuf, cbuf.buf, cbuf.dst
      ensures Valid() && cbuf.dst == old(cbuf.dst) && cbuf.base == old(cbuf.base) && e == cbuf.err
      ensures e == Ok ==> Writing(old(cbuf.dst), old(cbuf.base), old(cbuf.written) + Concat(chunks))
      ensures e == Ok || cbuf.dst.faulty
    {
      e := Ok;
      ghost var d, b, w := cbuf.dst, cbuf.base, cbuf.written;
      assert w + Concat([]) == w;
      for i := 0 to |chunks|
        invariant e == Ok && Writing(d, b, w + Concat(chunks[..i]))
      {
        var count;
        count, e := cbuf.Write(chunks[i]);
        EmitStep(w, chunks, i);
        if e != Ok {
          return;
        }
      }
      assert chunks[..|chunks|] == chunks;
    }

    method Write(p: seq<byte>) returns (n: nat, e: Error)
      requires Valid() && cbuf.dst != null && (err == Ok ==> cbuf.err == Ok)
      modifies this, cbuf, cbuf.buf, cbuf.dst
      ensures Valid() && cbuf.dst == old(cbuf.dst) && cbuf.base == old(cbuf.base) && e == err
      ensures old(err) != Ok ==> err == old(err) && n == 0 && cbuf.written == old(cbuf.written)
      ensures old(err) == Ok ==> err == Ok || cbuf.dst.faulty
      ensures err == Ok ==>
                && cbuf.err == Ok && fed == old(fed) + [p] && n == |p|
                && cbuf.written == old(cbuf.written) + Concat(codec.onWrite(old(fed), p))
    {
      if err != Ok {
        return 0, err;
      }
      e := Emit(codec.onWrite(fed, p));
      n := |p|;
      fed := fed + [p];
      err := e;
    }

    /** Flushes the compressor and checks that the bytes held back are the tail. */
    method Flush() returns (e: Error)
      requires Valid() && cbuf.dst != null && (err == Ok ==> cbuf.err == Ok)
      modifies this, cbuf, cbuf.buf, cbuf.dst
      ensures Valid() && cbuf.dst == old(cbuf.dst) && cbuf.base == old(cbuf.base) && e == err
      ensures old(err) != Ok ==> err == old(err)
      ensures var w := old(cbuf.written) + Concat(codec.onFlush(old(fed)));
              && (err == Ok ==> EndsInTail(w) && cbuf.written == w && cbuf.dst.contents == cbuf.base + Passed(w))
              && (err == Ok ==> w == Passed(w) + [0, 0, 0xff, 0xff])
              && (old(err) == Ok && EndsInTail(w) ==> err == Ok || cbuf.dst.faulty)
    {
      if err != Ok {
        return err;
      }
      err := Emit(codec.onFlush(fed));
      CheckTail();
      e := err;
      if err == Ok {
        StripThenAppend(cbuf.written);
      }
    }

    method CheckTail()
      requires Valid() && (err == Ok ==> cbuf.err == Ok)
      modifies `err
      ensures err == Ok <==> old(err) == Ok && EndsInTail(cbuf.written)
      ensures old(err) != Ok ==> err == old(err)
    {
      TailCheckExact(cbuf.written);
      if err == Ok && cbuf.buf[..] != TAIL {
        err := Flate;
      }
    }
  }

  /** Stripping the tail and appending it again are inverse. */
  lemma StripThenAppend(w: seq<byte>)
    requires EndsInTail(w)
    ensures Passed(w) + TAIL == Passed(w) + [0, 0, 0xff, 0xff] == w
  {
    HeldAndPassed(w);
  }

  /**
    Whatever the chunks in which a compressor writes its output, and in which the reader takes it: what
    was held back is appended again.
  */
  method StripAndRestore(chunks: seq<seq<byte>>) returns (all: seq<byte>)
    requires EndsInTail(Concat(chunks))
    ensures all == Concat(chunks)
  {
    var sink := new Sink(false);
    var cbuf := new HoldBack();
    cbuf.Reset(sink);
    assert [] + Concat<byte>([]) == [];
    for i := 0 to |chunks|
      invariant cbuf.Valid() && cbuf.dst == sink && cbuf.err == Ok && cbuf.base == []
      invariant cbuf.written == [] + Concat(chunks[..i])
    {
      var _, _ := cbuf.Write(chunks[i]);
      EmitStep([], chunks, i);
    }
    assert chunks[..|chunks|] == chunks;
    var source := new Source(sink.contents);
    var sr := new SuffixedReader(source);
    StripThenAppend(Concat(chunks));
    all := ReadAll(sr);
    assert all == ([] + Passed([] + Concat(chunks))) + TAIL;
    assert [] + Concat(chunks) == Concat(chunks);
  }
}
