/**
  Messages on the wire, some of them compressed, and a receiver that reads the frames, unmasks them, and
  inflates those that are marked.
*/
module Compression {
  import opened Bytes
  import opened Deflate
  import opened Errors
  import opened Framing
  import opened Header
  import opened HeaderIO
  import opened Masking
  import opened Outbound
  import opened Streams

  // ----- what the frames of a stream mean -----

  /** The message in a final data frame; RSV1 marks a compressed one. */
  function MessageIn(codec: Codec, h: Head, body: seq<byte>): seq<byte> {
    if h.rsv >= 4 then codec.inflate(Unmask(h, body) + TAIL) else Unmask(h, body)
  }

  /** The messages of a stream of final data frames, up to the first that is not whole. */
  function MessagesIn(codec: Codec, s: seq<byte>): seq<seq<byte>>
    decreases |s|
  {
    match ParseHeader(s)
    case Bad(_) => []
    case Parsed(h, k) =>
      if |s| < k + h.length then []
      else [MessageIn(codec, h, s[k..k + h.length])] + MessagesIn(codec, s[k + h.length..])
  }

  lemma Slices(a: seq<byte>, b: seq<byte>, c: seq<byte>)
    ensures var s := (a + b) + c;
            s == a + (b + c) && s[|a|..|a| + |b|] == b && s[|a| + |b|..] == c
  {
  }

  /** `r` is what is written for `m`, and the codec is lawful if it is needed. */
  predicate Readable(w: MessageWriter, m: seq<byte>, r: Record) {
    w.Writes(m, r) && (w.Compresses(|m|) ==> Lawful(w.codec, m))
  }

  /** What is written for `m` reads as `m`, whatever follows. */
  lemma FrameMeans(w: MessageWriter, m: seq<byte>, r: Record, t: seq<byte>)
    requires w.opCode == OP_TEXT || w.opCode == OP_BINARY
    requires Readable(w, m, r)
    ensures var frame := FrameBytes(w.client, w.opCode, r.mask, r.payload, r.compressed);
            |frame| >= 2 && MessagesIn(w.codec, frame + t) == [m] + MessagesIn(w.codec, t)
  {
    var h := DataHead(w.client, w.opCode, true, r.mask, |r.payload|, r.compressed);
    var body := OnTheWire(w.client, r.mask, r.payload);
    var k := |HeaderBytes(h)|;
    var s := FrameBytes(w.client, w.opCode, r.mask, r.payload, r.compressed) + t;
    Slices(HeaderBytes(h), body, t);
    HeaderRoundTrip(h, body + t);
    MaskedTwice(r.payload, r.mask, 0);
  }

  /** The frames of any messages, compressed or not, read as these messages. */
  lemma {:induction false} FramesMean(w: MessageWriter, messages: seq<seq<byte>>, rs: seq<Record>)
    requires w.opCode == OP_TEXT || w.opCode == OP_BINARY
    requires |rs| == |messages| && Sized(rs)
    requires forall i :: 0 <= i < |rs| ==> Readable(w, messages[i], rs[i])
    ensures MessagesIn(w.codec, FramesOf(w.client, w.opCode, rs)) == messages
    decreases |rs|
  {
    if rs != [] {
      FramesMean(w, messages[1..], rs[1..]);
      assert Readable(w, messages[0], rs[0]);
      FrameMeans(w, messages[0], rs[0], FramesOf(w.client, w.opCode, rs[1..]));
      assert [messages[0]] + messages[1..] == messages;
    }
  }

  // ----- the receiver -----

  /**
    Inflates one payload. The suffixed reader is reused: whatever it read before, and however far, is
    forgotten.
  */
  method Inflate(codec: Codec, sr: SuffixedReader, payload: seq<byte>) returns (m: seq<byte>)
    modifies sr
    ensures m == codec.inflate(payload + TAIL)
  {
    var source := new Source(payload);
    sr.Reset(source);
    assert source.Rest() == payload;
    var all := ReadAll(sr);
    m := codec.inflate(all);
  }

  /** Reads the payload of `h`, unmasks it in place, and inflates it if it is compressed. */
  method TakeMessage(codec: Codec, sr: SuffixedReader, source: Source, h: Head) returns (m: seq<byte>, err: Error)
    requires source.Valid() && h.rsv < 8
    modifies source, sr
    ensures source.Valid() && source.pos >= old(source.pos)
    ensures err == Ok <==> h.length <= |old(source.Rest())|
    ensures err == Ok ==>
              && m == MessageIn(codec, h, old(source.Rest())[..h.length])
              && source.Rest() == old(source.Rest())[h.length..]
              && var body := Unmask(h, old(source.Rest())[..h.length]);
                 m == if h.rsv / 4 == 1 then codec.inflate(body + [0, 0, 0xff, 0xff]) else body
  {
    ghost var s := source.Rest();
    var p := new byte[h.length];
    var n;
    n, err := source.ReadFull(p, 0, p.Length);
    m := [];
    if err == Ok {
      assert p[..] == p[0..p.Length] == s[..h.length];
      if h.masked {
        FastCipher(p, 0, p.Length, h.mask, 0);
        assert p[..] == p[0..p.Length];
      }
      m := p[..];
      if h.rsv >= 4 {
        m := Inflate(codec, sr, m);
      }
    }
  }

  /** Reads a stream of frames to its end, or to a frame that is not whole. */
  method ReadFrames(codec: Codec, sr: SuffixedReader, stream: seq<byte>) returns (messages: seq<seq<byte>>)
    modifies sr
    ensures messages == MessagesIn(codec, stream)
  {
    var source := new Source(stream);
    var bts := new byte[MAX_HEADER_SIZE];
    var err := Ok;
    messages := [];
    assert source.Rest() == stream;
    while err == Ok
      invariant fresh(source) && source.Valid() && bts.Length == MAX_HEADER_SIZE
      invariant if err == Ok then messages + MessagesIn(codec, source.Rest()) == MessagesIn(codec, stream)
                else messages == MessagesIn(codec, stream)
      decreases err == Ok, |source.data| - source.pos
    {
      ghost var s := source.Rest();
      var h, m;
      h, err := ReadHeader(source, bts);
      if err == Ok {
        ghost var k := ParseHeader(s).size;
        ParsedIsValid(s);
        assert source.Rest() == s[k..];
        m, err := TakeMessage(codec, sr, source, h);
        if err == Ok {
          NextMessage(codec, s, messages);
          messages := messages + [m];
        }
      }
    }
  }

  /** One message is taken off the front of `s`. */
  lemma NextMessage(codec: Codec, s: seq<byte>, messages: seq<seq<byte>>)
    requires ParseHeader(s).Parsed? && ParseHeader(s).size + ParseHeader(s).h.length <= |s|
    ensures var h, k := ParseHeader(s).h, ParseHeader(s).size;
            && s[k..][..h.length] == s[k..k + h.length] && s[k..][h.length..] == s[k + h.length..]
            && messages + MessagesIn(codec, s) ==
               messages + [MessageIn(codec, h, s[k..k + h.length])] + MessagesIn(codec, s[k + h.length..])
  {
  }

  // ----- both -----

  /**
    Messages that are written one after the other with `Write`, compressed or not by the threshold, through the
    persistent compressor or one from the pool, masked or not, and then taken off the wire again: every one comes
    back as itself. The states in which the compressors and the reader start, sticky errors among them, do not
    matter.
  */
  method SendAndInflate(w: MessageWriter, pooled: FlateWriter, sr: SuffixedReader, messages: seq<seq<byte>>,
                        ghost id: nat)
    returns (ok: bool, recovered: seq<seq<byte>>)
    requires w.Valid() && w.connection.sent == [] && !w.connection.held
    requires pooled.codec == w.codec && pooled.cbuf.buf.Length == 4
    requires forall m :: m in messages ==> w.Writable(m) && (w.Compresses(|m|) ==> Lawful(w.codec, m))
    modifies w.Repr(), pooled, pooled.cbuf, pooled.cbuf.buf, sr
    ensures ok || w.connection.faulty
    ensures ok ==> recovered == messages
  {
    var size, err;
    ghost var rs;
    size, err, rs := w.Writev(messages, pooled, id);
    ok, recovered := err == Ok, [];
    if ok {
      assert [] + FramesOf(w.client, w.opCode, rs) == FramesOf(w.client, w.opCode, rs);
      forall i | 0 <= i < |rs|
        ensures Readable(w, messages[i], rs[i])
      {
        assert messages[i] in messages;
      }
      FramesMean(w, messages, rs);
      recovered := ReadFrames(w.codec, sr, w.connection.sent);
    }
  }
}
