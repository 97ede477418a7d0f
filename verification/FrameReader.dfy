/**
  The framing state machine: one header at a time from the source, a stack of readers for the
  payload of the open frame, and the state that lasts over the fragments of a message.
*/
module FrameReader {
  import opened Bytes
  import opened Errors
  import opened Framing
  import opened Header
  import opened HeaderIO
  import opened Semantics
  import opened Streams

  /** Position `b` of `data` is reached from `from` by hopping over whole frames; the last may overshoot. */
  ghost predicate Boundary(data: seq<byte>, from: nat, b: nat)
    decreases |data| - from
  {
    b == from ||
    (from <= |data| &&
     match ParseHeader(data[from..])
     case Bad(_) => false
     case Parsed(h, k) => Boundary(data, from + k + h.length, b))
  }

  lemma {:induction false} BoundaryNext(data: seq<byte>, from: nat, b: nat)
    requires Boundary(data, from, b) && b <= |data| && ParseHeader(data[b..]).Parsed?
    ensures var p := ParseHeader(data[b..]);
            Boundary(data, from, b + p.size + p.h.length)
    decreases |data| - from
  {
    if b != from {
      var p := ParseHeader(data[from..]);
      BoundaryNext(data, from + p.size + p.h.length, b);
    }
  }

  /** The payload of `h` as a window on the source, and as a part of what is left of it. */
  lemma PayloadWindow(h: Head, data: seq<byte>, pos: nat)
    requires pos <= |data|
    ensures data[pos..Min(pos + h.length, |data|)] == Front(h, data[pos..])
    ensures data[Min(pos + h.length, |data|)..] == Behind(h, data[pos..])
  {
  }

  /** The answers written so far by the control handler. */
  class Answerer {
    var sent: seq<Reply>

    constructor ()
      ensures sent == []
    {
      sent := [];
    }

    method Answer(r: Reply)
      modifies this
      ensures sent == old(sent) + [r]
    {
      sent := sent + [r];
    }

    /**
      A ping is answered with a pong that carries `body`, what arrived of its payload; a pong is dropped. The
      control writer is written to only if there is something, and flushes only if it was written to.
    */
    method AnswerPing(h: Head, body: seq<byte>)
      modifies this
      ensures sent == old(sent) + PingReplies(h, body)
      ensures |body| == h.length && h.opCode == OP_PING ==> sent == old(sent) + [Pong(body)]
    {
      if h.opCode == OP_PING {
        if h.length == 0 {
          Answer(Pong(body));
        } else {
          var dirty := body != [];
          if dirty {
            Answer(Pong(body));
          }
        }
      }
    }

    /** A close frame is answered, and the answer is always followed by an error. */
    method AnswerClose(c: Config, body: seq<byte>) returns (err: Error)
      modifies this
      ensures sent == old(sent) + [CloseReply(c, body)]
      ensures err == CloseError(c, body) && err != Ok
    {
      if body == [] {
        Answer(CloseEmpty);
        err := Closed(1005);
      } else if |body| >= 2 && c.closeOk(body) {
        Answer(CloseEcho(body[..2]));
        err := Closed(FromBigEndian(body[..2]));
      } else {
        Answer(CloseProtocolError);
        err := BadCloseData;
      }
    }
  }

  /**
    The stack of readers that `frame` denotes: the limited reader at the bottom, then the
    unmasking, the inflating and the UTF-8 checking reader, each there or not.
  */
  datatype Layers = NoFrame | Layered(masked: bool, flate: bool, utf8: bool)

  class Reader {
    const c: Config
    const source: Source
    const out: Answerer
    const raw: LimitedReader
    const headerBuff: array<byte>
    ghost const start: nat
    ghost var frameEnd: nat  // where the open frame, or the last one, stops in the source
    var fragmented: bool
    var frame: Layers
    var opCode: nat
    var utf8State: int
    var utf8Accepted: nat
    var cipher: CipherReader?

    ghost function Repr(): set<object>
      reads this
    {
      {this, source, out, raw, headerBuff} + (if cipher == null then {} else {cipher})
    }

    ghost predicate Valid()
      reads this, source, raw, cipher
    {
      Wired() && InSync()
    }

    /** The readers are connected to the source, those of the open frame included. */
    ghost predicate Wired()
      reads `cipher, `frame, source, raw, cipher
    {
      && source.Valid()
      && (raw.r == null || raw.r == source)
      && (raw.n > 0 ==> raw.r == source)
      && headerBuff.Length == MAX_HEADER_SIZE
      && (cipher != null ==> cipher.pos < 4)
      && (frame.Layered? ==> Stacked(frame.masked))
    }

    /**
      The open frame, or the last one, stops at a frame boundary, and it is there that the source position and
      the rest of the frame lead. They fall short of it only at the end of a stream that stops inside the frame.
    */
    ghost predicate InSync()
      requires source.Valid()
      reads `frameEnd, source, raw
    {
      && Boundary(source.data, start, frameEnd)
      && source.pos + raw.n <= frameEnd
      && (Exhausted() || source.pos + raw.n == frameEnd)
    }

    ghost predicate Exhausted()
      reads source
    {
      source.pos == |source.data|
    }

    /** No payload is left over in front of the next header. */
    ghost predicate Settled()
      reads source, raw
    {
      raw.n == 0 || Exhausted()
    }

    /** The limited reader, under the unmasking reader if `masked`, stands on the source. */
    ghost predicate Stacked(masked: bool)
      reads `cipher, source, raw, cipher
    {
      && source.Valid()
      && raw.r == source
      && (cipher != null ==> cipher.pos < 4)
      && (masked ==> cipher != null && cipher.r == raw)
    }

    /** The bytes of the open frame still to come, unmasked if `masked`. */
    ghost function Plain(masked: bool): (s: seq<byte>)
      requires Stacked(masked)
      reads `cipher, source, raw, cipher
      ensures |s| == |raw.Avail()|
    {
      if masked then cipher.Plain() else raw.Avail()
    }

    /** All of the open frame is there. */
    ghost predicate Complete()
      requires source.Valid()
      reads source, raw
    {
      source.pos + raw.n <= |source.data|
    }

    /** What follows the open frame. */
    ghost function After(): seq<byte>
      requires source.Valid()
      reads source, raw
    {
      source.data[Min(source.pos + raw.n, |source.data|)..]
    }

    /**
      In front of the next header nothing is left over and the position is at a frame boundary, if and only if
      the stream holds all of the frame before; otherwise the stream is at its end.
    */
    lemma AtBoundary()
      requires Valid() && Settled()
      ensures raw.n == 0 && source.pos == frameEnd <==> frameEnd <= |source.data|
      ensures frameEnd > |source.data| ==> Exhausted()
      ensures frameEnd <= |source.data| ==> Boundary(source.data, start, source.pos)
    {
    }

    constructor (c: Config, source: Source, out: Answerer)
      requires source.Valid()
      ensures Valid() && fresh(raw) && fresh(headerBuff) && cipher == null
      ensures this.c == c && this.source == source && this.out == out
      ensures !fragmented && frame == NoFrame && utf8State == ACCEPT && raw.n == 0
    {
      this.c, this.source, this.out := c, source, out;
      raw := new LimitedReader();
      headerBuff := new byte[MAX_HEADER_SIZE];
      start, frameEnd := source.pos, source.pos;
      fragmented, frame, opCode := false, NoFrame, 0;
      utf8State, utf8Accepted, cipher := ACCEPT, 0, null;
    }

    /** Reads payload below the inflating and checking layers. */
    method ReadPlain(masked: bool, p: array<byte>, lo: nat, hi: nat) returns (n: nat, err: Error)
      requires Stacked(masked) && lo <= hi <= p.Length
      modifies source, raw, cipher, p
      ensures Stacked(masked)
      ensures source.pos == old(source.pos) + n && raw.n == old(raw.n) - n && lo + n <= hi
      ensures p[..lo] == old(p[..lo])
      ensures n <= |old(Plain(masked))| && p[lo..lo + n] == old(Plain(masked))[..n]
      ensures Plain(masked) == old(Plain(masked))[n..]
      ensures err == Ok || (err == Eof && n == 0 && Settled())
      ensures old(raw.n) == 0 ==> err == Eof
      ensures lo < hi && err == Ok ==> n > 0
      ensures cipher != null ==> cipher.r == old(cipher.r)
    {
      if masked {
        n, err := cipher.Read(p, lo, hi);
      } else {
        n, err := raw.Read(p, lo, hi);
      }
    }

    /** Reads the open control frame to its end, or to the end of the source. */
    method CopyPlain(masked: bool) returns (body: seq<byte>)
      requires Stacked(masked)
      modifies source, raw, cipher
      ensures Stacked(masked) && Settled()
      ensures source.pos + raw.n == old(source.pos + raw.n) && source.pos >= old(source.pos)
      ensures body == old(Plain(masked))
      ensures cipher != null ==> cipher.r == old(cipher.r)
    {
      body := [];
      var buffer := new byte[512];
      var err := Ok;
      while err == Ok
        invariant Stacked(masked)
        invariant source.pos + raw.n == old(source.pos + raw.n) && source.pos >= old(source.pos)
        invariant body + Plain(masked) == old(Plain(masked))
        invariant err == Ok || Settled()
        invariant cipher != null ==> cipher.r == old(cipher.r)
        decreases raw.n, if err == Ok then 1 else 0
      {
        ghost var rest := Plain(masked);
        var n;
        n, err := ReadPlain(masked, buffer, 0, buffer.Length);
        ChunkMoved(body, rest, n);
        body := body + buffer[0..0 + n];
      }
      assert Plain(masked) == [];
    }

    /** The control handler on a frame that arrived inside a fragmented message. */
    method HandleIntermediate(h: Head) returns (err: Error)
      requires Stacked(h.masked) && raw.n == h.length
      modifies source, raw, cipher, out
      ensures Stacked(h.masked) && Settled()
      ensures source.pos + raw.n == old(source.pos + raw.n) && source.pos >= old(source.pos)
      ensures h.opCode == OP_CLOSE ==>
                var body := old(Plain(h.masked));
                if |body| < h.length
                then err == (if body == [] then Eof else UnexpectedEof) && out.sent == old(out.sent)
                else err == CloseError(c, body) && out.sent == old(out.sent) + [CloseReply(c, body)]
      ensures h.opCode != OP_CLOSE ==>
                err == Ok && out.sent == old(out.sent) + PingReplies(h, old(Plain(h.masked)))
      ensures cipher != null ==> cipher.r == old(cipher.r)
    {
      err := Ok;
      var body := CopyPlain(h.masked);
      if h.opCode == OP_CLOSE {
        if |body| < h.length {
          err := if body == [] then Eof else UnexpectedEof;
        } else {
          err := out.AnswerClose(c, body);
        }
      } else {
        out.AnswerPing(h, body);
      }
    }

    /** `NextFrame` opened the data frame with header `h`, of which `t` was to come. */
    ghost predicate Opened(h: Head, t: seq<byte>, opCode: nat)
      reads this, source, raw, cipher
    {
      && frame == Layered(h.masked, Compressed(h), c.checkUtf8 && opCode == OP_TEXT)
      && this.opCode == opCode
      && fragmented == !h.fin
      && AtPayload(h, t)
    }

    /** The readers stand in front of the payload of `h`, of which `t` is to come. */
    ghost predicate AtPayload(h: Head, t: seq<byte>)
      reads `cipher, source, raw, cipher
    {
      && Stacked(h.masked)
      && source.Rest() == t
      && raw.n == h.length
      && Plain(h.masked) == Unmask(h, Front(h, t))
      && Complete() == (h.length <= |t|)
      && After() == Behind(h, t)
    }

    /** Points the limited reader, and the unmasking one if it is needed, at the payload of `h`. */
    method Stack(h: Head, ghost end: nat)
      requires source.Valid() && (cipher != null ==> cipher.pos < 4)
      modifies `cipher, `frameEnd, raw, cipher
      ensures cipher == old(cipher) || fresh(cipher)
      ensures frameEnd == end
      ensures AtPayload(h, source.Rest())
      ensures old(Wired()) ==> Wired()
    {
      raw.Reset(source, h.length);
      frameEnd := end;
      if h.masked {
        StackCipher(h.mask);
      }
      PayloadThere(h);
    }

    lemma PayloadThere(h: Head)
      requires Stacked(h.masked) && raw.n == h.length
      requires h.masked ==> cipher.m == h.mask && cipher.pos == 0
      ensures AtPayload(h, source.Rest())
    {
      PayloadWindow(h, source.data, source.pos);
    }

    /** The unmasking reader, a new one unless there is one already, starts with `mask` on the limited reader. */
    method StackCipher(mask: Mask)
      modifies `cipher, cipher
      ensures cipher == old(cipher) || fresh(cipher)
      ensures cipher != null && cipher.r == raw && cipher.m == mask && cipher.pos == 0
    {
      if cipher == null {
        cipher := new CipherReader(raw, mask);
      } else {
        cipher.Reset(raw, mask);
      }
    }

    /** What the control handler did with the frame `h` inside a fragmented message. */
    ghost predicate Intermediate(h: Head, t: seq<byte>, sent: seq<Reply>, err: Error)
      reads source, raw, out
    {
      var body := Unmask(h, Front(h, t));
      if h.opCode == OP_CLOSE then
        if |body| < h.length
        then err == (if body == [] then Eof else UnexpectedEof) && out.sent == sent
        else err == CloseError(c, body) && out.sent == sent + [CloseReply(c, body)]
      else
        && err == Ok
        && out.sent == sent + PingReplies(h, body)
        && raw.n == h.length - |body|
        && source.Valid() && source.Rest() == Behind(h, t)
        && Settled()
    }

    method Interrupt(h: Head, ghost t: seq<byte>) returns (err: Error)
      requires AtPayload(h, t)
      modifies source, raw, cipher, out
      ensures Intermediate(h, t, old(out.sent), err)
      ensures Stacked(h.masked) && (err == Ok || err == Eof ==> Settled())
      ensures source.pos + raw.n == old(source.pos + raw.n) && (err == Eof ==> Exhausted())
      ensures source.pos >= old(source.pos)
      ensures old(Wired()) ==> Wired()
    {
      err := HandleIntermediate(h);
      if err == Ok {
        raw.Drain();
        assert source.Rest() == Behind(h, t);
      }
    }

    /** The header checks that come before the payload readers are set up. */
    method TakeHeader() returns (hdr: Head, err: Error, ghost end: nat)
      requires source.Valid() && headerBuff.Length == MAX_HEADER_SIZE
      requires InSync() && Settled()
      modifies source, headerBuff
      ensures source.Valid()
      ensures match ParseHeader(old(source.Rest()))
              case Bad(e) => err == if e == Eof && fragmented then UnexpectedEof else e
              case Parsed(h, k) => hdr == h && err == Admit(c, h, fragmented) &&
                                   source.Rest() == old(source.Rest())[k..]
      ensures err == Ok ==> end == source.pos + hdr.length && Boundary(source.data, start, end)
      ensures err == Ok ==> end == old(source.pos) + ParseHeader(old(source.Rest())).size + hdr.length
      ensures err == Ok ==> ParseHeader(old(source.Rest())).Parsed? && source.pos > old(source.pos)
      ensures err == Eof ==> Exhausted() && !fragmented && ParseHeader(old(source.Rest())).Bad?
    {
      hdr, err, end := ReadHead();
      if err == Eof && fragmented {
        err := UnexpectedEof;
      }
      if err == Ok {
        err := CheckRules(hdr);
      }
    }

    /** One header off the source; its frame stops at a boundary if the one before does. */
    method ReadHead() returns (hdr: Head, err: Error, ghost end: nat)
      requires source.Valid() && headerBuff.Length == MAX_HEADER_SIZE
      requires InSync() && Settled()
      modifies source, headerBuff
      ensures source.Valid()
      ensures match ParseHeader(old(source.Rest()))
              case Bad(e) => err == e
              case Parsed(h, k) => err == Ok && hdr == h && source.pos == old(source.pos) + k &&
                                   source.Rest() == old(source.Rest())[k..]
      ensures err == Ok ==> ParseHeader(old(source.Rest())).Parsed?
      ensures err == Ok ==> end == source.pos + hdr.length && Boundary(source.data, start, end)
      ensures err == Eof ==> Exhausted()
    {
      ghost var at := source.pos;
      hdr, err := ReadHeader(source, headerBuff);
      end := source.pos + hdr.length;
      if err == Ok {
        BoundaryNext(source.data, start, at);
      }
    }

    /** The rules for a header, and then the limit on its length. */
    method CheckRules(hdr: Head) returns (err: Error)
      ensures err == Admit(c, hdr, fragmented)
      ensures err == Ok ==> !(0 < c.maxFrameSize < hdr.length)
      ensures CheckHeader(c, hdr, fragmented) == Ok ==> (err == FrameTooLarge <==> 0 < c.maxFrameSize < hdr.length)
    {
      err := CheckHeader(c, hdr, fragmented);
      if err == Ok && c.maxFrameSize > 0 && hdr.length > c.maxFrameSize {
        err := FrameTooLarge;
      }
    }

    /** What was done with the frame `h`, of which `t` was to come; the other arguments are the state before. */
    ghost predicate FrameDone(h: Head, t: seq<byte>, frag: bool, frame: Layers, opCode: nat, u: int, sent: seq<Reply>,
                            err: Error)
      reads this, source, raw, cipher, out
    {
      if h.rsv >= 4 && !FirstDataOp(h.opCode) then
        err == UnexpectedCompressionBit && out.sent == sent
      else if frag && IsControl(h.opCode) then
        fragmented && Kept(frame, opCode, u) && Intermediate(h, t, sent, err)
      else
        && err == Ok && out.sent == sent && utf8State == u
        && Opened(h, t, if frag then opCode else h.opCode)
    }

    /** The rest of `NextFrame`, with `t` behind the header. */
    method OpenFrame(hdr: Head, ghost t: seq<byte>, ghost end: nat) returns (err: Error)
      requires end == source.pos + hdr.length
      requires Wired() && source.Rest() == t
      requires Admit(c, hdr, fragmented) == Ok
      modifies `cipher, `frameEnd, `opCode, `frame, `fragmented, raw, source, cipher, out
      ensures cipher == old(cipher) || fresh(cipher)
      ensures Wired() && source.pos + raw.n == frameEnd == end && source.pos >= old(source.pos)
      ensures err == Eof ==> Exhausted()
      ensures FrameDone(hdr, t, old(fragmented), old(frame), old(opCode), old(utf8State), old(out.sent), err)
    {
      Stack(hdr, end);
      err := Ok;
      if hdr.rsv >= 4 && !FirstDataOp(hdr.opCode) {
        err := UnexpectedCompressionBit;
      } else if fragmented && IsControl(hdr.opCode) {
        err := Interrupt(hdr, t);
      } else {
        OpenData(hdr, t);
      }
    }

    /** Installs the readers of a data frame, or of a control frame between messages. */
    method OpenData(hdr: Head, ghost t: seq<byte>)
      requires AtPayload(hdr, t) && Admit(c, hdr, fragmented) == Ok
      requires !(fragmented && IsControl(hdr.opCode))
      modifies `opCode, `frame, `fragmented
      ensures Opened(hdr, t, if old(fragmented) then old(opCode) else hdr.opCode)
    {
      if !fragmented {
        opCode := hdr.opCode;
      }
      frame := ChooseLayers(hdr);
      fragmented := !hdr.fin;
    }

    /**
      The unmasking layer for a masked frame, the inflating one for RSV1 on opcode 1 or 2, and the checking one for
      a frame of a text message, whose first frame has opcode 1.
    */
    method ChooseLayers(hdr: Head) returns (layers: Layers)
      requires Admit(c, hdr, fragmented) == Ok && (!fragmented ==> opCode == hdr.opCode)
      requires !(fragmented && IsControl(hdr.opCode))
      ensures layers == Layered(hdr.masked, Compressed(hdr), c.checkUtf8 && opCode == OP_TEXT)
      ensures layers == Layered(hdr.masked, hdr.rsv >= 4 && (hdr.opCode == 1 || hdr.opCode == 2),
                                c.checkUtf8 && opCode == 1)
    {
      var utf8 := c.checkUtf8 && (hdr.opCode == OP_TEXT || (fragmented && opCode == OP_TEXT));
      layers := Layered(hdr.masked, Compressed(hdr), utf8);
    }

    ghost predicate Kept(frame: Layers, opCode: nat, utf8State: int)
      reads this
    {
      this.frame == frame && this.opCode == opCode && this.utf8State == utf8State
    }

    /** What `NextFrame` did with the stream `s`. */
    ghost predicate Stepped(s: seq<byte>, frag: bool, frame: Layers, opCode: nat, u: int, sent: seq<Reply>,
                            hdr: Head, err: Error)
      reads this, source, raw, cipher, out
    {
      match ParseHeader(s)
      case Bad(e) => err == (if e == Eof && frag then UnexpectedEof else e) && out.sent == sent
      case Parsed(h, k) =>
        var e := CheckFrame(c, h, frag);
        if e != Ok then err == e && out.sent == sent
        else hdr == h && FrameDone(h, s[k..], frag, frame, opCode, u, sent, err)
    }

    /**
      Reads one header and opens its frame. A control frame inside a fragmented message is
      handled at once and leaves the message untouched.
    */
    method NextFrame() returns (hdr: Head, err: Error)
      requires Valid() && Settled()
      modifies Repr()
      ensures cipher == old(cipher) || fresh(cipher)
      ensures err == Ok || (err == Eof && old(fragmented)) ==> Valid() && source.pos > old(source.pos)
      ensures err == Ok ==> source.pos + raw.n == frameEnd && !(0 < c.maxFrameSize < hdr.length)
      ensures err == Ok ==> ParseHeader(old(source.Rest())).Parsed? &&
                            frameEnd == old(source.pos) + ParseHeader(old(source.Rest())).size + hdr.length
      ensures err == Eof ==> Exhausted()
      ensures Wired()
      ensures Stepped(old(source.Rest()), old(fragmented), old(frame), old(opCode), old(utf8State),
                      old(out.sent), hdr, err)
    {
      ghost var end;
      hdr, err, end := TakeHeader();
      if err == Ok {
        err := OpenFrame(hdr, source.Rest(), end);
      }
    }

    /**
      An inflating reader, of which nothing is assumed: it takes any part of the payload, in any
      number of reads, and returns any bytes and any error.
    */
    method ReadInflated(p: array<byte>) returns (n: nat, err: Error)
      requires frame.Layered? && Stacked(frame.masked)
      modifies source, raw, cipher, p
      ensures Stacked(frame.masked) && n <= p.Length
      ensures source.pos + raw.n == old(source.pos + raw.n) && source.pos >= old(source.pos)
    {
      var buffer := new byte[512];
      var rounds: nat :| true;
      while rounds > 0
        invariant Stacked(frame.masked)
        invariant source.pos + raw.n == old(source.pos + raw.n) && source.pos >= old(source.pos)
      {
        var _, _ := ReadPlain(frame.masked, buffer, 0, buffer.Length);
        rounds := rounds - 1;
      }
      n :| n <= p.Length;
      err :| err == Ok || err == Eof || err == Flate;
    }

    /** Runs the decoder over `p[..n]`; `accepted` is the number of bytes up to the last whole code point. */
    method CheckUtf8(p: array<byte>, n: nat) returns (accepted: nat, valid: bool)
      requires n <= p.Length
      modifies `utf8State, `utf8Accepted
      ensures valid == (n > 0 ==> RunUtf8(c, old(utf8State), p[..n]) != REJECT)
      ensures valid ==> utf8State == RunUtf8(c, old(utf8State), p[..n]) && utf8Accepted == accepted
      ensures WholePoints(c, old(utf8State), p[..n], accepted)
    {
      accepted := 0;
      ghost var u := utf8State;
      var s := utf8State;
      for i := 0 to n
        invariant s == RunUtf8(c, u, p[..i]) && (i > 0 ==> s != REJECT)
        invariant WholePoints(c, u, p[..i], accepted)
      {
        RunUtf8Next(c, u, p[..i], p[i]);
        WholePointsNext(c, u, p[..i], p[i], accepted);
        assert p[..i + 1] == p[..i] + [p[i]];
        s := c.step(s, p[i]);
        if s == REJECT {
          RunUtf8Split(c, u, p[..i + 1], p[i + 1..n]);
          WholePointsStop(c, u, p[..i + 1], p[i + 1..n], accepted);
          assert p[..n] == p[..i + 1] + p[i + 1..n];
          utf8State := s;
          return accepted, false;
        }
        if s == ACCEPT {
          accepted := i + 1;
        }
      }
      utf8State, utf8Accepted := s, accepted;
      valid := true;
    }

    /** The message in the open frame, as far as it has been delivered. */
    ghost function Current(): Msg
      requires frame.Layered?
      reads `frame, `utf8State
    {
      Msg(frame.utf8, utf8State)
    }

    /** One read through the layers below the UTF-8 check. */
    method ReadBelow(p: array<byte>) returns (n: nat, err: Error)
      requires frame.Layered? && Stacked(frame.masked)
      modifies source, raw, cipher, p
      ensures Stacked(frame.masked) && n <= p.Length
      ensures source.pos + raw.n == old(source.pos + raw.n) && source.pos >= old(source.pos)
      ensures !frame.flate ==>
                && source.pos == old(source.pos) + n
                && n <= |old(Plain(frame.masked))| && p[..n] == old(Plain(frame.masked))[..n]
                && Plain(frame.masked) == old(Plain(frame.masked))[n..]
                && Complete() == old(Complete()) && After() == old(After())
                && (err == Ok || (err == Eof && n == 0 && Settled()))
                && (old(raw.n) == 0 ==> err == Eof)
                && (p.Length > 0 && err == Ok ==> n > 0)
    {
      if frame.flate {
        n, err := ReadInflated(p);
      } else {
        n, err := ReadPlain(frame.masked, p, 0, p.Length);
        assert p[..n] == p[0..0 + n];
      }
    }

    /** Where the reader stands in its open frame. */
    ghost function Here(): (v: Place)
      requires frame.Layered? && Stacked(frame.masked)
      reads this, source, raw, cipher
      ensures v.Inside? && v.m.Msg?
    {
      Inside(Current(), Plain(frame.masked), Complete(), !fragmented, After())
    }

    /** A read took `k` bytes of the frame as it was at `v`, and returned `bytes`. */
    ghost predicate Taken(v: Place, k: nat, bytes: seq<byte>, err: Error)
      requires frame.Layered? && Stacked(frame.masked)
      requires v.Inside? && v.m.Msg?
      reads this, source, raw, cipher
    {
      Chunk(c, v.m, v.d, k, bytes, err, Current()) &&
      Here() == Inside(Current(), v.d[k..], v.complete, v.fin, v.t)
    }

    /** The UTF-8 layer over `n` bytes just read into `p`. */
    method CheckText(p: array<byte>, n: nat, err: Error, ghost v: Place) returns (n': nat, err': Error)
      requires frame.Layered? && frame.utf8 && Stacked(frame.masked) && n <= p.Length
      requires !frame.flate ==> JustRead(p, n, err, v)
      modifies `utf8State, `utf8Accepted
      ensures n' <= n && (err' == Ok ==> n' == n) && (err' == err || err' == InvalidUtf8)
      ensures !frame.flate ==> Taken(v, n, p[..n'], err')
      ensures err' != InvalidUtf8 ==> n' == n && WholePoints(c, old(utf8State), p[..n], utf8Accepted)
    {
      var accepted, valid := CheckUtf8(p, n);
      n', err' := if valid then n else accepted, if valid then err else InvalidUtf8;
      if !frame.flate {
        assert p[..n'] == p[..n][..n'];
        ChunkChecked(c, v.m.u, v.d, n, p[..n'], valid, utf8State, err, err');
      }
    }

    /** The bytes `p[..n]` were just read from the frame `v` below the UTF-8 layer. */
    ghost predicate JustRead(p: array<byte>, n: nat, err: Error, v: Place)
      requires frame.Layered? && Stacked(frame.masked)
      reads this, source, raw, cipher, p
    {
      && v.Inside? && n <= |v.d| && n <= p.Length && p[..n] == v.d[..n] && v.m == Current()
      && Here() == Inside(v.m, v.d[n..], v.complete, v.fin, v.t)
      && (err == Ok || (err == Eof && n == 0))
    }

    /** The UTF-8 layer, if there is one. */
    method CheckLayer(p: array<byte>, n: nat, err: Error, ghost v: Place) returns (n': nat, err': Error)
      requires frame.Layered? && Stacked(frame.masked) && n <= p.Length
      requires !frame.flate ==> JustRead(p, n, err, v)
      modifies `utf8State, `utf8Accepted
      ensures n' <= n && (err' == Ok ==> n' == n) && (err' == err || err' == InvalidUtf8)
      ensures !frame.flate ==> Taken(v, n, p[..n'], err')
      ensures if frame.utf8
              then err' != InvalidUtf8 ==> n' == n && WholePoints(c, old(utf8State), p[..n], utf8Accepted)
              else utf8State == old(utf8State)
    {
      if frame.utf8 {
        n', err' := CheckText(p, n, err, v);
      } else {
        n', err' := n, err;
        if !frame.flate {
          ChunkPlain(c, v.m, v.d, n, err);
        }
      }
    }

    /**
      A read through the whole stack took `k` bytes of the frame as it was at `v`, and returned `bytes` and `e`. The
      decoder, if there is one, holds where the last whole code point of `bytes` stopped.
    */
    ghost predicate ThroughLayers(v: Place, k: nat, bytes: seq<byte>, e: Error)
      requires frame.Layered? && Stacked(frame.masked)
      reads this, source, raw, cipher
    {
      && v.Inside? && v.m.Msg? && v.m.text == frame.utf8
      && (if frame.utf8 then e == Ok || e == Eof ==> WholePoints(c, v.m.u, bytes, utf8Accepted)
          else utf8State == v.m.u)
      && (!frame.flate ==> (e == Eof ==> Settled()) && Taken(v, k, bytes, e))
    }

    /** `frame.Read(p)`: one read through the whole stack. */
    method ReadLayers(p: array<byte>) returns (n: nat, err: Error, ghost v: Place, ghost k: nat)
      requires Valid() && frame.Layered?
      modifies `utf8State, `utf8Accepted, source, raw, cipher, p
      ensures Valid() && n <= p.Length && v == old(Here()) && k == source.pos - old(source.pos)
      ensures source.pos + raw.n == old(source.pos + raw.n)
      ensures ThroughLayers(v, k, p[..n], err)
      ensures !frame.flate && old(raw.n) == 0 ==> err == Eof || err == InvalidUtf8
      ensures !frame.flate && p.Length > 0 && err == Ok ==> k > 0
    {
      n, err, v, k := ReadStack(p);
      n, err := CheckLayer(p, n, err, v);
    }

    /** A read through the layers below the UTF-8 check takes `k` bytes of the frame as it is at `v`. */
    method ReadStack(p: array<byte>) returns (n: nat, err: Error, ghost v: Place, ghost k: nat)
      requires Valid() && frame.Layered?
      modifies source, raw, cipher, p
      ensures Valid() && n <= p.Length && v == old(Here()) && k == source.pos - old(source.pos)
      ensures source.pos + raw.n == old(source.pos + raw.n)
      ensures v.Inside? && v.m == Current()
      ensures !frame.flate ==> JustRead(p, n, err, v) && k == n && (err == Eof ==> Settled())
      ensures !frame.flate && old(raw.n) == 0 ==> err == Eof
      ensures !frame.flate && p.Length > 0 && err == Ok ==> k > 0
    {
      v := Here();
      ghost var at := source.pos;
      n, err := ReadBelow(p);
      k := source.pos - at;
      assert Valid();
    }

    method ResetFragment()
      requires raw.n == 0
      modifies `frame, raw, cipher
      ensures frame == NoFrame && raw.r == null && raw.n == 0
      ensures cipher != null ==> cipher.r == null && cipher.m == NO_MASK && cipher.pos == 0
    {
      raw.Reset(null, 0);
      frame := NoFrame;
      if cipher != null {
        cipher.Reset(null, NO_MASK);
      }
    }

    method Reset()
      modifies `frame, `utf8State, `utf8Accepted, `opCode, raw, cipher
      ensures frame == NoFrame && utf8State == ACCEPT && utf8Accepted == 0 && opCode == 0
      ensures raw.r == null && raw.n == 0
      ensures cipher != null ==> cipher.r == null && cipher.m == NO_MASK && cipher.pos == 0
    {
      raw.Reset(null, 0);
      frame := NoFrame;
      utf8State, utf8Accepted := ACCEPT, 0;
      opCode := 0;
      if cipher != null {
        cipher.Reset(null, NO_MASK);
      }
    }

    /** Where it stands after a read of the message: in a frame, in a gap, or behind the message. */
    ghost function There(text: bool): Place
      requires Wired()
      reads this, source, raw, cipher
    {
      if frame.Layered? then Here()
      else if fragmented then Gap(Msg(text, utf8State), source.Rest())
      else Over(source.Rest())
    }

    /** The switch of `Read`, once a read of the frame ended or left nothing of it. */
    method Finish(n: nat, ghost v: Place, ghost bytes: seq<byte>, ghost e: Error) returns (n': nat, err: Error)
      requires Valid() && frame.Layered? && (e == Ok || e == Eof) && (raw.n != 0 ==> e == Eof)
      requires v.Inside? && v.m.Msg? && |bytes| == n && v.m.text == frame.utf8
      requires if frame.utf8 then c.checkUtf8 && WholePoints(c, v.m.u, bytes, utf8Accepted) else utf8State == ACCEPT
      requires !frame.flate ==>
                 && (e == Eof ==> Settled())
                 && Taken(v, n, bytes, e)
      modifies `frame, `opCode, `utf8State, `utf8Accepted, raw, cipher
      ensures Valid()
      ensures n' <= n && (err == Ok ==> n' == n)
      ensures err == InvalidUtf8 ==> WholePoints(c, v.m.u, bytes, n')
      ensures raw.n == old(raw.n)
      ensures err == Ok ==> opCode == old(opCode) && (old(frame.utf8) || utf8State == ACCEPT)
      ensures err == Ok ==> frame == NoFrame && fragmented && raw.n == 0
      ensures err == Eof ==> frame == NoFrame && !fragmented && raw.n == 0 && utf8State == ACCEPT
      ensures !old(frame.flate) ==> Moves(c, v, bytes[..n'], err, There(old(frame.utf8)))
    {
      n' := n;
      if raw.n != 0 {
        err := UnexpectedEof;
      } else if fragmented {
        if !frame.flate {
          MovesToGap(c, v, bytes, e, Current());
        }
        err := Ok;
        ResetFragment();
      } else {
        if !frame.flate {
          MovesToEnd(c, v, bytes, e, Current());
        }
        if c.checkUtf8 && utf8State != ACCEPT {
          n' := utf8Accepted;
          err := InvalidUtf8;
        } else {
          err := Eof;
          Reset();
        }
      }
      assert bytes[..n] == bytes;
    }

    /** The frame is still open, or was the message's last but one or earlier, or its last. */
    ghost predicate Concluded(err: Error, open: Layers, opCode: nat)
      requires open.Layered?
      reads `frame, `opCode, `utf8State, `fragmented, raw
    {
      && (err == Ok ==>
            && this.opCode == opCode && (open.utf8 || utf8State == ACCEPT)
            && if frame.Layered? then frame == open else fragmented && raw.n == 0)
      && (err == Eof ==> frame == NoFrame && !fragmented && raw.n == 0 && utf8State == ACCEPT)
    }

    /** Of the `k` bytes that a read took from the frame `v`, `n` are those up to the last whole code point. */
    ghost predicate LastPoint(v: Place, k: int, n: nat) {
      v.Inside? && v.m.Msg? && 0 <= k <= |v.d| && WholePoints(c, v.m.u, v.d[..k], n)
    }

    /** All that `Read` does once `frame.Read` has returned. */
    method Conclude(n: nat, e: Error, ghost v: Place, ghost k: nat, ghost bytes: seq<byte>)
      returns (n': nat, err: Error)
      requires Valid() && frame.Layered?
      requires |bytes| == n && ThroughLayers(v, k, bytes, e)
      requires if frame.utf8 then c.checkUtf8 else utf8State == ACCEPT
      modifies `frame, `opCode, `utf8State, `utf8Accepted, raw, cipher
      ensures Valid()
      ensures n' <= n && raw.n == old(raw.n)
      ensures !old(frame.flate) && err == InvalidUtf8 ==> LastPoint(v, k, n')
      ensures Concluded(err, old(frame), old(opCode)) && (err == Ok && frame.Layered? ==> e == Ok)
      ensures !old(frame.flate) ==> Moves(c, v, bytes[..n'], err, There(old(frame.utf8)))
    {
      assert bytes[..n] == bytes;
      if e != Ok && e != Eof {
        if !frame.flate {
          MovesRejected(c, v, k, bytes, Current(), There(frame.utf8));
        }
        n', err := n, e;
      } else if e == Ok && raw.n != 0 {
        if !frame.flate {
          MovesOn(c, v, k, bytes, Current());
        }
        n', err := n, e;
      } else {
        n', err := Finish(n, v, bytes, e);
      }
    }

    /** Unread bytes, and whether a frame is open: what every read with a buffer makes smaller. */
    ghost function Size(): nat
      requires source.Valid()
      reads `frame, source
    {
      2 * (|source.data| - source.pos) + if frame.Layered? then 1 else 0
    }

    /** `Read` with an open frame. */
    method ReadFrame(p: array<byte>) returns (n: nat, err: Error)
      requires Valid() && frame.Layered? && p != headerBuff
      requires if frame.utf8 then c.checkUtf8 else utf8State == ACCEPT
      modifies `frame, `opCode, `utf8State, `utf8Accepted, raw, source, cipher, p
      ensures n <= p.Length && Valid()
      ensures source.pos + raw.n == old(source.pos + raw.n) && source.pos >= old(source.pos)
      ensures Concluded(err, old(frame), old(opCode))
      ensures !old(frame.flate) ==> Moves(c, old(Here()), p[..n], err, There(old(frame.utf8)))
      ensures !old(frame.flate) && p.Length > 0 && (err == Ok || err == Eof) ==> Size() < old(Size())
      ensures !old(frame.flate) && err == InvalidUtf8 ==>
                LastPoint(old(Here()), source.pos - old(source.pos), n)
    {
      ghost var v, k;
      n, err, v, k := ReadLayers(p);
      ghost var bytes := p[..n];
      n, err := Conclude(n, err, v, k, bytes);
      assert p[..n] == bytes[..n];
    }

    /** A data message is being read; `text` says whether it is checked as text. */
    ghost predicate Reading(text: bool)
      reads this, source, raw
    {
      && text == (c.checkUtf8 && opCode == OP_TEXT)
      && (text || utf8State == ACCEPT)
      && (frame.Layered? ==> frame.utf8 == text)
      && (frame == NoFrame ==> fragmented && Settled())
    }

    /** One header read in a gap, as a step between places. */
    lemma HeaderOpens(s: seq<byte>, opCode: nat, u: int, sent: seq<Reply>, hdr: Head, err: Error, text: bool)
      requires Wired() && text == (c.checkUtf8 && opCode == OP_TEXT)
      requires Stepped(s, true, NoFrame, opCode, u, sent, hdr, err)
      ensures sent <= out.sent
      ensures Opens(c, Msg(text, u), s, out.sent[|sent|..], err, if err == Ok then There(text) else Over([]))
    {
      assert sent[|sent|..] == [];
    }

    lemma StepReads(s: seq<byte>, opCode: nat, u: int, sent: seq<Reply>, hdr: Head, text: bool)
      requires text == (c.checkUtf8 && opCode == OP_TEXT) && (text || u == ACCEPT)
      requires Stepped(s, true, NoFrame, opCode, u, sent, hdr, Ok)
      ensures Reading(text) && (frame.Layered? ==> !frame.flate)
    {
    }

    /** How a read leaves the reader when it returns a plain end of file. */
    ghost predicate Ended(mid: Place, last: Place)
      reads this, source, raw
    {
      && frame == NoFrame && source.Valid()
      && if fragmented then Exhausted() && !mid.Inside?
         else raw.n == 0 && utf8State == ACCEPT && mid.Inside? && last == Over(source.Rest())
    }

    /** How a read leaves the reader. */
    ghost predicate LeftAt(text: bool, err: Error, mid: Place, last: Place)
      reads this, source, raw, cipher
    {
      && (err == Ok || err == Eof ==> Valid())
      && (err == Ok ==> Reading(text) && last == There(text))
      && (err == Eof ==> Ended(mid, last))
    }

    /** Goes from a gap in a message to its next fragment, or handles one control frame. */
    method NextFragment(ghost text: bool) returns (err: Error, ghost rs: seq<Reply>, ghost mid: Place)
      requires Valid() && Reading(text) && frame == NoFrame
      modifies Repr()
      ensures cipher == old(cipher) || fresh(cipher)
      ensures out.sent == old(out.sent) + rs
      ensures if err == Ok && frame.Layered? then Valid() && Reading(text) && !frame.flate && mid == There(text)
              else LeftAt(text, err, mid, mid) && !mid.Inside?
      ensures err == Ok || err == Eof ==> source.pos > old(source.pos)
      ensures Opens(c, Msg(text, old(utf8State)), old(source.Rest()), rs, err, mid)
    {
      ghost var s, op, u, sent := source.Rest(), opCode, utf8State, out.sent;
      var hdr;
      hdr, err := NextFrame();
      mid := if err == Ok then There(text) else Over([]);
      HeaderOpens(s, op, u, sent, hdr, err, text);
      if err == Ok {
        StepReads(s, op, u, sent, hdr, text);
      }
      rs := out.sent[|sent|..];
    }

    /** What is observed from here on if the rest of the message is discarded. */
    ghost function Skipping(): Outcome
      requires source.Valid()
      reads `fragmented, source, raw
    {
      AfterFrame(c, Skipped, !fragmented, After())
    }

    /** Where one header leads while a message is discarded. */
    lemma StepSkips(s: seq<byte>, frame: Layers, opCode: nat, u: int, sent: seq<Reply>, hdr: Head, err: Error)
      returns (v': Place)
      requires Wired()
      requires Stepped(s, true, frame, opCode, u, sent, hdr, err) && (err == Ok ==> ParseHeader(s).Parsed?)
      ensures sent <= out.sent && Opens(c, Skipped, s, out.sent[|sent|..], err, v')
      ensures err == Ok ==> Observed(c, v') == Skipping()
      ensures err == Ok ==> hdr == ParseHeader(s).h && fragmented == (IsControl(hdr.opCode) || !hdr.fin)
    {
      assert sent[|sent|..] == [];
      if err != Ok {
        v' := Over([]);
      } else if IsControl(hdr.opCode) {
        v' := Gap(Skipped, source.Rest());
      } else {
        v' := Inside(Skipped, Plain(hdr.masked), Complete(), !fragmented, After());
      }
    }

    /** The reader stops; its caller turns a plain end of file into an unexpected one. */
    ghost function Stopped(err: Error): Outcome {
      Outcome([], Fails(if err == Eof then UnexpectedEof else err))
    }

    method DropFrame()
      requires Valid() && frame.Layered?
      modifies raw, source
      ensures Valid() && Settled() && source.pos == Min(frameEnd, |source.data|)
      ensures source.Rest() == After() == old(After()) && source.pos >= old(source.pos)
    {
      raw.Drain();
    }

    method SkipFragment() returns (err: Error, ghost rs: seq<Reply>)
      requires Valid() && frame.Layered? && fragmented && Settled()
      modifies Repr()
      ensures cipher == old(cipher) || fresh(cipher)
      ensures out.sent == old(out.sent) + rs
      ensures err == Ok ==> Valid() && frame.Layered? && source.pos > old(source.pos)
      ensures err == Ok ==>
                MessageEnd(source.data, old(source.pos), true) == MessageEnd(source.data, frameEnd, fragmented)
      ensures Wired()
      ensures Between(c, Skipped, old(source.Rest())) ==
              Prepend(Answers(rs), if err == Ok then Skipping() else Stopped(err))
    {
      ghost var at, s, fr, op, u, sent := source.pos, source.Rest(), frame, opCode, utf8State, out.sent;
      var hdr;
      hdr, err := NextFrame();
      ghost var v' := StepSkips(s, fr, op, u, sent, hdr, err);
      rs := out.sent[|sent|..];
      OpensSkipped(c, s, rs, err, v');
      if err == Ok {
        MessageGoesOn(source.data, at, s, hdr, frameEnd, fragmented);
      }
    }

    /** The loop of `Discard`. */
    method SkipMessage() returns (err: Error, ghost rs: seq<Reply>)
      requires Valid() && frame.Layered?
      modifies Repr()
      ensures cipher == old(cipher) || fresh(cipher)
      ensures out.sent == old(out.sent) + rs
      ensures Wired() && (err == Ok ==> InSync() && Settled() && !fragmented && source.pos >= old(source.pos))
      ensures err == Ok ==> source.pos == Min(frameEnd, |source.data|)
      ensures !old(fragmented) ==> err == Ok
      ensures err == Ok ==> frameEnd == old(MessageEnd(source.data, frameEnd, fragmented))
      ensures old(Skipping()) == Prepend(Answers(rs), AfterSkip(err))
    {
      ghost var o, tail := Skipping(), Skipping();
      err, rs := Ok, [];
      while true
        invariant Valid() && frame.Layered? && (cipher == old(cipher) || fresh(cipher))
        invariant err == Ok && out.sent == old(out.sent) + rs && source.pos >= old(source.pos)
        invariant !old(fragmented) ==> !fragmented
        invariant MessageEnd(source.data, frameEnd, fragmented) == old(MessageEnd(source.data, frameEnd, fragmented))
        invariant o == Prepend(Answers(rs), tail) && tail == Skipping()
        decreases |source.data| - source.pos
      {
        DropFrame();
        if !fragmented {
          break;
        }
        ghost var rs';
        err, rs' := SkipFragment();
        tail := if err == Ok then Skipping() else Stopped(err);
        AnswersJoin(o, old(out.sent), rs, rs', tail);
        rs := rs + rs';
        if err != Ok {
          break;
        }
      }
    }

    /** What is observed once a message has been skipped. */
    ghost function AfterSkip(err: Error): Outcome
      requires source.Valid()
      reads source
    {
      if err == Ok then Prepend([Sent(CloseUnsupported)], Idle(c, source.Rest())) else Stopped(err)
    }

    /**
      Drops the rest of the message whose frame was just opened, with the control frames in it, and
      stops behind it. A stream that ends inside the last fragment is not noticed here: the position is then
      short of the frame boundary and no payload is left over.
    */
    method Discard() returns (err: Error, ghost rs: seq<Reply>)
      requires Valid() && frame.Layered?
      modifies Repr()
      ensures cipher == old(cipher) || fresh(cipher)
      ensures out.sent == old(out.sent) + rs
      ensures err == Ok ==> Valid() && frame == NoFrame && !fragmented && raw.n == 0 && utf8State == ACCEPT
      ensures err == Ok ==> source.pos >= old(source.pos) && source.pos == Min(frameEnd, |source.data|)
      ensures !old(fragmented) ==> err == Ok
      ensures err == Ok ==> frameEnd == old(MessageEnd(source.data, frameEnd, fragmented))
      ensures source.Valid() && old(Skipping()) == Prepend(Answers(rs), AfterSkip(err))
    {
      err, rs := SkipMessage();
      Reset();
    }

    /** `Read` with an open frame of the message. */
    method ReadOpened(p: array<byte>, ghost text: bool)
      returns (n: nat, err: Error, ghost mid: Place, ghost last: Place)
      requires Valid() && p != headerBuff && frame.Layered? && Reading(text)
      modifies `frame, `opCode, `utf8State, `utf8Accepted, raw, source, cipher, p
      ensures n <= p.Length && source.pos >= old(source.pos) && LeftAt(text, err, mid, last)
      ensures err == Ok && Inflating() ==> old(Inflating())
      ensures mid == old(There(text))
      ensures !old(Inflating()) ==> mid.Inside? && mid.m.Msg? && Moves(c, mid, p[..n], err, last)
      ensures !old(Inflating()) && p.Length > 0 && (err == Ok || err == Eof) ==> Size() < old(Size())
    {
      mid := There(text);
      n, err := ReadFrame(p);
      last := There(text);
    }

    /** `Read` in a gap: opens the next fragment, or handles a control frame and returns nothing. */
    method ReadGap(p: array<byte>, ghost text: bool)
      returns (n: nat, err: Error, ghost rs: seq<Reply>, ghost mid: Place, ghost last: Place)
      requires Valid() && p != headerBuff && frame == NoFrame && Reading(text)
      modifies Repr(), p
      ensures (cipher == old(cipher) || fresh(cipher)) && n <= p.Length && out.sent == old(out.sent) + rs
      ensures LeftAt(text, err, mid, last) && (err == Ok ==> !Inflating())
      ensures err == Ok || err == Eof ==> source.pos > old(source.pos)
      ensures ReadStep(c, old(There(text)), rs, mid, p[..n], err, last)
    {
      ghost var v0 := There(text);
      n := 0;
      err, rs, mid := NextFragment(text);
      last := mid;
      if err == Ok && frame != NoFrame {
        n, err, mid, last := ReadOpened(p, text);
        StepOpens(c, v0, rs, mid, p[..n], err, last);
      } else {
        assert p[..0] == [];
        StepStays(c, v0, rs, mid, err);
      }
    }

    /**
      `Read`: if no frame is open, opens the next fragment of the message, and then reads from the
      open frame. `mid` is where the reader stands in between, `last` where it stands at the end.
      Between messages the call is an error.
    */
    method Read(p: array<byte>, ghost text: bool)
      returns (n: nat, err: Error, ghost rs: seq<Reply>, ghost mid: Place, ghost last: Place)
      requires Valid() && p != headerBuff
      requires frame.Layered? || fragmented ==> Reading(text)
      modifies Repr(), p
      ensures (cipher == old(cipher) || fresh(cipher)) && n <= p.Length && out.sent == old(out.sent) + rs
      ensures LeftAt(text, err, mid, last) && (err == Ok && Inflating() ==> old(Inflating()))
      ensures err == Ok || err == Eof ==> source.pos >= old(source.pos)
      ensures old(frame == NoFrame && !fragmented) ==>
                && n == 0 && err == NoFrameAdvance && rs == []
                && unchanged(this, source, out, raw, headerBuff, p) && (cipher != null ==> unchanged(cipher))
      ensures old(frame.Layered? || fragmented) && !old(Inflating()) ==>
                ReadStep(c, old(There(text)), rs, mid, p[..n], err, last)
      ensures p.Length > 0 && !old(Inflating()) && (err == Ok || err == Eof) ==> Size() < old(Size())
    {
      rs := [];
      if frame.Layered? {
        n, err, mid, last := ReadOpened(p, text);
      } else if fragmented {
        n, err, rs, mid, last := ReadGap(p, text);
      } else {
        n, err, mid, last := 0, NoFrameAdvance, There(text), There(text);
      }
    }

    ghost predicate Inflating()
      reads `frame
    {
      frame.Layered? && frame.flate
    }
  }
}
