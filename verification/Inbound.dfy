/** The reading half of the websocket transport: the message loop around the frame reader. */
module Inbound {
  import opened Bytes
  import opened Errors
  import opened FrameReader
  import opened Framing
  import opened Header
  import opened Semantics
  import opened Streams

  /**
    `es` was observed, and `o'` is still to come. After a compressed message has been opened
    nothing is claimed.
  */
  predicate Follows(o: Outcome, es: seq<Event>, o': Outcome) {
    o == Prepend(es, o') ||
    (o.end == Unspecified && o.events <= es && o' == Outcome([], Unspecified))
  }

  /** `es` was observed, and then `err`; `rest` are bytes of the message that were not delivered. */
  predicate Stops(o: Outcome, es: seq<Event>, rest: seq<byte>, err: Error) {
    o == Outcome(es + Chars(rest), Fails(err)) ||
    (o.end == Unspecified && o.events <= es)
  }

  class MessageReader {
    const c: Config
    const reader: Reader
    var inMessage: bool
    ghost var inflated: bool  // a compressed message has been opened

    ghost predicate Valid()
      reads this, reader, reader.source, reader.raw, reader.cipher
    {
      && reader.c == c
      && reader.Valid()
      && if inMessage
         then reader.Reading(Text()) && (reader.Inflating() ==> inflated)
         else reader.Settled() && if reader.fragmented then reader.Exhausted() else reader.utf8State == ACCEPT
    }

    /** The message being read is checked as text. */
    ghost predicate Text()
      reads reader
    {
      c.checkUtf8 && reader.opCode == OP_TEXT
    }

    /** What successive reads will observe. */
    ghost function Future(): Outcome
      requires Valid()
      reads this, reader, reader.source, reader.raw, reader.cipher
    {
      if inflated then Outcome([], Unspecified)
      else if inMessage then Observed(c, reader.There(Text()))
      else if reader.fragmented then Outcome([], Fails(UnexpectedEof))
      else Idle(c, reader.source.Rest())
    }

    constructor (reader: Reader)
      requires reader.Valid() && reader.Settled() && !reader.fragmented && reader.utf8State == ACCEPT
      ensures Valid() && this.reader == reader && c == reader.c && !inMessage && !inflated
      ensures Future() == Idle(c, reader.source.Rest())
    {
      this.reader, c := reader, reader.c;
      inMessage, inflated := false, false;
    }

    ghost predicate CopyInvariant(v0: Place, body: seq<byte>, err: Error, open: Layers)
      reads reader, reader.source, reader.raw, reader.cipher
    {
      && reader.Valid() && !reader.fragmented
      && (err == Ok ==>
            open.Layered? && reader.frame == open && reader.utf8State == ACCEPT && Copying(v0, body, reader.Here()))
      && (err == Eof ==> reader.frame == NoFrame && reader.raw.n == 0 && reader.utf8State == ACCEPT)
      && Copied(v0, body, err, reader.There(false))
    }

    /** One read of the copy. */
    method CopyRound(buffer: array<byte>, ghost v0: Place, ghost body: seq<byte>) returns (n: nat, err: Error)
      requires buffer != reader.headerBuff && buffer.Length > 0
      requires reader.frame.Layered? && !reader.frame.utf8 && !reader.frame.flate
      requires CopyInvariant(v0, body, Ok, reader.frame)
      modifies reader`frame, reader`opCode, reader`utf8State, reader`utf8Accepted
      modifies reader.raw, reader.source, reader.cipher, buffer
      ensures n <= buffer.Length && CopyInvariant(v0, body + buffer[..n], err, old(reader.frame))
      ensures reader.source.pos >= old(reader.source.pos)
      ensures err == Ok ==> reader.source.pos > old(reader.source.pos)
    {
      ghost var v := reader.Here();
      n, err := reader.ReadFrame(buffer);
      CopyStep(c, v0, v, body, buffer[..n], err, reader.There(false));
    }

    /** The control handler drains the frame through the frame reader. */
    method CopyFrame() returns (body: seq<byte>, err: Error)
      requires reader.Valid() && reader.frame.Layered? && !reader.fragmented
      requires !reader.frame.utf8 && !reader.frame.flate && reader.utf8State == ACCEPT
      modifies reader`frame, reader`opCode, reader`utf8State, reader`utf8Accepted
      modifies reader.raw, reader.source, reader.cipher
      ensures reader.Valid()
      ensures old(reader.Complete()) ==>
                && err == Ok && body == old(reader.Plain(reader.frame.masked))
                && !reader.fragmented && reader.raw.n == 0 && reader.utf8State == ACCEPT
                && reader.source.Rest() == old(reader.After())
      ensures !old(reader.Complete()) ==> err == UnexpectedEof
      ensures reader.source.pos >= old(reader.source.pos)
    {
      ghost var v0 := reader.Here();
      body, err := [], Ok;
      var buffer := new byte[512];
      while err == Ok
        invariant CopyInvariant(v0, body, err, old(reader.frame))
        invariant reader.source.pos >= old(reader.source.pos)
        decreases |reader.source.data| - reader.source.pos, err == Ok
      {
        var n;
        n, err := CopyRound(buffer, v0, body);
        body := body + buffer[..n];
      }
      if err == Eof {
        err := Ok;
      }
    }

    /**
      The control handler on a frame between two messages; it reads the payload through the frame
      reader, and a frame without payload is not read at all.
    */
    method HandleControl(h: Head, ghost t: seq<byte>) returns (err: Error, ghost rs: seq<Reply>)
      requires reader.Valid() && reader.c == c && !reader.fragmented && reader.utf8State == ACCEPT
      requires IsControl(h.opCode) && h.fin && !Compressed(h) && reader.Opened(h, t, h.opCode)
      modifies reader.Repr()
      ensures reader.cipher == old(reader.cipher)
      ensures reader.out.sent == old(reader.out.sent) + rs
      ensures err == Ok ==> reader.Valid() && reader.Settled() && !reader.fragmented && reader.utf8State == ACCEPT
      ensures err == Ok ==> reader.source.pos >= old(reader.source.pos)
      ensures Handled(c, h, t, rs, err, if err == Ok then reader.source.Rest() else [])
    {
      rs := [];
      err := Ok;
      var body := [];
      if h.length > 0 {
        body, err := CopyFrame();
        if err != Ok {
          return;
        }
      }
      err, rs := AnswerControl(h, body);
    }

    /** Answers the control frame with payload `body`. */
    method AnswerControl(h: Head, body: seq<byte>) returns (err: Error, ghost rs: seq<Reply>)
      modifies reader.out
      ensures reader.out.sent == old(reader.out.sent) + rs
      ensures if h.opCode == OP_CLOSE then rs == [CloseReply(c, body)] && err == CloseError(c, body)
              else rs == PingReplies(h, body) && err == Ok
    {
      err := Ok;
      if h.opCode == OP_CLOSE {
        err := reader.out.AnswerClose(c, body);
        rs := [CloseReply(c, body)];
      } else {
        reader.out.AnswerPing(h, body);
        rs := PingReplies(h, body);
      }
    }

    /** `hdr` was just read off the stream `s` between two messages, and its frame is open. */
    ghost predicate AtFrame(s: seq<byte>, hdr: Head)
      reads this, reader, reader.source, reader.raw, reader.cipher
    {
      && reader.Valid() && reader.c == c && reader.utf8State == ACCEPT && !inMessage
      && ParseHeader(s).Parsed? && ParseHeader(s).h == hdr
      && CheckFrame(c, hdr, false) == Ok
      && reader.Opened(hdr, s[ParseHeader(s).size..], hdr.opCode)
    }

    method ControlRound(hdr: Head, ghost s: seq<byte>) returns (err: Error, ghost rs: seq<Reply>)
      requires AtFrame(s, hdr) && IsControl(hdr.opCode)
      modifies reader.Repr()
      ensures reader.cipher == old(reader.cipher)
      ensures reader.out.sent == old(reader.out.sent) + rs
      ensures err == Ok ==> Valid() && !reader.fragmented && reader.source.pos >= old(reader.source.pos)
      ensures err != Eof && Idle(c, s) == Prepend(Answers(rs), Onwards(c, reader.source, err))
    {
      assert this !in reader.Repr();
      err, rs := HandleControl(hdr, s[ParseHeader(s).size..]);
      assert err == Ok ==> Valid();
      IdleControl(c, s, rs, err, if err == Ok then reader.source.Rest() else []);
    }

    method DiscardRound(hdr: Head, ghost s: seq<byte>) returns (err: Error, ghost rs: seq<Reply>)
      requires AtFrame(s, hdr) && !IsControl(hdr.opCode) && !Accepts(c, hdr.opCode)
      modifies reader.Repr()
      ensures reader.cipher == old(reader.cipher) || fresh(reader.cipher)
      ensures reader.out.sent == old(reader.out.sent) + rs
      ensures err == Ok ==> Valid() && !reader.fragmented && reader.source.pos >= old(reader.source.pos)
      ensures err != Eof && Idle(c, s) == Prepend(Answers(rs), Onwards(c, reader.source, err))
    {
      assert this !in reader.Repr();
      ghost var sent := reader.out.sent;
      IdleOpens(c, s);
      ghost var o := reader.Skipping();
      assert o == Idle(c, s);
      err, rs := reader.Discard();
      if err == Ok {
        RefusalJoin(o, sent, rs, Idle(c, reader.source.Rest()));
        Refuse();
        rs := rs + [CloseUnsupported];
      } else if err == Eof {
        err := UnexpectedEof;
      }
    }

    /** The connection is told that it sent a kind of data that is not accepted. */
    method Refuse()
      requires reader.Valid()
      modifies reader.out
      ensures reader.Valid()
      ensures reader.out.sent == old(reader.out.sent) + [CloseUnsupported]
    {
      reader.out.Answer(CloseUnsupported);
    }

    /** The reader stands in the first frame of a message. */
    lemma FrameOpens(hdr: Head, s: seq<byte>)
      requires AtFrame(s, hdr) && !IsControl(hdr.opCode) && Accepts(c, hdr.opCode)
      ensures reader.Reading(Text()) && reader.Inflating() == Compressed(hdr)
      ensures Idle(c, s) == if Compressed(hdr) then Outcome([], Unspecified) else Observed(c, reader.There(Text()))
    {
      IdleOpens(c, s);
      assert reader.Here() == FirstPlace(c, hdr, s[ParseHeader(s).size..]);
    }

    method OpenRound(hdr: Head, ghost s: seq<byte>)
      requires AtFrame(s, hdr) && !IsControl(hdr.opCode) && Accepts(c, hdr.opCode)
      modifies `inMessage, `inflated
      ensures Valid() && inMessage && inflated == (old(inflated) || Compressed(hdr))
      ensures !old(inflated) ==> Idle(c, s) == Future()
    {
      FrameOpens(hdr, s);
      inMessage := true;
      inflated := inflated || Compressed(hdr);
    }

    /** What the loop does with an open frame, by its opcode. */
    method Dispatch(hdr: Head, ghost s: seq<byte>) returns (err: Error, ghost rs: seq<Reply>)
      requires AtFrame(s, hdr)
      modifies this, reader.Repr()
      ensures reader.cipher == old(reader.cipher) || fresh(reader.cipher)
      ensures reader.out.sent == old(reader.out.sent) + rs
      ensures err == Ok ==> Valid() && reader.source.pos >= old(reader.source.pos)
      ensures inflated == old(inflated) || (inMessage && inflated)
      ensures err != Eof
      ensures !old(inflated) ==>
                Idle(c, s) == Prepend(Answers(rs), if err == Ok then Future() else Outcome([], Fails(err)))
    {
      assert this !in reader.Repr();
      err, rs := Ok, [];
      if IsControl(hdr.opCode) {
        err, rs := ControlRound(hdr, s);
      } else if !Accepts(c, hdr.opCode) {
        err, rs := DiscardRound(hdr, s);
      } else {
        OpenRound(hdr, s);
        PrependNone(Future());
      }
    }

    /** The frame that `NextFrame` opened between messages, or the error with which it stopped. */
    lemma FrameArrives(s: seq<byte>, frag: bool, open: Layers, opCode: nat, u: int, sent: seq<Reply>,
                       hdr: Head, err: Error)
      requires !inMessage && reader.c == c && reader.Stepped(s, frag, open, opCode, u, sent, hdr, err)
      requires if frag then s == [] else u == ACCEPT
      requires err == Ok ==> reader.Valid()
      ensures reader.out.sent == sent
      ensures err == Ok ==> !frag && AtFrame(s, hdr)
      ensures err != Ok && frag ==> err == UnexpectedEof
      ensures err != Ok && !frag ==> Idle(c, s) == Outcome([], Fails(if err == Eof then UnexpectedEof else err))
    {
      if err != Ok && !frag {
        IdleStops(c, s, err);
      }
    }

    /**
      One round of the loop that looks for a data message: a control frame is handled, a message
      of an opcode that is not accepted is dropped, any other message is opened.
    */
    method NextRound() returns (err: Error, ghost rs: seq<Reply>)
      requires Valid() && !inMessage
      modifies this, reader.Repr()
      ensures reader.cipher == old(reader.cipher) || fresh(reader.cipher)
      ensures reader.out.sent == old(reader.out.sent) + rs
      ensures err == Ok ==> Valid() && reader.source.pos > old(reader.source.pos)
      ensures inflated == old(inflated) || (inMessage && inflated)
      ensures err != Eof
      ensures !old(inflated) ==>
                old(Future()) == Prepend(Answers(rs), if err == Ok then Future() else Outcome([], Fails(err)))
    {
      assert this !in reader.Repr();
      ghost var s, frag, fr, op, u, sent :=
        reader.source.Rest(), reader.fragmented, reader.frame, reader.opCode, reader.utf8State, reader.out.sent;
      var hdr;
      hdr, err := reader.NextFrame();
      FrameArrives(s, frag, fr, op, u, sent, hdr, err);
      if err != Ok {
        rs := [];
        if err == Eof {
          err := UnexpectedEof;
        }
      } else {
        err, rs := Dispatch(hdr, s);
      }
    }

    /** Looks for the next data message. */
    method NextMessage() returns (err: Error, ghost rs: seq<Reply>)
      requires Valid() && !inMessage
      modifies this, reader.Repr()
      ensures reader.cipher == old(reader.cipher) || fresh(reader.cipher)
      ensures reader.out.sent == old(reader.out.sent) + rs
      ensures err == Ok ==> Valid() && inMessage && reader.Size() < old(reader.Size())
      ensures old(inflated) ==> inflated
      ensures err != Eof
      ensures !old(inflated) ==>
                old(Future()) == Prepend(Answers(rs), if err == Ok then Future() else Outcome([], Fails(err)))
    {
      ghost var o := Future();
      err, rs := Ok, [];
      while !inMessage
        invariant err == Ok && Valid() && (reader.cipher == old(reader.cipher) || fresh(reader.cipher))
        invariant reader.out.sent == old(reader.out.sent) + rs
        invariant inMessage ==> reader.source.pos > old(reader.source.pos)
        invariant reader.source.pos >= old(reader.source.pos)
        invariant inflated == old(inflated) || (inMessage && inflated)
        invariant !old(inflated) ==> o == Prepend(Answers(rs), Future())
        decreases |reader.source.data| - reader.source.pos
      {
        ghost var rs';
        err, rs' := NextRound();
        if !old(inflated) {
          AnswersJoin(o, old(reader.out.sent), rs, rs', if err == Ok then Future() else Outcome([], Fails(err)));
        }
        assert (old(reader.out.sent) + rs) + rs' == old(reader.out.sent) + (rs + rs');
        rs := rs + rs';
        if err != Ok {
          return;
        }
      }
    }

    /** `msgReader.Read(p)`, in terms of places. */
    method ReadPart(p: array<byte>)
      returns (n: nat, err: Error, ghost rs: seq<Reply>, ghost mid: Place, ghost last: Place)
      requires Valid() && inMessage && p != reader.headerBuff
      modifies this, reader.Repr(), p
      ensures (reader.cipher == old(reader.cipher) || fresh(reader.cipher)) && n <= p.Length
      ensures reader.out.sent == old(reader.out.sent) + rs && inflated == old(inflated)
      ensures err == Ok || err == Eof ==> Valid() && inMessage == (err == Ok)
      ensures (err == Ok || err == Eof) && p.Length > 0 && !inflated ==>
                reader.Size() < old(reader.Size())
      ensures !inflated && (err == Ok || err == Eof) ==>
                Future() == if err == Eof && !mid.Inside? then Outcome([], Fails(UnexpectedEof)) else Observed(c, last)
      ensures !inflated ==> ReadStep(c, old(reader.There(Text())), rs, mid, p[..n], err, last)
    {
      assert this !in reader.Repr();
      ghost var text := Text();
      n, err, rs, mid, last := reader.Read(p, text);
      assert err == Ok ==> Text() == text;
      if err == Eof {
        inMessage := false;
      }
    }

    /** Reads from the message in progress. */
    method ReadMessage(p: array<byte>) returns (n: nat, err: Error, ghost rs: seq<Reply>, ghost rest: seq<byte>)
      requires Valid() && inMessage && p != reader.headerBuff
      modifies this, reader.Repr(), p
      ensures (reader.cipher == old(reader.cipher) || fresh(reader.cipher)) && n <= p.Length
      ensures reader.out.sent == old(reader.out.sent) + rs && inflated == old(inflated)
      ensures err == Ok || err == Eof ==> Valid() && inMessage == (err == Ok)
      ensures (err == Ok || err == Eof) && p.Length > 0 && !inflated ==>
                reader.Size() < old(reader.Size())
      ensures !inflated ==> Shows(old(Future()), rs, p[..n], rest, err,
                                  if err == Ok || err == Eof then Future() else Outcome([], Fails(err)))
    {
      ghost var v0, mid, v' := reader.There(Text()), Over([]), Over([]);
      n, err, rs, mid, v' := ReadPart(p);
      rest := [];
      if !inflated {
        rest := ReadShows(c, v0, rs, mid, p[..n], err, v');
      }
    }

    /**
      `Read`: looks for a data message if none is in progress, and reads from it. What it returns and
      writes is the next part of what the stream holds; it returns a plain end of file exactly where
      an end of message is observed.
    */
    method Read(p: array<byte>) returns (n: nat, err: Error, ghost rs: seq<Reply>, ghost rest: seq<byte>)
      requires Valid() && p != reader.headerBuff
      modifies this, reader.Repr(), p
      ensures (reader.cipher == old(reader.cipher) || fresh(reader.cipher)) && n <= p.Length
      ensures reader.out.sent == old(reader.out.sent) + rs && (old(inflated) ==> inflated)
      ensures err == Ok || err == Eof ==> Valid()
      ensures if err == Ok || err == Eof then Follows(old(Future()), Log(rs, p[..n], err), Future())
              else Stops(old(Future()), Log(rs, p[..n], err), rest, err)
      ensures (err == Ok || err == Eof) && p.Length > 0 && !inflated ==> reader.Size() < old(reader.Size())
    {
      assert this !in reader.Repr();
      ghost var o, sent, flate := Future(), reader.out.sent, inflated;
      n, rest := 0, [];
      err, rs := Prepare();
      if err == Ok {
        ghost var o1, rs1, rs2 := Future(), rs, [];
        n, err, rs2, rest := ReadMessage(p);
        LogJoin(o, flate, sent, rs1, o1, inflated, rs2, p[..n], rest, err,
                if err == Ok || err == Eof then Future() else Outcome([], Fails(err)));
        rs := rs1 + rs2;
      } else {
        assert p[..0] == [];
        LogStops(o, flate, rs, err);
      }
    }

    method Prepare() returns (err: Error, ghost rs: seq<Reply>)
      requires Valid()
      modifies this, reader.Repr()
      ensures reader.cipher == old(reader.cipher) || fresh(reader.cipher)
      ensures reader.out.sent == old(reader.out.sent) + rs
      ensures err == Ok ==> Valid() && inMessage && reader.Size() <= old(reader.Size())
      ensures err != Eof && (old(inflated) ==> inflated)
      ensures !old(inflated) ==>
                old(Future()) == Prepend(Answers(rs), if err == Ok then Future() else Outcome([], Fails(err)))
    {
      err, rs := Ok, [];
      if !inMessage {
        err, rs := NextMessage();
      } else {
        PrependNone(Future());
        assert Answers(rs) == [];
      }
    }
  }

  /** The events of one read. */
  function Log(rs: seq<Reply>, bytes: seq<byte>, err: Error): seq<Event> {
    Answers(rs) + Chars(bytes) + if err == Eof then [EndOfMessage] else []
  }

  lemma LogStops(o: Outcome, flate: bool, rs: seq<Reply>, err: Error)
    requires err != Eof
    requires if flate then o == Outcome([], Unspecified) else o == Prepend(Answers(rs), Outcome([], Fails(err)))
    ensures Stops(o, Log(rs, [], err), [], err)
  {
    assert Log(rs, [], err) + Chars([]) == Answers(rs);
  }

  /** Looking for the message, and then reading from it. */
  lemma LogJoin(o: Outcome, flate0: bool, sent: seq<Reply>, rs1: seq<Reply>, o1: Outcome, flate1: bool, rs2: seq<Reply>,
                bytes: seq<byte>, rest: seq<byte>, err: Error, o2: Outcome)
    requires flate0 ==> flate1 && o == Outcome([], Unspecified)
    requires flate1 ==> o1 == Outcome([], Unspecified) && (err == Ok || err == Eof ==> o2 == o1)
    requires !flate0 ==> o == Prepend(Answers(rs1), o1)
    requires !flate1 ==> Shows(o1, rs2, bytes, rest, err, o2)
    ensures (sent + rs1) + rs2 == sent + (rs1 + rs2)
    ensures if err == Ok || err == Eof then Follows(o, Log(rs1 + rs2, bytes, err), o2)
            else Stops(o, Log(rs1 + rs2, bytes, err), rest, err)
  {
    AnswersAppend(rs1, rs2);
    var a, b, es := Answers(rs1), Answers(rs2), Chars(bytes);
    var log := Log(rs1 + rs2, bytes, err);
    if flate1 {
      assert a <= log;
    } else if err == Ok || err == Eof {
      var tail := if err == Eof then [EndOfMessage] else [];
      assert b + es == b + es + [];
      PrependTwice(a, b + es + tail, o2);
      assert a + (b + es + tail) == log;
    } else {
      assert Chars(bytes + rest) == es + Chars(rest);
      assert a + (b + (es + Chars(rest))) == log + Chars(rest);
    }
  }

  /** One read observed the answers `rs`, `bytes` and `err`; with an error, `rest` was not delivered. */
  predicate Shows(o: Outcome, rs: seq<Reply>, bytes: seq<byte>, rest: seq<byte>, err: Error, o': Outcome) {
    match err
    case Ok => o == Prepend(Answers(rs) + Chars(bytes), o')
    case Eof => o == Prepend(Answers(rs) + Chars(bytes) + [EndOfMessage], o')
    case _ => o == Outcome(Answers(rs) + Chars(bytes + rest), Fails(err))
  }

  lemma MoveShows(c: Config, v: Place, bytes: seq<byte>, err: Error, v': Place) returns (rest: seq<byte>)
    requires v.Inside? && v.m.Msg? && Moves(c, v, bytes, err, v')
    ensures Shows(Observed(c, v), [], bytes, rest, err, Observed(c, v'))
  {
    rest := MovesObserved(c, v, bytes, err, v');
    assert Answers([]) + Chars(bytes) == Chars(bytes);
    assert Answers([]) + Chars(bytes + rest) == Chars(bytes + rest);
  }

  lemma ShowsAfter(o: Outcome, rs: seq<Reply>, o0: Outcome, bytes: seq<byte>, rest: seq<byte>, err: Error, o': Outcome)
    requires o == Prepend(Answers(rs), o0) && Shows(o0, [], bytes, rest, err, o')
    ensures Shows(o, rs, bytes, rest, err, o')
  {
    var a := Answers(rs);
    assert Answers([]) == [];
    PrependTwice(a, Chars(bytes), o');
    PrependTwice(a, Chars(bytes) + [EndOfMessage], o');
    assert a + (Chars(bytes) + [EndOfMessage]) == a + Chars(bytes) + [EndOfMessage];
    assert Answers([]) + Chars(bytes) == Chars(bytes);
    assert Answers([]) + Chars(bytes + rest) == Chars(bytes + rest);
  }

  /** What a read of the frame reader observes. A plain end of file in a gap is the bare close. */
  lemma ReadShows(c: Config, v0: Place, rs: seq<Reply>, mid: Place, bytes: seq<byte>, err: Error, v': Place)
    returns (rest: seq<byte>)
    requires ReadStep(c, v0, rs, mid, bytes, err, v')
    ensures Shows(Observed(c, v0), rs, bytes, rest, err,
                  if err == Eof && !mid.Inside? then Outcome([], Fails(UnexpectedEof)) else Observed(c, v'))
  {
    rest := [];
    if v0.Gap? {
      OpensObserved(c, v0.m, v0.s, rs, if mid.Inside? then Ok else err, mid);
    } else {
      PrependNone(Observed(c, v0));
      assert Answers(rs) == [];
    }
    if mid.Inside? {
      rest := MoveShows(c, mid, bytes, err, v');
      ShowsAfter(Observed(c, v0), rs, Observed(c, mid), bytes, rest, err, Observed(c, v'));
    } else {
      GapShows(c, v0.m, v0.s, rs, err, v');
    }
  }

  /** A header read in a gap that opens no frame. */
  lemma GapShows(c: Config, m: Msg, s: seq<byte>, rs: seq<Reply>, err: Error, v': Place)
    requires Opens(c, m, s, rs, err, v') && m.Msg?
    ensures Shows(Between(c, m, s), rs, [], [], err,
                  if err == Eof then Outcome([], Fails(UnexpectedEof)) else Observed(c, v'))
  {
    OpensObserved(c, m, s, rs, err, v');
    assert Answers(rs) + Chars([]) == Answers(rs);
    assert Chars([] + []) == [];
    assert err == Eof ==> rs == [] && Answers(rs) + Chars([]) + [EndOfMessage] == [EndOfMessage];
  }

  /** What is observed between two messages, unless an error stopped the reader. */
  ghost function Onwards(c: Config, source: Source, err: Error): Outcome
    requires err == Ok ==> source.Valid()
    reads source
  {
    if err == Ok then Idle(c, source.Rest()) else Outcome([], Fails(err))
  }

  /** No frame can be opened in front of `s`. */
  predicate Refused(c: Config, s: seq<byte>, err: Error) {
    match ParseHeader(s)
    case Bad(e) => err == e
    case Parsed(h, k) => err == CheckFrame(c, h, false)
  }

  lemma IdleStops(c: Config, s: seq<byte>, err: Error)
    requires err != Ok && Refused(c, s, err)
    ensures Idle(c, s) == Outcome([], Fails(if err == Eof then UnexpectedEof else err))
  {
  }

  function FirstPlace(c: Config, h: Head, t: seq<byte>): Place {
    var m := Msg(c.checkUtf8 && h.opCode == OP_TEXT, ACCEPT);
    Inside(m, Unmask(h, Front(h, t)), h.length <= |t|, h.fin, Behind(h, t))
  }

  lemma IdleOpens(c: Config, s: seq<byte>)
    requires ParseHeader(s).Parsed? && CheckFrame(c, ParseHeader(s).h, false) == Ok
    requires !IsControl(ParseHeader(s).h.opCode)
    ensures var h, t := ParseHeader(s).h, s[ParseHeader(s).size..];
            Idle(c, s) ==
            if !Accepts(c, h.opCode) then AfterFrame(c, Skipped, h.fin, Behind(h, t))
            else if Compressed(h) then Outcome([], Unspecified)
            else Observed(c, FirstPlace(c, h, t))
  {
  }

  lemma RefusalJoin(o: Outcome, sent: seq<Reply>, rs: seq<Reply>, rest: Outcome)
    requires o == Prepend(Answers(rs), Prepend([Sent(CloseUnsupported)], rest))
    ensures o == Prepend(Answers(rs + [CloseUnsupported]), rest)
    ensures (sent + rs) + [CloseUnsupported] == sent + (rs + [CloseUnsupported])
  {
    assert Answers([CloseUnsupported]) == [Sent(CloseUnsupported)];
    AnswersJoin(o, sent, rs, [CloseUnsupported], rest);
  }

  lemma IdleControl(c: Config, s: seq<byte>, rs: seq<Reply>, err: Error, rest: seq<byte>)
    requires ParseHeader(s).Parsed?
    requires var p := ParseHeader(s);
             && CheckFrame(c, p.h, false) == Ok && IsControl(p.h.opCode)
             && Handled(c, p.h, s[p.size..], rs, err, rest)
    ensures Idle(c, s) == Prepend(Answers(rs), if err == Ok then Idle(c, rest) else Outcome([], Fails(err)))
  {
    assert Answers(rs) == if rs == [] then [] else [Sent(rs[0])];
  }

  /** What handling the control frame `h` between two messages does to the stream `t` behind its header. */
  predicate Handled(c: Config, h: Head, t: seq<byte>, rs: seq<Reply>, err: Error, rest: seq<byte>) {
    var body := Unmask(h, Front(h, t));
    if h.length > |t| then rs == [] && err == UnexpectedEof
    else if h.opCode == OP_CLOSE then rs == [CloseReply(c, body)] && err == CloseError(c, body)
    else rs == PingReplies(h, body) && err == Ok && rest == Behind(h, t)
  }

  /** `body` of the control frame `v0` has been read, and the reader is at `v`. */
  predicate Copying(v0: Place, body: seq<byte>, v: Place) {
    v0.Inside? && body <= v0.d && v == v0.(d := v0.d[|body|..])
  }

  predicate Copied(v0: Place, body: seq<byte>, err: Error, v': Place) {
    match err
    case Ok => true
    case Eof => v0.Inside? && v0.complete && body == v0.d && v' == Over(v0.t)
    case UnexpectedEof => v0.Inside? && !v0.complete
    case _ => false
  }

  lemma CopyStep(c: Config, v0: Place, v: Place, body: seq<byte>, bytes: seq<byte>, err: Error, v': Place)
    requires Copying(v0, body, v) && v.m.Msg? && !v.m.text && v.fin
    requires Moves(c, v, bytes, err, v')
    ensures Copied(v0, body + bytes, err, v')
    ensures err == Ok ==> v'.Inside? && Copying(v0, body + bytes, v')
  {
    assert v0.d == body + v0.d[|body|..];
  }
}
