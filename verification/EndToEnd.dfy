/** From the writer of one side to the reader of the other. */
module EndToEnd {
  import opened Bytes
  import opened Deflate
  import opened Errors
  import opened Frames
  import opened Framing
  import opened Header
  import opened Masking
  import opened Messages
  import opened Outbound
  import opened ReadLoop
  import opened Semantics

  /** A frame that a side puts on the wire: a whole message, a pong, or a close frame. */
  datatype Entry =
    | Data(mask: Mask, payload: seq<byte>)
    | Echo(mask: Mask, payload: seq<byte>)
    | Close(mask: Mask, payload: seq<byte>)

  function EntryOp(opCode: nat, e: Entry): nat {
    match e
    case Data(_, _) => opCode
    case Echo(_, _) => OP_PONG
    case Close(_, _) => OP_CLOSE
  }

  function EntryHead(client: bool, opCode: nat, e: Entry): Head {
    DataHead(client, EntryOp(opCode, e), true, e.mask, |e.payload|, false)
  }

  /** What the peer's options allow. */
  predicate Sendable(c: Config, opCode: nat, e: Entry) {
    && |e.payload| <= LEN64
    && (c.maxFrameSize > 0 ==> |e.payload| <= c.maxFrameSize)
    && (!e.Data? ==> |e.payload| <= 125)
    && (e.Data? && c.checkUtf8 && opCode == OP_TEXT ==> RunUtf8(c, ACCEPT, e.payload) == ACCEPT)
  }

  function EntryFrame(client: bool, opCode: nat, e: Entry): Frame
    requires opCode < 16 && |e.payload| <= LEN64
  {
    var h := EntryHead(client, opCode, e);
    Frame.Frame(HeaderBytes(h), h, OnTheWire(client, e.mask, e.payload))
  }

  predicate AllSendable(c: Config, opCode: nat, log: seq<Entry>) {
    forall i :: 0 <= i < |log| ==> Sendable(c, opCode, log[i])
  }

  predicate AllSized(log: seq<Entry>) {
    forall i :: 0 <= i < |log| ==> |log[i].payload| <= LEN64
  }

  function LogBytes(client: bool, opCode: nat, log: seq<Entry>): seq<byte>
    requires opCode < 16 && AllSized(log)
  {
    if log == [] then [] else Wire(EntryFrame(client, opCode, log[0])) + LogBytes(client, opCode, log[1..])
  }

  /** The data messages in front of the first close frame. */
  function DataIn(log: seq<Entry>): seq<seq<byte>> {
    if log == [] || log[0].Close? then []
    else (if log[0].Data? then [log[0].payload] else []) + DataIn(log[1..])
  }

  /** The error that ends reading: the first close frame's, or that of the end of the stream. */
  function EndOf(c: Config, log: seq<Entry>): Error {
    if log == [] then UnexpectedEof
    else if log[0].Close? then CloseError(c, log[0].payload)
    else EndOf(c, log[1..])
  }

  lemma EntryOnWire(c: Config, opCode: nat, e: Entry)
    requires FirstDataOp(opCode) && Sendable(c, opCode, e)
    ensures var f := EntryFrame(c.server, opCode, e);
            && OnWire(f) && Payload(f) == e.payload && !Compressed(f.h)
            && CheckFrame(c, f.h, false) == Ok
  {
    var f := EntryFrame(c.server, opCode, e);
    HeaderRoundTrip(f.h, []);
    assert HeaderBytes(f.h) + [] == HeaderBytes(f.h);
    MaskedTwice(e.payload, e.mask, 0);
  }

  /** One data frame is one message. */
  lemma DataRead(c: Config, opCode: nat, e: Entry, t: seq<byte>, mail: Mail) returns (es: seq<Event>)
    requires FirstDataOp(opCode) && Accepts(c, opCode) && e.Data? && Sendable(c, opCode, e) && mail.partial == []
    ensures Idle(c, Wire(EntryFrame(c.server, opCode, e)) + t) == Prepend(es, Idle(c, t))
    ensures Collect(mail, es) == Mail(mail.messages + [e.payload], []) && Replies(es) == []
  {
    EntryOnWire(c, opCode, e);
    var f := EntryFrame(c.server, opCode, e);
    Reassembly(c, [f], t, mail);
    es := EventsOf(c, [f]);
    assert DataOf([f]) == Payload(f) + DataOf([]) == Payload(f);
    assert PongsOf([f]) == [] + PongsOf([]) == [];
    assert Stream([f]) == Wire(f) + Stream([]) == Wire(f);
    assert [] + e.payload == e.payload;
  }

  /** A pong passes unseen. */
  lemma PongRead(c: Config, opCode: nat, e: Entry, t: seq<byte>)
    requires FirstDataOp(opCode) && e.Echo? && Sendable(c, opCode, e)
    ensures Idle(c, Wire(EntryFrame(c.server, opCode, e)) + t) == Idle(c, t)
  {
    EntryOnWire(c, opCode, e);
    FrameReads(c, Ready, EntryFrame(c.server, opCode, e), t);
    PrependNone(Idle(c, t));
    assert Answers([]) == [];
  }

  /** A close frame is answered and ends the reading. */
  lemma CloseRead(c: Config, opCode: nat, e: Entry, t: seq<byte>, mail: Mail) returns (es: seq<Event>)
    requires FirstDataOp(opCode) && e.Close? && Sendable(c, opCode, e)
    ensures Idle(c, Wire(EntryFrame(c.server, opCode, e)) + t) == Outcome(es, Fails(CloseError(c, e.payload)))
    ensures es == [Sent(CloseReply(c, e.payload))] && Collect(mail, es) == mail
  {
    EntryOnWire(c, opCode, e);
    FrameReads(c, Ready, EntryFrame(c.server, opCode, e), t);
    es := [Sent(CloseReply(c, e.payload))];
    assert Answers([CloseReply(c, e.payload)]) == es;
    CollectAnswers(mail, [CloseReply(c, e.payload)]);
  }

  /** The peer of `WriteClose` stops with the code that was written, and answers with it. */
  lemma CloseArrives(c: Config, opCode: nat, code: int, reason: seq<byte>, mask: Mask, t: seq<byte>)
    requires FirstDataOp(opCode) && c.closeOk(CloseBody(code, reason))
    requires c.maxFrameSize > 0 ==> |CloseBody(code, reason)| <= c.maxFrameSize
    ensures Idle(c, FrameBytes(c.server, OP_CLOSE, mask, CloseBody(code, reason), false) + t) ==
            Outcome([Sent(CloseEcho(ToBigEndian(code % 0x1_0000, 2)))], Fails(Closed(code % 0x1_0000)))
  {
    var body, e := CloseBody(code, reason), Close(mask, CloseBody(code, reason));
    assert body[..2] == ToBigEndian(code % 0x1_0000, 2);
    Powers();
    BigEndianRoundTrip(code % 0x1_0000, 2);
    var es := CloseRead(c, opCode, e, t, Mail([], []));
  }

  /** The events of one message and then those of more. */
  lemma MailJoin(mail: Mail, first: seq<Event>, p: seq<byte>, es: seq<Event>, more: seq<seq<byte>>)
    requires Collect(mail, first) == Mail(mail.messages + [p], [])
    requires Collect(Mail(mail.messages + [p], []), es) == Mail(mail.messages + [p] + more, [])
    ensures Collect(mail, first + es) == Mail(mail.messages + ([p] + more), [])
  {
    CollectAppend(mail, first, es);
    assert mail.messages + [p] + more == mail.messages + ([p] + more);
  }

  /**
    Everything that one side writes, the other side's reader observes with its boundaries: exactly
    the data messages in front of the first close frame, in order, each with one end of message,
    and then the close error or the end of the stream.
  */
  lemma {:induction false} LogRead(c: Config, opCode: nat, log: seq<Entry>, mail: Mail) returns (es: seq<Event>)
    requires FirstDataOp(opCode) && Accepts(c, opCode) && AllSendable(c, opCode, log) && mail.partial == []
    ensures Idle(c, LogBytes(c.server, opCode, log)) == Outcome(es, Fails(EndOf(c, log)))
    ensures Collect(mail, es) == Mail(mail.messages + DataIn(log), [])
    decreases |log|
  {
    if log == [] {
      es := [];
      assert mail.messages + [] == mail.messages;
    } else if log[0].Data? {
      var e, rest := log[0], log[1..];
      var bytes := LogBytes(c.server, opCode, rest);
      var first := DataRead(c, opCode, e, bytes, mail);
      var es' := LogRead(c, opCode, rest, Mail(mail.messages + [e.payload], []));
      MailJoin(mail, first, e.payload, es', DataIn(rest));
      es := first + es';
    } else if log[0].Close? {
      es := CloseRead(c, opCode, log[0], LogBytes(c.server, opCode, log[1..]), mail);
      assert mail.messages + [] == mail.messages;
    } else {
      PongRead(c, opCode, log[0], LogBytes(c.server, opCode, log[1..]));
      es := LogRead(c, opCode, log[1..], mail);
      assert [] + DataIn(log[1..]) == DataIn(log[1..]);
    }
  }

  lemma SizedSnoc(log: seq<Entry>, e: Entry)
    requires AllSized(log) && |e.payload| <= LEN64
    ensures AllSized(log + [e])
  {
  }

  lemma LogCons(client: bool, opCode: nat, e: Entry, log: seq<Entry>)
    requires opCode < 16 && AllSized([e] + log) && |e.payload| <= LEN64 && AllSized(log)
    ensures LogBytes(client, opCode, [e] + log) == Wire(EntryFrame(client, opCode, e)) + LogBytes(client, opCode, log)
  {
    assert ([e] + log)[1..] == log;
  }

  lemma {:induction false} LogSnoc(client: bool, opCode: nat, log: seq<Entry>, e: Entry)
    requires opCode < 16 && AllSized(log) && |e.payload| <= LEN64
    ensures AllSized(log + [e])
    ensures LogBytes(client, opCode, log + [e]) == LogBytes(client, opCode, log) + Wire(EntryFrame(client, opCode, e))
    decreases |log|
  {
    SizedSnoc(log, e);
    if log == [] {
      LogCons(client, opCode, e, []);
      assert log + [e] == [e] + [];
    } else {
      var first, rest := log[0], log[1..];
      LogSnoc(client, opCode, rest, e);
      assert log == [first] + rest && log + [e] == [first] + (rest + [e]);
      LogCons(client, opCode, first, rest);
      LogCons(client, opCode, first, rest + [e]);
    }
  }

  /** Messages that the peer can take. */
  predicate Fits(c: Config, opCode: nat, m: seq<byte>) {
    Sendable(c, opCode, Data(NO_MASK, m))
  }

  /** The log entry of a plain record. */
  function Logged(rs: seq<Record>): (log: seq<Entry>)
    ensures |log| == |rs|
  {
    seq(|rs|, i requires 0 <= i < |rs| => Data(rs[i].mask, rs[i].payload))
  }

  lemma {:induction false} PlainFrames(client: bool, opCode: nat, rs: seq<Record>)
    requires opCode < 16 && Sized(rs) && forall i :: 0 <= i < |rs| ==> !rs[i].compressed
    ensures AllSized(Logged(rs)) && FramesOf(client, opCode, rs) == LogBytes(client, opCode, Logged(rs))
    decreases |rs|
  {
    if rs != [] {
      assert Logged(rs)[1..] == Logged(rs[1..]);
      PlainFrames(client, opCode, rs[1..]);
    }
  }

  lemma {:induction false} PlainData(rs: seq<Record>, messages: seq<seq<byte>>)
    requires |rs| == |messages| && forall i :: 0 <= i < |rs| ==> rs[i].payload == messages[i]
    ensures DataIn(Logged(rs)) == messages
    decreases |rs|
  {
    if rs != [] {
      assert Logged(rs)[1..] == Logged(rs[1..]);
      PlainData(rs[1..], messages[1..]);
      assert messages == [messages[0]] + messages[1..];
    }
  }

  /**
    Messages written by one side and read by the other: whatever masks are drawn, however the network
    cuts the stream and whatever buffers the reader uses, exactly the messages arrive, in order.
  */
  method SendAndReceive(c: Config, w: MessageWriter, pooled: FlateWriter, messages: seq<seq<byte>>, ghost id: nat)
    returns (ok: bool, received: seq<seq<byte>>)
    requires w.Valid() && w.connection.sent == [] && !w.connection.held
    requires pooled.codec == w.codec && pooled.cbuf.buf.Length == 4
    requires c.server == w.client && Accepts(c, w.opCode)
    requires forall m :: m in messages ==> Fits(c, w.opCode, m) && !w.Compresses(|m|)
    modifies w.Repr(), pooled, pooled.cbuf, pooled.cbuf.buf
    ensures ok || w.connection.faulty
    ensures ok ==> received == messages
  {
    var size, err;
    ghost var rs;
    size, err, rs := w.Writev(messages, pooled, id);
    ok, received := err == Ok, [];
    if ok {
      received := Receive(c, w.client, w.opCode, messages, w.connection.sent, rs);
    }
  }

  /** Reads a stream that holds the plain frames of `messages`. */
  method Receive(c: Config, ghost client: bool, ghost opCode: nat, ghost messages: seq<seq<byte>>, stream: seq<byte>,
                 ghost rs: seq<Record>)
    returns (received: seq<seq<byte>>)
    requires c.server == client && FirstDataOp(opCode) && Accepts(c, opCode)
    requires |rs| == |messages| && Sized(rs)
    requires forall i :: 0 <= i < |rs| ==>
               !rs[i].compressed && rs[i].payload == messages[i] && Fits(c, opCode, messages[i])
    requires stream == FramesOf(client, opCode, rs)
    ensures received == messages
  {
    PlainFrames(client, opCode, rs);
    PlainData(rs, messages);
    ghost var es := LogRead(c, opCode, Logged(rs), Mail([], []));
    var mail, err;
    ghost var events, rest;
    mail, err, events, rest := ReadStream(c, stream);
    CollectAppend(Mail([], []), events, Chars(rest));
    CollectChars(mail, rest);
    assert [] + messages == messages;
    received := mail.messages;
  }
}
