/** A caller of `Read` that collects whole messages, and what a log of events says about messages. */
module ReadLoop {
  import opened Bytes
  import opened Errors
  import opened FrameReader
  import opened Framing
  import opened Inbound
  import opened Semantics
  import opened Streams

  /** The finished messages of a log, and the bytes of the message in progress. */
  datatype Mail = Mail(messages: seq<seq<byte>>, partial: seq<byte>)

  function Receive(m: Mail, e: Event): Mail {
    match e
    case Byte(b) => Mail(m.messages, m.partial + [b])
    case EndOfMessage => Mail(m.messages + [m.partial], [])
    case Sent(_) => m
  }

  function Collect(m: Mail, es: seq<Event>): Mail
    decreases |es|
  {
    if es == [] then m else Collect(Receive(m, es[0]), es[1..])
  }

  lemma {:induction false} CollectAppend(m: Mail, a: seq<Event>, b: seq<Event>)
    ensures Collect(m, a + b) == Collect(Collect(m, a), b)
    decreases |a|
  {
    if a == [] {
      assert a + b == b;
    } else {
      assert (a + b)[1..] == a[1..] + b;
      CollectAppend(Receive(m, a[0]), a[1..], b);
    }
  }

  lemma {:induction false} CollectChars(m: Mail, s: seq<byte>)
    ensures Collect(m, Chars(s)) == Mail(m.messages, m.partial + s)
    decreases |s|
  {
    if s != [] {
      assert Chars(s)[1..] == Chars(s[1..]);
      CollectChars(Mail(m.messages, m.partial + [s[0]]), s[1..]);
      assert m.partial + [s[0]] + s[1..] == m.partial + s;
    } else {
      assert m.partial + s == m.partial;
    }
  }

  lemma {:induction false} CollectAnswers(m: Mail, rs: seq<Reply>)
    ensures Collect(m, Answers(rs)) == m
    decreases |rs|
  {
    if rs != [] {
      assert Answers(rs)[1..] == Answers(rs[1..]);
      CollectAnswers(m, rs[1..]);
    }
  }

  /** The caller appends what a read returned, and takes a plain end of file for the end of a message. */
  function Appended(m: Mail, bytes: seq<byte>, err: Error): Mail {
    if err == Eof then Mail(m.messages + [m.partial + bytes], []) else Mail(m.messages, m.partial + bytes)
  }

  lemma CollectLog(log: seq<Event>, m: Mail, rs: seq<Reply>, bytes: seq<byte>, err: Error)
    requires m == Collect(Mail([], []), log)
    ensures Collect(Mail([], []), log + Log(rs, bytes, err)) == Appended(m, bytes, err)
  {
    CollectAppend(Mail([], []), log, Log(rs, bytes, err));
    var tail := if err == Eof then [EndOfMessage] else [];
    CollectAppend(m, Answers(rs) + Chars(bytes), tail);
    CollectAppend(m, Answers(rs), Chars(bytes));
    CollectAnswers(m, rs);
    CollectChars(m, bytes);
    var m' := Mail(m.messages, m.partial + bytes);
    assert Collect(m', []) == m';
    assert [EndOfMessage][1..] == [];
    assert Collect(m', [EndOfMessage]) == Receive(m', EndOfMessage);
  }

  predicate Goes(err: Error) { err == Ok || err == Eof }

  lemma LoopStep(o: Outcome, log: seq<Event>, o1: Outcome, more: seq<Event>, o2: Outcome, rest: seq<byte>, err: Error)
    requires o == Prepend(log, o1) && o.end.Fails?
    requires if Goes(err) then Follows(o1, more, o2) else Stops(o1, more, rest, err)
    ensures if Goes(err) then o == Prepend(log + more, o2)
            else o == Outcome(log + more + Chars(rest), Fails(err))
  {
    PrependTwice(log, more, o2);
    assert log + (more + Chars(rest)) == log + more + Chars(rest);
  }

  /** Of `o`, the caller has seen `log` and holds `mail`; unless an error stopped it, the rest is to come. */
  ghost predicate Seen(t: MessageReader, o: Outcome, mail: Mail, err: Error, log: seq<Event>, rest: seq<byte>)
    reads t, t.reader, t.reader.source, t.reader.raw, t.reader.cipher
  {
    && o.end.Fails?
    && mail == Collect(Mail([], []), log)
    && if Goes(err) then t.Valid() && o == Prepend(log, t.Future()) else o == Outcome(log + Chars(rest), Fails(err))
  }

  /** What every read makes smaller. */
  ghost function Left(t: MessageReader): nat
    reads t.reader, t.reader.source
  {
    if t.reader.source.Valid() then t.reader.Size() else 0
  }

  /** One read with a buffer of any size. */
  method ReadOnce(t: MessageReader, mail0: Mail, ghost o: Outcome, ghost log0: seq<Event>)
    returns (mail: Mail, err: Error, ghost log: seq<Event>, ghost rest: seq<byte>)
    requires Seen(t, o, mail0, Ok, log0, [])
    modifies t, t.reader.Repr()
    ensures t.reader.cipher == old(t.reader.cipher) || fresh(t.reader.cipher)
    ensures Seen(t, o, mail, err, log, rest)
    ensures Goes(err) ==> Left(t) < old(Left(t))
  {
    var size: nat :| size > 0;
    var buffer := new byte[size];
    assert t.reader.Repr() == old(t.reader.Repr());
    ghost var o1, rs := t.Future(), [];
    var n;
    n, err, rs, rest := t.Read(buffer);
    var bytes := buffer[..n];
    mail := Appended(mail0, bytes, err);
    CollectLog(log0, mail0, rs, bytes, err);
    log := log0 + Log(rs, bytes, err);
    LoopStep(o, log0, o1, Log(rs, bytes, err), if Goes(err) then t.Future() else o1, rest, err);
  }

  /**
    Reads with buffers of arbitrary sizes until an error other than a plain end of file, and takes
    every plain end of file for the end of a message. It always ends: each read makes progress.
  */
  method ReadToEnd(t: MessageReader) returns (mail: Mail, err: Error, ghost log: seq<Event>, ghost rest: seq<byte>)
    requires t.Valid() && t.Future().end.Fails?
    modifies t, t.reader.Repr()
    ensures old(t.Future()) == Outcome(log + Chars(rest), Fails(err))
    ensures mail == Collect(Mail([], []), log)
    ensures err != Ok && err != Eof
  {
    ghost var o := t.Future();
    PrependNone(o);
    mail, err, log, rest := Mail([], []), Ok, [], [];
    while Goes(err)
      invariant t.reader.cipher == old(t.reader.cipher) || fresh(t.reader.cipher)
      invariant Seen(t, o, mail, err, log, rest)
      decreases Goes(err), Left(t)
    {
      mail, err, log, rest := ReadOnce(t, mail, o, log);
    }
  }

  /** A fresh reader on a stream. */
  method Fresh(c: Config, stream: seq<byte>) returns (t: MessageReader)
    ensures fresh(t) && fresh(t.reader.Repr()) && t.Valid() && t.Future() == Idle(c, stream)
  {
    var source := new Source(stream);
    var answerer := new Answerer();
    var reader := new Reader(c, source, answerer);
    t := new MessageReader(reader);
    assert source.Rest() == stream;
  }

  /**
    A fresh reader on any stream in which no compressed message is delivered: what the caller sees is
    what the stream holds, however the network cut it and whatever buffers the caller used.
  */
  method ReadStream(c: Config, stream: seq<byte>)
    returns (mail: Mail, err: Error, ghost log: seq<Event>, ghost rest: seq<byte>)
    requires Idle(c, stream).end.Fails?
    ensures Idle(c, stream) == Outcome(log + Chars(rest), Fails(err))
    ensures mail == Collect(Mail([], []), log)
    ensures err != Ok && err != Eof
  {
    var t := Fresh(c, stream);
    mail, err, log, rest := ReadToEnd(t);
  }
}
