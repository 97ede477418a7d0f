/**
  Whole messages: reassembly of fragments with the UTF-8 verdict, and messages that are dropped.
*/
module Messages {
  import opened Bytes
  import opened Errors
  import opened Frames
  import opened Framing
  import opened Header
  import opened ReadLoop
  import opened Semantics

  function Replies(es: seq<Event>): seq<Reply>
    decreases |es|
  {
    if es == [] then []
    else (if es[0].Sent? then [es[0].reply] else []) + Replies(es[1..])
  }

  lemma {:induction false} RepliesAppend(a: seq<Event>, b: seq<Event>)
    ensures Replies(a + b) == Replies(a) + Replies(b)
    decreases |a|
  {
    if a == [] {
      assert a + b == b;
    } else {
      assert (a + b)[1..] == a[1..] + b;
      RepliesAppend(a[1..], b);
      var first := if a[0].Sent? then [a[0].reply] else [];
      assert first + (Replies(a[1..]) + Replies(b)) == (first + Replies(a[1..])) + Replies(b);
    }
  }

  lemma {:induction false} RepliesOfChars(s: seq<byte>)
    ensures Replies(Chars(s)) == []
    decreases |s|
  {
    if s != [] {
      assert Chars(s)[1..] == Chars(s[1..]);
      RepliesOfChars(s[1..]);
    }
  }

  lemma {:induction false} RepliesOfAnswers(rs: seq<Reply>)
    ensures Replies(Answers(rs)) == rs
    decreases |rs|
  {
    if rs != [] {
      assert Answers(rs)[1..] == Answers(rs[1..]);
      RepliesOfAnswers(rs[1..]);
    }
  }

  // ----- the frames of one message -----

  /** Continuation frames up to the final one, with pings and pongs among them. */
  predicate Fragments(c: Config, fs: seq<Frame>)
    decreases |fs|
  {
    && fs != []
    && OnWire(fs[0]) && CheckFrame(c, fs[0].h, true) == Ok
    && if IsControl(fs[0].h.opCode) then fs[0].h.opCode != OP_CLOSE && Fragments(c, fs[1..])
       else if fs[0].h.fin then |fs| == 1
       else Fragments(c, fs[1..])
  }

  /** The frames of one message, section 5.4 of RFC 6455. */
  predicate IsMessage(c: Config, fs: seq<Frame>) {
    && fs != []
    && OnWire(fs[0]) && CheckFrame(c, fs[0].h, false) == Ok
    && FirstDataOp(fs[0].h.opCode)
    && if fs[0].h.fin then |fs| == 1 else Fragments(c, fs[1..])
  }

  /** The payloads of the data frames, put together. */
  function DataOf(fs: seq<Frame>): seq<byte>
    decreases |fs|
  {
    if fs == [] then []
    else (if IsControl(fs[0].h.opCode) then [] else Payload(fs[0])) + DataOf(fs[1..])
  }

  /** The pongs owed to the pings, in order and each with the payload of its ping. */
  function PongsOf(fs: seq<Frame>): seq<Reply>
    decreases |fs|
  {
    if fs == [] then []
    else (if fs[0].h.opCode == OP_PING then [Pong(Payload(fs[0]))] else []) + PongsOf(fs[1..])
  }

  /** The decoder, from state `u`, ends on a whole code point after `data`. */
  predicate AllText(c: Config, m: Msg, data: seq<byte>)
    requires m.Msg?
  {
    m.text ==> RunUtf8(c, m.u, data) == ACCEPT
  }

  /** After `mail`, `es` delivers the message whose rest is `data`, and the answers `pongs` are written. */
  predicate Delivers(mail: Mail, es: seq<Event>, data: seq<byte>, pongs: seq<Reply>) {
    Collect(mail, es) == Mail(mail.messages + [mail.partial + data], []) && Replies(es) == pongs
  }

  /** After `mail`, `es` delivers a part of `data` and no end of message. */
  predicate Withholds(mail: Mail, es: seq<Event>, data: seq<byte>) {
    var m := Collect(mail, es);
    m.messages == mail.messages && mail.partial <= m.partial <= mail.partial + data
  }

  /** The last frame of a message. */
  lemma LastFrame(c: Config, m: Msg, f: Frame, mail: Mail) returns (es: seq<Event>)
    requires m.Msg? && f.h.fin
    ensures if AllText(c, m, Payload(f))
            then DataStep(c, m, f) == Go(es, Ready) && Delivers(mail, es, Payload(f), [])
            else DataStep(c, m, f) == Halt(es, Fails(InvalidUtf8)) && Withholds(mail, es, Payload(f))
  {
    var p := Payload(f);
    var st := DataStep(c, m, f);
    es := st.es;
    if st.Go? {
      RepliesAppend(Chars(p), [EndOfMessage]);
      RepliesOfChars(p);
      assert [EndOfMessage][1..] == [];
      CollectAppend(mail, Chars(p), [EndOfMessage]);
      CollectChars(mail, p);
      var mail' := Mail(mail.messages, mail.partial + p);
      assert Collect(mail', [EndOfMessage]) == Collect(Receive(mail', EndOfMessage), []);
    } else {
      RejectedAtBound(c, m.u, p);
      var k := if Decodes(c, m, p) then |p| else RejectedAt(c, m.u, p);
      assert es == Chars(p[..k]);
      CollectChars(mail, p[..k]);
      assert (mail.partial + p)[..|mail.partial| + k] == mail.partial + p[..k];
    }
  }

  lemma AnswersAndChars(mail: Mail, rs: seq<Reply>, s: seq<byte>)
    ensures Collect(mail, Answers(rs) + Chars(s)) == Mail(mail.messages, mail.partial + s)
    ensures Replies(Answers(rs) + Chars(s)) == rs
  {
    CollectAppend(mail, Answers(rs), Chars(s));
    CollectAnswers(mail, rs);
    CollectChars(mail, s);
    RepliesAppend(Answers(rs), Chars(s));
    RepliesOfAnswers(rs);
    RepliesOfChars(s);
  }

  /** A frame in front of the rest of the message: its answers and its bytes come first. */
  lemma FrameBefore(mail: Mail, rs: seq<Reply>, s: seq<byte>, es: seq<Event>, data: seq<byte>, pongs: seq<Reply>)
    ensures var mail', all := Mail(mail.messages, mail.partial + s), Answers(rs) + Chars(s) + es;
            && (Delivers(mail', es, data, pongs) ==> Delivers(mail, all, s + data, rs + pongs))
            && (Withholds(mail', es, data) ==> Withholds(mail, all, s + data))
  {
    AnswersAndChars(mail, rs, s);
    CollectAppend(mail, Answers(rs) + Chars(s), es);
    RepliesAppend(Answers(rs) + Chars(s), es);
    assert (mail.partial + s) + data == mail.partial + (s + data);
  }

  lemma AllTextSplit(c: Config, m: Msg, p: seq<byte>, rest: seq<byte>)
    requires m.Msg?
    ensures AllText(c, m, p + rest) == (Decodes(c, m, p) && AllText(c, Advance(c, m, p), rest))
  {
    RunUtf8Split(c, m.u, p, rest);
  }

  /** The verdict on the fragments `fs` of the message `m`, and what is observed of them. */
  ghost predicate Verdict(c: Config, m: Msg, data: seq<byte>, pongs: seq<Reply>, mail: Mail, st: Step)
    requires m.Msg?
  {
    if AllText(c, m, data) then st == Go(st.es, Ready) && Delivers(mail, st.es, data, pongs)
    else st == Halt(st.es, Fails(InvalidUtf8)) && Withholds(mail, st.es, data)
  }

  lemma VerdictLast(c: Config, m: Msg, f: Frame, mail: Mail)
    requires m.Msg? && f.h.fin
    ensures Verdict(c, m, Payload(f), [], mail, DataStep(c, m, f))
  {
    var es := LastFrame(c, m, f, mail);
  }

  /** A data frame in front of the rest of its message. */
  lemma VerdictData(c: Config, m: Msg, f: Frame, data: seq<byte>, pongs: seq<Reply>, mail: Mail, st: Step)
    requires m.Msg? && !f.h.fin
    requires var p := Payload(f);
             Decodes(c, m, p) ==>
               Verdict(c, Advance(c, m, p), data, pongs, Mail(mail.messages, mail.partial + p), st)
    ensures Verdict(c, m, Payload(f) + data, pongs, mail,
                    match DataStep(c, m, f)
                    case Halt(es, end) => Halt(es, end)
                    case Go(es, _) => if st.Go? then Go(es + st.es, st.next) else Halt(es + st.es, st.end))
  {
    var p := Payload(f);
    AllTextSplit(c, m, p, data);
    if Decodes(c, m, p) {
      FrameBefore(mail, [], p, st.es, data, pongs);
      assert Answers([]) + Chars(p) + st.es == Chars(p) + st.es;
      assert [] + pongs == pongs;
    } else {
      RejectedAtBound(c, m.u, p);
      var k := RejectedAt(c, m.u, p);
      CollectChars(mail, p[..k]);
      assert (mail.partial + (p + data))[..|mail.partial| + k] == mail.partial + p[..k];
    }
  }

  /** A ping or a pong in front of the rest of a message leaves the message alone. */
  lemma VerdictControl(c: Config, m: Msg, rs: seq<Reply>, data: seq<byte>, pongs: seq<Reply>, mail: Mail, st: Step)
    requires m.Msg? && Verdict(c, m, data, pongs, mail, st)
    ensures Verdict(c, m, data, rs + pongs, mail,
                    if st.Go? then Go(Answers(rs) + st.es, st.next) else Halt(Answers(rs) + st.es, st.end))
  {
    FrameBefore(mail, rs, [], st.es, data, pongs);
    assert Answers(rs) + Chars([]) + st.es == Answers(rs) + st.es;
    assert Mail(mail.messages, mail.partial + []) == mail;
    assert [] + data == data;
  }

  lemma {:induction false} FragmentsRun(c: Config, m: Msg, fs: seq<Frame>, mail: Mail)
    requires m.Msg? && Fragments(c, fs)
    ensures Verdict(c, m, DataOf(fs), PongsOf(fs), mail, Run(c, Mid(m), fs))
    decreases |fs|
  {
    var f, rest, p := fs[0], fs[1..], Payload(fs[0]);
    if IsControl(f.h.opCode) {
      FragmentsRun(c, m, rest, mail);
      VerdictControl(c, m, PingReplies(f.h, p), DataOf(rest), PongsOf(rest), mail, Run(c, Mid(m), rest));
      assert DataOf(fs) == [] + DataOf(rest) == DataOf(rest);
    } else if f.h.fin {
      VerdictLast(c, m, f, mail);
      RunOne(c, Mid(m), f);
      assert fs == [f];
      assert DataOf(fs) == p + DataOf([]) == p && PongsOf(fs) == [] + PongsOf([]) == [];
    } else {
      if Decodes(c, m, p) {
        FragmentsRun(c, Advance(c, m, p), rest, Mail(mail.messages, mail.partial + p));
      }
      VerdictData(c, m, f, DataOf(rest), PongsOf(rest), mail, Run(c, Mid(Advance(c, m, p)), rest));
      assert PongsOf(fs) == [] + PongsOf(rest) == PongsOf(rest);
    }
  }

  lemma RunOne(c: Config, mode: Mode, f: Frame)
    ensures Run(c, mode, [f]) == StepOf(c, mode, f)
  {
    assert [f][1..] == [];
    match StepOf(c, mode, f)
    case Go(es, next) => assert es + [] == es;
    case Halt(_, _) =>
  }

  lemma {:induction false} FragmentsOnWire(c: Config, fs: seq<Frame>)
    requires Fragments(c, fs)
    ensures AllOnWire(fs)
    decreases |fs|
  {
    if |fs| > 1 {
      FragmentsOnWire(c, fs[1..]);
      forall i | 0 <= i < |fs|
        ensures OnWire(fs[i])
      {
        if i > 0 {
          assert fs[i] == fs[1..][i - 1];
        }
      }
    }
  }

  lemma MessageOnWire(c: Config, fs: seq<Frame>)
    requires IsMessage(c, fs)
    ensures AllOnWire(fs)
  {
    if |fs| > 1 {
      FragmentsOnWire(c, fs[1..]);
      forall i | 0 < i < |fs|
        ensures OnWire(fs[i])
      {
        assert fs[i] == fs[1..][i - 1];
      }
    }
  }

  lemma MessageRun(c: Config, fs: seq<Frame>, mail: Mail)
    requires IsMessage(c, fs) && Accepts(c, fs[0].h.opCode) && !Compressed(fs[0].h)
    ensures Verdict(c, FirstMsg(c, fs[0].h), DataOf(fs), PongsOf(fs), mail, Run(c, Ready, fs))
  {
    var f, rest, p, m := fs[0], fs[1..], Payload(fs[0]), FirstMsg(c, fs[0].h);
    if f.h.fin {
      VerdictLast(c, m, f, mail);
      RunOne(c, Ready, f);
      assert fs == [f];
      assert DataOf(fs) == p + DataOf([]) == p && PongsOf(fs) == [] + PongsOf([]) == [];
    } else {
      if Decodes(c, m, p) {
        FragmentsRun(c, Advance(c, m, p), rest, Mail(mail.messages, mail.partial + p));
      }
      VerdictData(c, m, f, DataOf(rest), PongsOf(rest), mail, Run(c, Mid(Advance(c, m, p)), rest));
      assert PongsOf(fs) == [] + PongsOf(rest) == PongsOf(rest);
    }
  }

  function EventsOf(c: Config, fs: seq<Frame>): seq<Event> { Run(c, Ready, fs).es }

  /**
    Reassembly. An uncompressed message of an accepted kind, cut into any number of fragments with any pings and
    pongs among them and followed by any bytes, is delivered as the concatenation of its fragments
    with one end of message behind it, and each ping is answered in order with its own payload.
    With the UTF-8 check, this holds of a text message if and only if the decoder accepts that
    concatenation; otherwise the reader stops with the UTF-8 error and no end of message.
  */
  lemma Reassembly(c: Config, fs: seq<Frame>, t: seq<byte>, mail: Mail)
    requires IsMessage(c, fs) && Accepts(c, fs[0].h.opCode) && !Compressed(fs[0].h)
    ensures var o, es := Idle(c, Stream(fs) + t), EventsOf(c, fs);
            if c.checkUtf8 && fs[0].h.opCode == OP_TEXT && RunUtf8(c, ACCEPT, DataOf(fs)) != ACCEPT
            then o == Outcome(es, Fails(InvalidUtf8)) && Withholds(mail, es, DataOf(fs))
            else o == Prepend(es, Idle(c, t)) && Delivers(mail, es, DataOf(fs), PongsOf(fs))
  {
    MessageOnWire(c, fs);
    MessageRun(c, fs, mail);
    StreamReads(c, Ready, fs, t);
  }

  // ----- messages that are not accepted -----

  lemma {:induction false} SkipRun(c: Config, fs: seq<Frame>)
    requires Fragments(c, fs)
    ensures Run(c, Mid(Skipped), fs) == Go(Answers(PongsOf(fs) + [CloseUnsupported]), Ready)
    decreases |fs|
  {
    var f, rest := fs[0], fs[1..];
    assert Answers([CloseUnsupported]) == [Sent(CloseUnsupported)];
    if !IsControl(f.h.opCode) && f.h.fin {
      RunOne(c, Mid(Skipped), f);
      assert fs == [f];
      assert PongsOf(fs) == [] + PongsOf([]) == [];
      assert [] + [CloseUnsupported] == [CloseUnsupported];
    } else {
      SkipRun(c, rest);
      var rs := if f.h.opCode == OP_PING then [Pong(Payload(f))] else [];
      AnswersAppend(rs, PongsOf(rest) + [CloseUnsupported]);
      assert rs + (PongsOf(rest) + [CloseUnsupported]) == PongsOf(fs) + [CloseUnsupported];
      assert [] + Answers(PongsOf(rest) + [CloseUnsupported]) == Answers(PongsOf(rest) + [CloseUnsupported]);
    }
  }

  /**
    A message of a kind that is not accepted is dropped exactly: its pings are answered, the peer
    is told, and reading goes on with the byte behind its last frame.
  */
  lemma MessageSkipped(c: Config, fs: seq<Frame>, t: seq<byte>)
    requires IsMessage(c, fs) && !Accepts(c, fs[0].h.opCode)
    ensures Idle(c, Stream(fs) + t) == Prepend(Answers(PongsOf(fs) + [CloseUnsupported]), Idle(c, t))
  {
    MessageOnWire(c, fs);
    StreamReads(c, Ready, fs, t);
    var f, rest := fs[0], fs[1..];
    if f.h.fin {
      RunOne(c, Ready, f);
      assert fs == [f];
      assert PongsOf(fs) == [] + PongsOf([]) == [];
      assert [] + [CloseUnsupported] == [CloseUnsupported];
      assert Answers([CloseUnsupported]) == [Sent(CloseUnsupported)];
    } else {
      SkipRun(c, rest);
      assert PongsOf(fs) == [] + PongsOf(rest) == PongsOf(rest);
      assert [] + Answers(PongsOf(rest) + [CloseUnsupported]) == Answers(PongsOf(rest) + [CloseUnsupported]);
    }
  }

  // ----- where a message ends -----

  lemma StreamRest(f: Frame, rest: seq<Frame>, t: seq<byte>, s: seq<byte>)
    requires s == Stream([f] + rest) + t
    ensures s == Wire(f) + (Stream(rest) + t) && s[|Wire(f)|..] == Stream(rest) + t
    ensures |Stream([f] + rest)| == |Wire(f)| + |Stream(rest)|
  {
    assert ([f] + rest)[1..] == rest;
  }

  lemma {:induction false} FragmentsEnd(c: Config, data: seq<byte>, from: nat, fs: seq<Frame>, t: seq<byte>)
    requires Fragments(c, fs) && from <= |data| && data[from..] == Stream(fs) + t
    ensures MessageEnd(data, from, true) == from + |Stream(fs)|
    decreases |fs|
  {
    var f, rest, s := fs[0], fs[1..], data[from..];
    assert fs == [f] + rest;
    StreamRest(f, rest, t, s);
    ParseFrame(f, Stream(rest) + t);
    var next := from + |Wire(f)|;
    assert data[next..] == s[|Wire(f)|..];
    MessageGoesOn(data, from, s, f.h, next, IsControl(f.h.opCode) || !f.h.fin);
    if IsControl(f.h.opCode) || !f.h.fin {
      FragmentsEnd(c, data, next, rest, t);
    }
  }

  /** The message whose frames are `fs` ends behind the last of them, whatever follows. */
  lemma MessageEndsThere(c: Config, fs: seq<Frame>, t: seq<byte>)
    requires IsMessage(c, fs)
    ensures MessageEnd(Stream(fs) + t, |Wire(fs[0])|, !fs[0].h.fin) == |Stream(fs)|
  {
    var f, rest, s := fs[0], fs[1..], Stream(fs) + t;
    assert fs == [f] + rest;
    StreamRest(f, rest, t, s);
    if !f.h.fin {
      FragmentsEnd(c, s, |Wire(f)|, rest, t);
    }
  }
}
