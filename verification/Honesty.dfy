/**
  When the plain end of file that `Read` returns is honest: exactly when a message is complete,
  with one exception, which is shown to happen.
*/
module Honesty {
  import opened Bytes
  import opened Errors
  import opened Frames
  import opened Framing
  import opened Header
  import opened Semantics

  /** The number of plain ends of file. */
  function Ends(es: seq<Event>): nat
    decreases |es|
  {
    if es == [] then 0 else (if es[0].EndOfMessage? then 1 else 0) + Ends(es[1..])
  }

  lemma {:induction false} EndsAppend(a: seq<Event>, b: seq<Event>)
    ensures Ends(a + b) == Ends(a) + Ends(b)
    decreases |a|
  {
    if a == [] {
      assert a + b == b;
    } else {
      assert (a + b)[1..] == a[1..] + b;
      EndsAppend(a[1..], b);
    }
  }

  lemma {:induction false} NoEnds(es: seq<Event>)
    requires forall i :: 0 <= i < |es| ==> !es[i].EndOfMessage?
    ensures Ends(es) == 0
    decreases |es|
  {
    if es != [] {
      NoEnds(es[1..]);
    }
  }

  /** In front of `s` stands no whole frame that lets the reader go on. */
  ghost predicate Stuck(c: Config, mode: Mode, s: seq<byte>) {
    forall f: Frame, t: seq<byte> {:trigger Wire(f) + t} :: OnWire(f) && s == Wire(f) + t ==> StepOf(c, mode, f).Halt?
  }

  /**
    The stream stops right behind the header of a close frame that announces a payload, inside a
    fragmented message that is being delivered.
  */
  predicate StopsAtBareClose(c: Config, mode: Mode, s: seq<byte>) {
    && mode.Mid? && mode.m.Msg?
    && ParseHeader(s).Parsed? && ParseHeader(s).size == |s|
    && CheckFrame(c, ParseHeader(s).h, true) == Ok
    && ParseHeader(s).h.opCode == OP_CLOSE && ParseHeader(s).h.length > 0
  }

  /** The frame at the front of `s`, if it is all there. */
  function FirstFrame(s: seq<byte>): Frame
    requires ParseHeader(s).Parsed?
    requires ParseHeader(s).size + ParseHeader(s).h.length <= |s|
  {
    var p := ParseHeader(s);
    Frame(s[..p.size], p.h, s[p.size..p.size + p.h.length])
  }

  lemma FirstFrameIs(s: seq<byte>)
    requires ParseHeader(s).Parsed?
    requires ParseHeader(s).size + ParseHeader(s).h.length <= |s|
    ensures var f := FirstFrame(s);
            OnWire(f) && s == Wire(f) + s[|Wire(f)|..] && |Wire(f)| >= 2
  {
    var p := ParseHeader(s);
    ParsePrefix(s, []);
    assert s[..p.size] + [] == s[..p.size];
  }

  lemma FirstFrameUnique(s: seq<byte>, f: Frame, t: seq<byte>)
    requires OnWire(f) && s == Wire(f) + t
    ensures ParseHeader(s) == Parsed(f.h, |f.hb|) && |f.hb| + f.h.length <= |s| && FirstFrame(s) == f
  {
    ParseFrame(f, t);
    assert s[..|f.hb|] == f.hb;
    assert s[|f.hb|..|f.hb| + f.h.length] == f.body;
  }

  /** The error of a data frame of `m` of which `d` is all there is. */
  function CutError(c: Config, m: Msg, d: seq<byte>): Error {
    if m.Msg? && !Decodes(c, m, d) then InvalidUtf8 else UnexpectedEof
  }

  lemma {:induction false} DeliverCutOff(c: Config, m: Msg, d: seq<byte>, fin: bool, t: seq<byte>)
    requires m.Msg?
    ensures var o := Deliver(c, m, d, false, fin, t);
            Ends(o.events) == 0 && o.end == Fails(CutError(c, m, d))
    decreases |d|
  {
    if d != [] {
      var u := if m.text then c.step(m.u, d[0]) else m.u;
      if !(m.text && u == REJECT) {
        var o := Deliver(c, Msg(m.text, u), d[1..], false, fin, t);
        DeliverCutOff(c, Msg(m.text, u), d[1..], fin, t);
        assert ([Byte(d[0])] + o.events)[1..] == o.events;
        assert RunUtf8(c, u, []) == u;
      }
    }
  }

  lemma NothingLeft(c: Config, m: Msg)
    ensures Idle(c, []) == Outcome([], Fails(UnexpectedEof))
    ensures Between(c, m, []) == Outcome([], Fails(UnexpectedEof))
  {
    assert ParseHeader([]) == Bad(Eof);
  }

  /** A data frame that is cut off. */
  lemma OpenCutOff(c: Config, m: Msg, h: Head, t: seq<byte>)
    requires |t| < h.length
    ensures Ends(Open(c, m, h, t).events) == 0 && Open(c, m, h, t).end == Fails(CutError(c, m, Unmask(h, t)))
  {
    assert Behind(h, t) == [] && Front(h, t) == t;
    NothingLeft(c, m);
    if m.Skipped? {
      assert Open(c, m, h, t) == AfterFrame(c, m, h.fin, []);
      NoEnds(Open(c, m, h, t).events);
    } else {
      DeliverCutOff(c, m, Unmask(h, t), h.fin, []);
    }
  }

  /** How reading ends at a frame with header `h` of whose payload `t` is all there is. */
  function CutEnd(c: Config, mode: Mode, h: Head, t: seq<byte>): End {
    var e := CheckFrame(c, h, mode.Mid?);
    if e != Ok then Fails(e)
    else if IsControl(h.opCode) then Fails(UnexpectedEof)
    else if mode.Ready? && Accepts(c, h.opCode) && Compressed(h) then Unspecified
    else Fails(CutError(c, if mode.Mid? then mode.m else FirstMsg(c, h), Unmask(h, t)))
  }

  /**
    A frame that is cut off in its payload. If its header is in order, and it does not start a compressed message
    that is delivered, reading ends in the UTF-8 error if it is a data frame of a delivered text of which the
    decoder rejects what there is, and otherwise in an unexpected end of file.
  */
  lemma CutOffEnds(c: Config, mode: Mode, s: seq<byte>)
    requires ParseHeader(s).Parsed? && |s| < ParseHeader(s).size + ParseHeader(s).h.length
    ensures Ends(At(c, mode, s).events) == if StopsAtBareClose(c, mode, s) then 1 else 0
    ensures At(c, mode, s).end == CutEnd(c, mode, ParseHeader(s).h, s[ParseHeader(s).size..])
    ensures StopsAtBareClose(c, mode, s) ==> At(c, mode, s) == Outcome([EndOfMessage], Fails(UnexpectedEof))
  {
    var h, t := ParseHeader(s).h, s[ParseHeader(s).size..];
    assert Behind(h, t) == [];
    if CheckFrame(c, h, mode.Mid?) == Ok && !IsControl(h.opCode) {
      OpenCutOff(c, if mode.Mid? then mode.m else FirstMsg(c, h), h, t);
      match mode
      case Ready =>
        assert At(c, mode, s) == (if Accepts(c, h.opCode) && Compressed(h) then Outcome([], Unspecified)
                                  else Open(c, FirstMsg(c, h), h, t));
      case Mid(m) =>
        assert At(c, mode, s) == Open(c, m, h, t);
    } else if mode.Mid? && StopsAtBareClose(c, mode, s) {
      assert t == [];
      assert Ends([EndOfMessage]) == 1;
    } else {
      NothingLeft(c, if mode.Mid? then mode.m else Skipped);
      NoEnds(At(c, mode, s).events);
    }
  }

  lemma HaltEnds(c: Config, mode: Mode, f: Frame)
    requires StepOf(c, mode, f).Halt?
    ensures Ends(StepOf(c, mode, f).es) == 0 && StepOf(c, mode, f).end != Fails(Eof)
  {
    NoEnds(StepOf(c, mode, f).es);
  }

  /** How reading ends at a stream `s` in front of which it is stuck. */
  function StuckEnd(c: Config, mode: Mode, s: seq<byte>): End {
    match ParseHeader(s)
    case Bad(e) => Fails(if e == Eof then UnexpectedEof else e)
    case Parsed(h, k) =>
      if |s| < k + h.length then CutEnd(c, mode, h, s[k..])
      else match StepOf(c, mode, FirstFrame(s))
        case Halt(_, end) => end
        case Go(_, _) => Unspecified
  }

  /**
    Nothing but a bare close is an end of message where the reader is stuck, and the error is that of the
    header, of the cut, or of the frame that stops the reader.
  */
  lemma StuckEnds(c: Config, mode: Mode, s: seq<byte>)
    requires Stuck(c, mode, s)
    ensures Ends(At(c, mode, s).events) == if StopsAtBareClose(c, mode, s) then 1 else 0
    ensures At(c, mode, s).end == StuckEnd(c, mode, s) != Fails(Eof)
    ensures StopsAtBareClose(c, mode, s) ==> At(c, mode, s) == Outcome([EndOfMessage], Fails(UnexpectedEof))
  {
    if ParseHeader(s).Bad? {
      assert At(c, mode, s).events == [];
    } else if |s| < ParseHeader(s).size + ParseHeader(s).h.length {
      CutOffEnds(c, mode, s);
    } else {
      FirstFrameIs(s);
      var f := FirstFrame(s);
      FrameReads(c, mode, f, s[|Wire(f)|..]);
      HaltEnds(c, mode, f);
    }
  }

  /** The stream `s` is the whole frames `fs`, which are read as `es`, and a rest at which the reader is stuck. */
  ghost predicate Splits(c: Config, mode: Mode, s: seq<byte>, fs: seq<Frame>, es: seq<Event>, last: Mode,
                         rest: seq<byte>)
  {
    && AllOnWire(fs) && s == Stream(fs) + rest
    && Run(c, mode, fs) == Go(es, last) && Stuck(c, last, rest)
  }

  /** Every byte string is a run of whole frames and a rest at which the reader is stuck. */
  lemma {:induction false} Split(c: Config, mode: Mode, s: seq<byte>)
    returns (fs: seq<Frame>, es: seq<Event>, last: Mode, rest: seq<byte>)
    ensures Splits(c, mode, s, fs, es, last, rest)
    decreases |s|
  {
    if ParseHeader(s).Parsed? && ParseHeader(s).size + ParseHeader(s).h.length <= |s|
       && StepOf(c, mode, FirstFrame(s)).Go? {
      FirstFrameIs(s);
      var f, t := FirstFrame(s), s[|Wire(FirstFrame(s))|..];
      var fs', es';
      fs', es', last, rest := Split(c, StepOf(c, mode, f).next, t);
      fs := [f] + fs';
      es := StepOf(c, mode, f).es + es';
      assert fs[1..] == fs';
      assert Stream(fs) + rest == Wire(f) + (Stream(fs') + rest);
    } else {
      fs, es, last, rest := [], [], mode, s;
      assert Stream([]) + rest == rest;
      forall f: Frame, t: seq<byte> {:trigger Wire(f) + t} | OnWire(f) && s == Wire(f) + t
        ensures StepOf(c, mode, f).Halt?
      {
        FirstFrameUnique(s, f, t);
      }
    }
  }

  /** The number of messages that the frames `fs` complete, without those that are skipped: their final data frames. */
  function Completed(c: Config, inside: bool, skip: bool, fs: seq<Frame>): nat
    decreases |fs|
  {
    if fs == [] then 0
    else if IsControl(fs[0].h.opCode) then Completed(c, inside, skip, fs[1..])
    else
      var skipped := if inside then skip else !Accepts(c, fs[0].h.opCode);
      (if fs[0].h.fin && !skipped then 1 else 0) + Completed(c, !fs[0].h.fin, skipped, fs[1..])
  }

  lemma StepCompletes(c: Config, mode: Mode, f: Frame)
    requires StepOf(c, mode, f).Go?
    ensures var es, next := StepOf(c, mode, f).es, StepOf(c, mode, f).next;
            if IsControl(f.h.opCode) then next == mode && Ends(es) == 0
            else
              var skipped := if mode.Mid? then mode.m.Skipped? else !Accepts(c, f.h.opCode);
              && Ends(es) == (if f.h.fin && !skipped then 1 else 0)
              && next.Mid? == !f.h.fin && (next.Mid? ==> next.m.Skipped? == skipped)
  {
    var es, p := StepOf(c, mode, f).es, Payload(f);
    NoEnds(Chars(p));
    assert [EndOfMessage][1..] == [] && Ends([EndOfMessage]) == 1;
    EndsAppend(Chars(p), [EndOfMessage]);
    if es != Chars(p) + [EndOfMessage] {
      NoEnds(es);
    }
  }

  lemma {:induction false} RunCompletes(c: Config, mode: Mode, fs: seq<Frame>)
    requires Run(c, mode, fs).Go?
    ensures Ends(Run(c, mode, fs).es) == Completed(c, mode.Mid?, mode.Mid? && mode.m.Skipped?, fs)
    decreases |fs|
  {
    if fs != [] {
      var f := fs[0];
      StepCompletes(c, mode, f);
      RunCompletes(c, StepOf(c, mode, f).next, fs[1..]);
      EndsAppend(StepOf(c, mode, f).es, Run(c, StepOf(c, mode, f).next, fs[1..]).es);
      CompletedSkip(c, fs[1..]);
    }
  }

  /** Between messages it does not matter how the message before was treated. */
  lemma CompletedSkip(c: Config, fs: seq<Frame>)
    ensures Completed(c, false, true, fs) == Completed(c, false, false, fs)
    decreases |fs|
  {
  }

  /**
    The end of file is honest, for every byte string, which `Split` cuts into whole frames and a rest: it is
    returned once for each message that the whole frames complete, and once more if and only if the rest
    stops right behind the header of a close frame with a payload inside a message that is being delivered.
    The last error is that of the rest, and never a plain end of file.
  */
  lemma EofHonest(c: Config, s: seq<byte>, fs: seq<Frame>, es: seq<Event>, last: Mode, rest: seq<byte>)
    requires Splits(c, Ready, s, fs, es, last, rest)
    ensures es <= Idle(c, s).events
    ensures Ends(Idle(c, s).events) ==
            Completed(c, false, false, fs) + (if StopsAtBareClose(c, last, rest) then 1 else 0)
    ensures Idle(c, s).end == StuckEnd(c, last, rest) != Fails(Eof)
  {
    RunCompletes(c, Ready, fs);
    StreamReads(c, Ready, fs, rest);
    StuckEnds(c, last, rest);
    EndsAppend(es, At(c, last, rest).events);
  }

  /** An unmasked header with a seven-bit length. */
  lemma ShortHeader(b0: byte, b1: byte, t: seq<byte>, s: seq<byte>)
    requires b1 < 126 && s == [b0, b1] + t
    ensures ParseHeader(s) == Parsed(Head(b0 >= 128, b0 / 16 % 8, b0 % 16, false, NO_MASK, b1), 2)
    ensures s[2..] == t
  {
  }

  /** A client reads the first fragment "a" of a text message. */
  lemma FirstFragment(c: Config, s: seq<byte>, rest: seq<byte>)
    requires !c.server && !c.checkUtf8 && c.maxFrameSize == 0 && c.accept == 1
    requires s == [0x01, 0x01, 97] + rest
    ensures Idle(c, s) == Prepend([Byte(97)], Between(c, Msg(false, ACCEPT), rest))
  {
    var f := Frame([0x01, 0x01], Head(false, 0, OP_TEXT, false, NO_MASK, 1), [97]);
    ShortHeader(0x01, 0x01, [], f.hb);
    assert s == Wire(f) + rest;
    FrameReads(c, Ready, f, rest);
    assert Chars([97]) == [Byte(97)];
    assert DataStep(c, Msg(false, ACCEPT), f) == Go([Byte(97)], Mid(Msg(false, ACCEPT)));
  }

  /**
    It happens: behind that fragment stands the header of a close frame of two bytes, and the stream stops. The
    reader returns a plain end of file, as if "a" were a whole message.
  */
  lemma BareCloseHappens(c: Config, s: seq<byte>)
    requires !c.server && !c.checkUtf8 && c.maxFrameSize == 0 && c.accept == 1
    requires s == [0x01, 0x01, 97, 0x88, 0x02]
    ensures Idle(c, s) == Outcome([Byte(97), EndOfMessage], Fails(UnexpectedEof))
  {
    var rest := s[3..];
    ShortHeader(0x88, 0x02, [], rest);
    FirstFragment(c, s, rest);
    CutOffEnds(c, Mid(Msg(false, ACCEPT)), rest);
  }

  /** A header that is cut off anywhere shows nothing and ends in an unexpected end of file. */
  lemma HeaderCutOff(c: Config, m: Msg, s: seq<byte>, j: nat)
    requires ParseHeader(s).Parsed? && j < ParseHeader(s).size
    ensures Idle(c, s[..j]) == Between(c, m, s[..j]) == Outcome([], Fails(UnexpectedEof))
  {
    ParseTruncated(s, j);
  }

  /** The first thing observed is a pong that is shorter than the ping with header `h`. */
  predicate PartialPong(o: Outcome, h: Head) {
    o.events != [] && o.events[0].Sent? && o.events[0].reply.Pong? && |o.events[0].reply.payload| < h.length
  }

  /**
    A ping in front of the stream `s`. It is answered with a part of its payload if and only if the stream stops
    inside the payload, with at least one byte of it, inside a fragmented message. A ping that is all there is
    answered with its whole payload, and any other one that is cut off is not answered.
  */
  lemma TruncatedPing(c: Config, mode: Mode, s: seq<byte>)
    requires ParseHeader(s).Parsed? && ParseHeader(s).h.opCode == OP_PING
    requires CheckFrame(c, ParseHeader(s).h, mode.Mid?) == Ok
    ensures var h, t, o := ParseHeader(s).h, s[ParseHeader(s).size..], At(c, mode, s);
            && (PartialPong(o, h) <==> mode.Mid? && 0 < |t| < h.length)
            && (|t| < h.length ==>
                  o == Outcome(if mode.Mid? && t != [] then [Sent(Pong(Unmask(h, t)))] else [], Fails(UnexpectedEof)))
            && (h.length <= |t| ==> o.events != [] && o.events[0] == Sent(Pong(Unmask(h, t[..h.length]))))
  {
    var h, t := ParseHeader(s).h, s[ParseHeader(s).size..];
    var p := Unmask(h, Front(h, t));
    assert Answers([Pong(p)]) == [Sent(Pong(p))];
    if |t| < h.length {
      NothingLeft(c, if mode.Mid? then mode.m else Skipped);
      assert Front(h, t) == t && Behind(h, t) == [];
    } else {
      assert PingReplies(h, p) == [Pong(p)];
    }
  }

  /**
    It happens: behind that first fragment stands a ping that announces five bytes. If the stream stops behind
    one of them, "b", the pong carries "b"; if it stops right behind the header, there is no pong.
  */
  lemma TruncatedPingHappens(c: Config, s: seq<byte>)
    requires !c.server && !c.checkUtf8 && c.maxFrameSize == 0 && c.accept == 1
    ensures s == [0x01, 0x01, 97, 0x89, 0x05, 98] ==>
              Idle(c, s) == Outcome([Byte(97), Sent(Pong([98]))], Fails(UnexpectedEof))
    ensures s == [0x01, 0x01, 97, 0x89, 0x05] ==> Idle(c, s) == Outcome([Byte(97)], Fails(UnexpectedEof))
  {
    if s == [0x01, 0x01, 97, 0x89, 0x05, 98] {
      CutPing(c, s, [98]);
    } else if s == [0x01, 0x01, 97, 0x89, 0x05] {
      CutPing(c, s, []);
    }
  }

  lemma CutPing(c: Config, s: seq<byte>, t: seq<byte>)
    requires !c.server && !c.checkUtf8 && c.maxFrameSize == 0 && c.accept == 1
    requires |t| < 5 && s == [0x01, 0x01, 97, 0x89, 0x05] + t
    ensures Idle(c, s) == Outcome([Byte(97)] + (if t != [] then [Sent(Pong(t))] else []), Fails(UnexpectedEof))
  {
    var rest := s[3..];
    ShortHeader(0x89, 0x05, t, rest);
    FirstFragment(c, s, rest);
    TruncatedPing(c, Mid(Msg(false, ACCEPT)), rest);
  }
}
