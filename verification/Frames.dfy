/**
  Whole frames on the wire. A frame-at-a-time automaton says what each frame does, and reading a
  stream of frames byte by byte is shown to be a run of that automaton.
*/
module Frames {
  import opened Bytes
  import opened Errors
  import opened Framing
  import opened Header
  import opened Semantics

  /** The header as its bytes (of any length form) and its meaning, and the payload as it is sent. */
  datatype Frame = Frame(hb: seq<byte>, h: Head, body: seq<byte>)

  predicate OnWire(f: Frame) {
    ParseHeader(f.hb) == Parsed(f.h, |f.hb|) && |f.body| == f.h.length
  }

  function Wire(f: Frame): seq<byte> { f.hb + f.body }

  function Payload(f: Frame): seq<byte> { Unmask(f.h, f.body) }

  function Stream(fs: seq<Frame>): seq<byte> {
    if fs == [] then [] else Wire(fs[0]) + Stream(fs[1..])
  }

  datatype Mode = Ready | Mid(m: Msg)

  /** What is observed in a mode. */
  function At(c: Config, mode: Mode, s: seq<byte>): Outcome {
    match mode
    case Ready => Idle(c, s)
    case Mid(m) => Between(c, m, s)
  }

  datatype Step = Go(es: seq<Event>, next: Mode) | Halt(es: seq<Event>, end: End)

  /** How many bytes of `s` the decoder accepts before it rejects. */
  function RejectedAt(c: Config, u: int, s: seq<byte>): nat
    decreases |s|
  {
    if s == [] || c.step(u, s[0]) == REJECT then 0 else 1 + RejectedAt(c, c.step(u, s[0]), s[1..])
  }

  lemma {:induction false} RejectedAtBound(c: Config, u: int, s: seq<byte>)
    ensures RejectedAt(c, u, s) <= |s|
    decreases |s|
  {
    if s != [] && c.step(u, s[0]) != REJECT {
      RejectedAtBound(c, c.step(u, s[0]), s[1..]);
    }
  }

  /** A data frame of the message `m`. */
  function DataStep(c: Config, m: Msg, f: Frame): Step {
    var p := Payload(f);
    if m.Skipped? then
      if f.h.fin then Go([Sent(CloseUnsupported)], Ready) else Go([], Mid(Skipped))
    else if !Decodes(c, m, p) then
      RejectedAtBound(c, m.u, p);
      Halt(Chars(p[..RejectedAt(c, m.u, p)]), Fails(InvalidUtf8))
    else
      var m' := Advance(c, m, p);
      if !f.h.fin then Go(Chars(p), Mid(m'))
      else if m'.text && m'.u != ACCEPT then Halt(Chars(p), Fails(InvalidUtf8))
      else Go(Chars(p) + [EndOfMessage], Ready)
  }

  function FirstMsg(c: Config, h: Head): Msg {
    if !Accepts(c, h.opCode) then Skipped else Msg(c.checkUtf8 && h.opCode == OP_TEXT, ACCEPT)
  }

  function StepOf(c: Config, mode: Mode, f: Frame): Step {
    var e := CheckFrame(c, f.h, mode.Mid?);
    if e != Ok then Halt([], Fails(e))
    else if f.h.opCode == OP_CLOSE then
      Halt([Sent(CloseReply(c, Payload(f)))], Fails(CloseError(c, Payload(f))))
    else if IsControl(f.h.opCode) then Go(Answers(PingReplies(f.h, Payload(f))), mode)
    else match mode
      case Mid(m) => DataStep(c, m, f)
      case Ready =>
        if Accepts(c, f.h.opCode) && Compressed(f.h) then Halt([], Unspecified)
        else DataStep(c, FirstMsg(c, f.h), f)
  }

  function AfterStep(c: Config, st: Step, t: seq<byte>): Outcome {
    match st
    case Go(es, next) => Prepend(es, At(c, next, t))
    case Halt(es, end) => Outcome(es, end)
  }

  // ----- one frame -----

  lemma ParseFrame(f: Frame, t: seq<byte>)
    requires OnWire(f)
    ensures var s := Wire(f) + t;
            && ParseHeader(s) == Parsed(f.h, |f.hb|)
            && Front(f.h, s[|f.hb|..]) == f.body && Behind(f.h, s[|f.hb|..]) == t
            && f.h.length <= |s[|f.hb|..]|
  {
    var s := Wire(f) + t;
    ParsePrefix(f.hb, f.body + t);
    assert f.hb[..|f.hb|] + (f.body + t) == s;
    assert s[|f.hb|..] == f.body + t;
  }

  lemma DataStepReads(c: Config, m: Msg, f: Frame, t: seq<byte>)
    requires OnWire(f)
    ensures AfterStep(c, DataStep(c, m, f), t) ==
            if m.Skipped? then AfterFrame(c, m, f.h.fin, t)
            else Deliver(c, m, Payload(f), true, f.h.fin, t)
  {
    var p := Payload(f);
    if m.Skipped? {
      PrependNone(Between(c, m, t));
    } else if Decodes(c, m, p) {
      assert p == p + [];
      DeliverSplit(c, m, p, [], true, f.h.fin, t);
      var m' := Advance(c, m, p);
      assert Deliver(c, m', [], true, f.h.fin, t) == AfterFrame(c, m', f.h.fin, t);
      PrependTwice(Chars(p), [EndOfMessage], Idle(c, t));
      assert Chars(p) + [] == Chars(p);
    } else {
      var n := DeliverRejected(c, m, p, true, f.h.fin, t);
      RejectedAtIs(c, m, p, n);
    }
  }

  lemma {:induction false} RejectedAtIs(c: Config, m: Msg, p: seq<byte>, n: nat)
    requires m.Msg? && m.text && n < |p| && Decodes(c, m, p[..n])
    requires forall k :: n < k <= |p| ==> !Decodes(c, m, p[..k])
    ensures RejectedAt(c, m.u, p) == n
    decreases |p|
  {
    var u := c.step(m.u, p[0]);
    if n == 0 {
      assert !Decodes(c, m, p[..1]);
      assert p[..1][1..] == [] && p[..1][0] == p[0];
      assert RunUtf8(c, u, []) == u;
      assert u == REJECT;
    } else {
      assert p[..n][0] == p[0];
      assert u != REJECT;
      var m' := Msg(true, u);
      assert p[..n][1..] == p[1..][..n - 1];
      forall k | n - 1 < k <= |p| - 1
        ensures !Decodes(c, m', p[1..][..k])
      {
        assert !Decodes(c, m, p[..k + 1]);
        assert p[..k + 1][1..] == p[1..][..k];
      }
      RejectedAtIs(c, m', p[1..], n - 1);
    }
  }

  /** Reading one whole frame is one step. */
  lemma FrameReads(c: Config, mode: Mode, f: Frame, t: seq<byte>)
    requires OnWire(f)
    ensures At(c, mode, Wire(f) + t) == AfterStep(c, StepOf(c, mode, f), t)
  {
    ParseFrame(f, t);
    match mode {
      case Ready =>
        var m := FirstMsg(c, f.h);
        DataStepReads(c, m, f, t);
        var s := Wire(f) + t;
        if CheckFrame(c, f.h, false) == Ok && !IsControl(f.h.opCode) && (m.Skipped? || !Compressed(f.h)) {
          assert Idle(c, s) == Open(c, m, f.h, s[|f.hb|..]);
        }
      case Mid(m) =>
        DataStepReads(c, m, f, t);
        var s := Wire(f) + t;
        if CheckFrame(c, f.h, true) == Ok {
          if !IsControl(f.h.opCode) {
            assert Between(c, m, s) == Open(c, m, f.h, s[|f.hb|..]);
          } else {
            assert Between(c, m, s) == AfterStep(c, StepOf(c, mode, f), t);
          }
        }
    }
  }

  // ----- many frames -----

  function Run(c: Config, mode: Mode, fs: seq<Frame>): Step
    decreases |fs|
  {
    if fs == [] then Go([], mode)
    else match StepOf(c, mode, fs[0])
      case Halt(es, end) => Halt(es, end)
      case Go(es, next) =>
        match Run(c, next, fs[1..])
        case Go(es', last) => Go(es + es', last)
        case Halt(es', end) => Halt(es + es', end)
  }

  predicate AllOnWire(fs: seq<Frame>) {
    forall i :: 0 <= i < |fs| ==> OnWire(fs[i])
  }

  /** Reading a stream of frames is a run of the automaton, whatever follows them. */
  lemma {:induction false} StreamReads(c: Config, mode: Mode, fs: seq<Frame>, t: seq<byte>)
    requires AllOnWire(fs)
    ensures At(c, mode, Stream(fs) + t) == AfterStep(c, Run(c, mode, fs), t)
    decreases |fs|
  {
    if fs == [] {
      assert Stream(fs) + t == t;
      PrependNone(At(c, mode, t));
    } else {
      var f, rest := fs[0], fs[1..];
      assert Stream(fs) + t == Wire(f) + (Stream(rest) + t);
      FrameReads(c, mode, f, Stream(rest) + t);
      match StepOf(c, mode, f)
      case Halt(_, _) =>
      case Go(es, next) =>
        StreamReads(c, next, rest, t);
        match Run(c, next, rest)
        case Go(es', last) => PrependTwice(es, es', At(c, last, t));
        case Halt(es', end) =>
    }
  }
}
