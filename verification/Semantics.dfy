/**
  What a reader of a byte stream observes.

  `Idle`, `Between` and `Deliver` say, for the bytes still to come, which bytes, ends of message
  and answers follow, and the error that stops the reader. They read one byte at a time and know
  nothing of buffers or short reads, so whatever is proved equal to them does not depend on these.
*/
module Semantics {
  import opened Bytes
  import opened Errors
  import opened Framing
  import opened Header

  datatype Event = Byte(b: byte) | EndOfMessage | Sent(reply: Reply)

  /** `Unspecified`: a compressed message was opened, and no claim is made from there on. */
  datatype End = Fails(err: Error) | Unspecified

  datatype Outcome = Outcome(events: seq<Event>, end: End)

  function Prepend(es: seq<Event>, o: Outcome): Outcome {
    Outcome(es + o.events, o.end)
  }

  lemma PrependTwice(a: seq<Event>, b: seq<Event>, o: Outcome)
    ensures Prepend(a, Prepend(b, o)) == Prepend(a + b, o)
  {
    assert a + (b + o.events) == (a + b) + o.events;
  }

  lemma PrependNone(o: Outcome)
    ensures Prepend([], o) == o
  {
  }

  function Chars(s: seq<byte>): (es: seq<Event>)
    ensures |es| == |s|
  {
    seq(|s|, i requires 0 <= i < |s| => Byte(s[i]))
  }

  function Answers(rs: seq<Reply>): (es: seq<Event>)
    ensures |es| == |rs|
  {
    seq(|rs|, i requires 0 <= i < |rs| => Sent(rs[i]))
  }

  // ----- the stream -----

  /** Between two messages, with `s` to come. */
  function Idle(c: Config, s: seq<byte>): Outcome
    decreases |s|, 0
  {
    match ParseHeader(s)
    case Bad(e) => Outcome([], Fails(if e == Eof then UnexpectedEof else e))
    case Parsed(h, k) =>
      var t := s[k..];
      var e := CheckFrame(c, h, false);
      if e != Ok then Outcome([], Fails(e))
      else if IsControl(h.opCode) then
        var payload := Unmask(h, Front(h, t));
        if h.length > |t| then Outcome([], Fails(UnexpectedEof))
        else if h.opCode == OP_CLOSE then Outcome([Sent(CloseReply(c, payload))], Fails(CloseError(c, payload)))
        else Prepend(Answers(PingReplies(h, payload)), Idle(c, Behind(h, t)))
      else if !Accepts(c, h.opCode) then Open(c, Skipped, h, t)
      else if Compressed(h) then Outcome([], Unspecified)
      else Open(c, Msg(c.checkUtf8 && h.opCode == OP_TEXT, ACCEPT), h, t)
  }

  /** Between two fragments of `m`. A cut-off ping is answered with what there is of its payload, if anything. */
  function Between(c: Config, m: Msg, s: seq<byte>): Outcome
    decreases |s|, 0
  {
    match ParseHeader(s)
    case Bad(e) => Outcome([], Fails(if e == Eof then UnexpectedEof else e))
    case Parsed(h, k) =>
      var t := s[k..];
      var e := CheckFrame(c, h, true);
      if e != Ok then Outcome([], Fails(e))
      else if IsControl(h.opCode) then
        var payload := Unmask(h, Front(h, t));
        if h.opCode == OP_CLOSE then
          if h.length > 0 && t == [] then BareClose(m)
          else if h.length > |t| then Outcome([], Fails(UnexpectedEof))
          else Outcome([Sent(CloseReply(c, payload))], Fails(CloseError(c, payload)))
        else Prepend(Answers(PingReplies(h, payload)), Between(c, m, Behind(h, t)))
      else Open(c, m, h, t)
  }

  /**
    The stream stops after the header of a close frame that announced a payload. In a message
    that is being delivered the reader returns a plain end of file, which its caller cannot tell
    from the end of the message.
  */
  function BareClose(m: Msg): Outcome {
    if m.Skipped? then Outcome([], Fails(UnexpectedEof)) else Outcome([EndOfMessage], Fails(UnexpectedEof))
  }

  /** The data frame with header `h`, of which `t` is to come. */
  function Open(c: Config, m: Msg, h: Head, t: seq<byte>): Outcome
    decreases |t|, 3
  {
    if m.Skipped? then AfterFrame(c, m, h.fin, Behind(h, t))
    else Deliver(c, m, Unmask(h, Front(h, t)), h.length <= |t|, h.fin, Behind(h, t))
  }

  /** Inside a frame: `d` of it is to come, `complete` if that is all, and then `t`. */
  function Deliver(c: Config, m: Msg, d: seq<byte>, complete: bool, fin: bool, t: seq<byte>): Outcome
    requires m.Msg?
    decreases |d| + |t|, 2
  {
    if d == [] then
      if complete then AfterFrame(c, m, fin, t) else Outcome([], Fails(UnexpectedEof))
    else
      var u := if m.text then c.step(m.u, d[0]) else m.u;
      if m.text && u == REJECT then Outcome([], Fails(InvalidUtf8))
      else Prepend([Byte(d[0])], Deliver(c, Msg(m.text, u), d[1..], complete, fin, t))
  }

  function AfterFrame(c: Config, m: Msg, fin: bool, t: seq<byte>): Outcome
    decreases |t|, 1
  {
    if !fin then Between(c, m, t)
    else match m
      case Skipped => Prepend([Sent(CloseUnsupported)], Idle(c, t))
      case Msg(text, u) =>
        if text && u != ACCEPT then Outcome([], Fails(InvalidUtf8))
        else Prepend([EndOfMessage], Idle(c, t))
  }

  // ----- delivering in pieces -----

  /** Delivering `a` and then `b` is delivering `a + b`. */
  lemma {:induction false} DeliverSplit(c: Config, m: Msg, a: seq<byte>, b: seq<byte>, complete: bool, fin: bool,
                                        t: seq<byte>)
    requires m.Msg? && Decodes(c, m, a)
    ensures Deliver(c, m, a + b, complete, fin, t) ==
            Prepend(Chars(a), Deliver(c, Advance(c, m, a), b, complete, fin, t))
    decreases |a|
  {
    var whole := Deliver(c, m, a + b, complete, fin, t);
    if a == [] {
      assert a + b == b;
      assert Chars(a) == [];
      PrependNone(whole);
    } else {
      var u := if m.text then c.step(m.u, a[0]) else m.u;
      var m' := Msg(m.text, u);
      assert (a + b)[1..] == a[1..] + b;
      if m.text && a[1..] == [] {
        assert RunUtf8(c, u, a[1..]) == u;
      }
      DeliverSplit(c, m', a[1..], b, complete, fin, t);
      assert Advance(c, m', a[1..]) == Advance(c, m, a);
      assert Chars(a) == [Byte(a[0])] + Chars(a[1..]);
      PrependTwice([Byte(a[0])], Chars(a[1..]), Deliver(c, Advance(c, m, a), b, complete, fin, t));
    }
  }

  /** A rejected frame ends in the UTF-8 error after some of its bytes, at least any decoded front part. */
  lemma {:induction false} DeliverRejected(c: Config, m: Msg, d: seq<byte>, complete: bool, fin: bool, t: seq<byte>)
    returns (n: nat)
    requires m.Msg? && !Decodes(c, m, d)
    ensures n < |d| && Decodes(c, m, d[..n])
    ensures Deliver(c, m, d, complete, fin, t) == Outcome(Chars(d[..n]), Fails(InvalidUtf8))
    ensures forall k :: n < k <= |d| ==> !Decodes(c, m, d[..k])
    decreases |d|
  {
    var u := c.step(m.u, d[0]);
    if u == REJECT {
      n := 0;
    } else {
      var m' := Msg(true, u);
      var n' := DeliverRejected(c, m', d[1..], complete, fin, t);
      n := n' + 1;
      assert d[..n][1..] == d[1..][..n'];
      assert Chars(d[..n]) == [Byte(d[0])] + Chars(d[1..][..n']);
      forall k | n < k <= |d|
        ensures !Decodes(c, m, d[..k])
      {
        assert d[..k][1..] == d[1..][..k - 1];
        assert !Decodes(c, m', d[1..][..k - 1]);
      }
    }
  }

  lemma AnswersAppend(a: seq<Reply>, b: seq<Reply>)
    ensures Answers(a + b) == Answers(a) + Answers(b)
  {
  }

  /** Answers written in two steps, `sent` before them, as one step. */
  lemma AnswersJoin(o: Outcome, sent: seq<Reply>, rs: seq<Reply>, rs': seq<Reply>, o': Outcome)
    requires o == Prepend(Answers(rs), Prepend(Answers(rs'), o'))
    ensures o == Prepend(Answers(rs + rs'), o')
    ensures (sent + rs) + rs' == sent + (rs + rs')
  {
    AnswersAppend(rs, rs');
    PrependTwice(Answers(rs), Answers(rs'), o');
  }

  lemma FailsAsPrepend(es: seq<Event>, end: End)
    ensures Outcome(es, end) == Prepend(es, Outcome([], end))
  {
  }

  // ----- places in the stream -----

  /** What is observed from a place on. */
  function Observed(c: Config, v: Place): Outcome {
    match v
    case Inside(m, d, complete, fin, t) =>
      if m.Skipped? then AfterFrame(c, m, fin, t) else Deliver(c, m, d, complete, fin, t)
    case Gap(m, s) => Between(c, m, s)
    case Over(s) => Idle(c, s)
  }

  /** A header read in a gap is a step of what is observed. */
  lemma OpensObserved(c: Config, m: Msg, s: seq<byte>, rs: seq<Reply>, err: Error, v': Place)
    requires Opens(c, m, s, rs, err, v')
    ensures Between(c, m, s) ==
            if err == Ok then Prepend(Answers(rs), Observed(c, v'))
            else if err == Eof then BareClose(m)
            else Outcome(Answers(rs), Fails(err))
  {
    match ParseHeader(s)
    case Bad(e) =>
    case Parsed(h, k) =>
      if CheckFrame(c, h, true) == Ok && !IsControl(h.opCode) {
        PrependNone(Observed(c, v'));
        assert Answers(rs) == [];
      }
  }

  lemma OpensSkipped(c: Config, s: seq<byte>, rs: seq<Reply>, err: Error, v': Place)
    requires Opens(c, Skipped, s, rs, err, v')
    ensures Between(c, Skipped, s) ==
            Prepend(Answers(rs), if err == Ok then Observed(c, v')
                                 else Outcome([], Fails(if err == Eof then UnexpectedEof else err)))
  {
    OpensObserved(c, Skipped, s, rs, err, v');
    FailsAsPrepend(Answers(rs), Fails(err));
    assert err == Eof ==> Answers(rs) == [];
  }

  /** A read from an open frame is a step, or the end, of what is observed. */
  lemma MovesObserved(c: Config, v: Place, bytes: seq<byte>, err: Error, v': Place) returns (rest: seq<byte>)
    requires v.Inside? && v.m.Msg? && Moves(c, v, bytes, err, v')
    ensures err == Ok ==> Observed(c, v) == Prepend(Chars(bytes), Observed(c, v'))
    ensures err == Eof ==> Observed(c, v) == Prepend(Chars(bytes) + [EndOfMessage], Observed(c, v'))
    ensures err != Ok && err != Eof ==> Observed(c, v) == Outcome(Chars(bytes + rest), Fails(err))
  {
    rest := [];
    match err {
      case Ok => MovesOk(c, v, bytes, v');
      case Eof => MovesEof(c, v, bytes, v');
      case UnexpectedEof =>
        assert bytes + rest == [];
      case InvalidUtf8 =>
        rest := MovesInvalid(c, v, bytes, v');
    }
  }

  lemma WholeFrame(c: Config, v: Place)
    requires v.Inside? && v.m.Msg? && Decodes(c, v.m, v.d)
    ensures Observed(c, v) ==
            Prepend(Chars(v.d), Deliver(c, Advance(c, v.m, v.d), [], v.complete, v.fin, v.t))
  {
    assert v.d == v.d + [];
    DeliverSplit(c, v.m, v.d, [], v.complete, v.fin, v.t);
  }

  lemma MovesOk(c: Config, v: Place, bytes: seq<byte>, v': Place)
    requires v.Inside? && v.m.Msg? && Moves(c, v, bytes, Ok, v')
    ensures Observed(c, v) == Prepend(Chars(bytes), Observed(c, v'))
  {
    if v'.Inside? {
      assert v.d == bytes + v.d[|bytes|..];
      DeliverSplit(c, v.m, bytes, v.d[|bytes|..], v.complete, v.fin, v.t);
    } else {
      WholeFrame(c, v);
    }
  }

  lemma MovesEof(c: Config, v: Place, bytes: seq<byte>, v': Place)
    requires v.Inside? && v.m.Msg? && Moves(c, v, bytes, Eof, v')
    ensures Observed(c, v) == Prepend(Chars(bytes) + [EndOfMessage], Observed(c, v'))
  {
    WholeFrame(c, v);
    PrependTwice(Chars(bytes), [EndOfMessage], Idle(c, v.t));
  }

  lemma MovesInvalid(c: Config, v: Place, bytes: seq<byte>, v': Place) returns (rest: seq<byte>)
    requires v.Inside? && v.m.Msg? && Moves(c, v, bytes, InvalidUtf8, v')
    ensures Observed(c, v) == Outcome(Chars(bytes + rest), Fails(InvalidUtf8))
  {
    if Decodes(c, v.m, v.d) {
      forall k | 0 <= k <= |v.d|
        ensures Decodes(c, v.m, v.d[..k])
      {
        DecodesPrefix(c, v.m, v.d, k);
      }
      WholeFrame(c, v);
      rest := v.d[|bytes|..];
      assert bytes + rest == v.d;
      assert Chars(v.d) + [] == Chars(v.d);
    } else {
      var n := DeliverRejected(c, v.m, v.d, v.complete, v.fin, v.t);
      assert v.d[..|bytes|] == bytes;
      rest := v.d[|bytes|..n];
      assert bytes + rest == v.d[..n];
    }
  }
}
