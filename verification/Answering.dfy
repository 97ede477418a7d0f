/** Every answer that a reader writes fits into a control frame, whatever the stream holds. */
module Answering {
  import opened Bytes
  import opened EndToEnd
  import opened Errors
  import opened Framing
  import opened Header
  import opened Locking
  import opened Outbound
  import opened Semantics

  /** Section 5.5 of RFC 6455: the payload of a control frame has at most 125 bytes. */
  ghost predicate Fit(es: seq<Event>) {
    forall i :: 0 <= i < |es| && es[i].Sent? ==> forall reason :: |ReplyBody(es[i].reply, reason)| <= 125
  }

  lemma FitAppend(a: seq<Event>, b: seq<Event>)
    requires Fit(a) && Fit(b)
    ensures Fit(a + b)
  {
  }

  lemma PingFits(c: Config, h: Head, t: seq<byte>, inside: bool)
    requires CheckFrame(c, h, inside) == Ok && IsControl(h.opCode)
    ensures var p := Unmask(h, Front(h, t));
            Fit(Answers(PingReplies(h, p))) && Fit([Sent(CloseReply(c, p))])
  {
  }

  lemma {:induction false} IdleFits(c: Config, s: seq<byte>)
    ensures Fit(Idle(c, s).events)
    decreases |s|, 0
  {
    match ParseHeader(s)
    case Bad(_) =>
    case Parsed(h, k) =>
      var t := s[k..];
      if CheckFrame(c, h, false) == Ok {
        if IsControl(h.opCode) {
          PingFits(c, h, t, false);
          if h.length <= |t| && h.opCode != OP_CLOSE {
            IdleFits(c, Behind(h, t));
            FitAppend(Answers(PingReplies(h, Unmask(h, Front(h, t)))), Idle(c, Behind(h, t)).events);
          }
        } else if !Accepts(c, h.opCode) {
          OpenFits(c, Skipped, h, t);
        } else if !Compressed(h) {
          OpenFits(c, Msg(c.checkUtf8 && h.opCode == OP_TEXT, ACCEPT), h, t);
        }
      }
  }

  lemma {:induction false} BetweenFits(c: Config, m: Msg, s: seq<byte>)
    ensures Fit(Between(c, m, s).events)
    decreases |s|, 0
  {
    match ParseHeader(s)
    case Bad(_) =>
    case Parsed(h, k) =>
      var t := s[k..];
      if CheckFrame(c, h, true) == Ok {
        if IsControl(h.opCode) {
          PingFits(c, h, t, true);
          if h.opCode != OP_CLOSE {
            BetweenFits(c, m, Behind(h, t));
            FitAppend(Answers(PingReplies(h, Unmask(h, Front(h, t)))), Between(c, m, Behind(h, t)).events);
          }
        } else {
          OpenFits(c, m, h, t);
        }
      }
  }

  lemma {:induction false} OpenFits(c: Config, m: Msg, h: Head, t: seq<byte>)
    ensures Fit(Open(c, m, h, t).events)
    decreases |t|, 3
  {
    if m.Skipped? {
      AfterFits(c, m, h.fin, Behind(h, t));
    } else {
      DeliverFits(c, m, Unmask(h, Front(h, t)), h.length <= |t|, h.fin, Behind(h, t));
    }
  }

  lemma {:induction false} DeliverFits(c: Config, m: Msg, d: seq<byte>, complete: bool, fin: bool, t: seq<byte>)
    requires m.Msg?
    ensures Fit(Deliver(c, m, d, complete, fin, t).events)
    decreases |d| + |t|, 2
  {
    if d == [] {
      AfterFits(c, m, fin, t);
    } else {
      var u := if m.text then c.step(m.u, d[0]) else m.u;
      DeliverFits(c, Msg(m.text, u), d[1..], complete, fin, t);
      FitAppend([Byte(d[0])], Deliver(c, Msg(m.text, u), d[1..], complete, fin, t).events);
    }
  }

  lemma {:induction false} AfterFits(c: Config, m: Msg, fin: bool, t: seq<byte>)
    ensures Fit(AfterFrame(c, m, fin, t).events)
    decreases |t|, 1
  {
    if !fin {
      BetweenFits(c, m, t);
    } else {
      IdleFits(c, t);
      FitAppend([Sent(CloseUnsupported)], Idle(c, t).events);
      FitAppend([EndOfMessage], Idle(c, t).events);
    }
  }

  /** So the answers, in their order, are a program for the control handler that the peer takes frame by frame. */
  lemma AnswersSendable(c: Config, s: seq<byte>, peer: Config, opCode: nat, i: nat, reason: seq<byte>, mask: Mask)
    requires i < |Idle(c, s).events| && Idle(c, s).events[i].Sent?
    requires peer.maxFrameSize > 0 ==> peer.maxFrameSize >= 125
    ensures Sendable(peer, opCode, EntryOf(Idle(c, s).events[i].reply, reason, mask))
  {
    IdleFits(c, s);
    assert |ReplyBody(Idle(c, s).events[i].reply, reason)| <= 125;
  }
}
