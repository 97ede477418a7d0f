/**
  Any sequence of calls of the writing methods by any writers is a run of the step system from its start, and
  the peer reads the messages of these calls.
*/
module Calls {
  import opened Bytes
  import opened Deflate
  import opened EndToEnd
  import opened Errors
  import opened Framing
  import opened Header
  import opened Locking
  import opened Outbound
  import opened ReadLoop
  import opened Semantics
  import opened Writers

  // ----- runs one after the other -----

  lemma {:induction false} ReachesTwice(side: Side, s: System, a: seq<Action>, s1: System, b: seq<Action>, s2: System)
    requires AllTodo(side, s.todo) && Reaches(side, s, a, s1)
    requires AllTodo(side, s1.todo) && Reaches(side, s1, b, s2)
    ensures Reaches(side, s, a + b, s2)
    decreases |a|
  {
    if a == [] {
      assert a + b == b;
    } else {
      assert (a + b)[0] == a[0] && (a + b)[1..] == a[1..] + b;
      StepSized(side, s, a[0]);
      ReachesTwice(side, Apply(side, s, a[0]), a[1..], s1, b, s2);
    }
  }

  /** Writer `id` has one more entry to send, behind all others. */
  function Extend(s: System, id: nat, e: Entry): System
    requires id < |s.todo|
  {
    s.(todo := s.todo[id := s.todo[id] + [e]])
  }

  lemma ExtendSized(side: Side, s: System, id: nat, e: Entry)
    requires AllTodo(side, s.todo) && id < |s.todo| && |e.payload| <= LEN64
    ensures AllTodo(side, Extend(s, id, e).todo)
  {
    SizedSnoc(s.todo[id], e);
  }

  lemma SizedSnoc(todo: seq<Entry>, e: Entry)
    requires AllSized(todo) && |e.payload| <= LEN64
    ensures AllSized(todo + [e])
  {
  }

  lemma StepExtends(side: Side, s: System, a: Action, id: nat, e: Entry)
    requires AllTodo(side, s.todo) && Enabled(side, s, a) && id < |s.todo| && |e.payload| <= LEN64
    ensures AllTodo(side, Extend(s, id, e).todo) && Enabled(side, Extend(s, id, e), a)
    ensures |Apply(side, s, a).todo| == |s.todo|
    ensures Apply(side, Extend(s, id, e), a) == Extend(Apply(side, s, a), id, e)
  {
    ExtendSized(side, s, id, e);
    if a.Release? {
      var i := s.lock.id;
      if i == id {
        assert (s.todo[id] + [e])[1..] == s.todo[id][1..] + [e];
      }
      assert Apply(side, Extend(s, id, e), a).todo == Extend(Apply(side, s, a), id, e).todo;
    }
  }

  /** An earlier run stays a run when a program gets longer. */
  lemma {:induction false} RunExtends(side: Side, s: System, acts: seq<Action>, s': System, id: nat, e: Entry)
    requires AllTodo(side, s.todo) && Reaches(side, s, acts, s') && id < |s.todo| && |e.payload| <= LEN64
    ensures |s'.todo| == |s.todo| && AllTodo(side, Extend(s, id, e).todo)
    ensures Reaches(side, Extend(s, id, e), acts, Extend(s', id, e))
    decreases |acts|
  {
    ExtendSized(side, s, id, e);
    if acts != [] {
      StepSized(side, s, acts[0]);
      StepExtends(side, s, acts[0], id, e);
      RunExtends(side, Apply(side, s, acts[0]), acts[1..], s', id, e);
    }
  }

  /** By the steps `acts` the writers have sent all of their programs, and nobody holds the lock. */
  ghost predicate Sent(side: Side, programs: seq<seq<Entry>>, acts: seq<Action>, s: System) {
    && AllTodo(side, programs) && Reaches(side, Start(programs), acts, s)
    && s.lock == Free && |s.todo| == |programs| && (forall i :: 0 <= i < |s.todo| ==> s.todo[i] == [])
  }

  /** One more frame, sent by writer `id`. */
  lemma SentNext(side: Side, programs: seq<seq<Entry>>, acts: seq<Action>, s: System, id: nat, e: Entry,
                 run: seq<Action>)
    requires Sent(side, programs, acts, s) && id < |programs| && |e.payload| <= LEN64
    requires AllTodo(side, Before(s, id, e).todo) && Reaches(side, Before(s, id, e), run, After(side, s, id, e))
    ensures Sent(side, programs[id := programs[id] + [e]], acts + run, After(side, s, id, e))
  {
    var programs' := programs[id := programs[id] + [e]];
    RunExtends(side, Start(programs), acts, s, id, e);
    assert Extend(Start(programs), id, e) == Start(programs');
    assert s.todo[id] + [e] == [e] + s.todo[id];
    assert Extend(s, id, e) == Before(s, id, e);
    ReachesTwice(side, Start(programs'), acts, Before(s, id, e), run, After(side, s, id, e));
  }

  // ----- calls -----

  /** A call of `Write`, of `WriteClose`, or of the control handler for an answer. */
  datatype Call =
    | Message(m: seq<byte>)
    | CloseWith(code: int, reason: seq<byte>)
    | Respond(r: Reply, reason: seq<byte>)

  /** What the call puts on the wire, but for the mask. */
  function EntryFor(call: Call, mask: Mask): Entry {
    match call
    case Message(m) => Data(mask, m)
    case CloseWith(code, reason) => Close(mask, CloseBody(code, reason))
    case Respond(r, reason) => EntryOf(r, reason, mask)
  }

  predicate Closes(call: Call) { EntryFor(call, NO_MASK).Close? }

  /** The messages of the calls in front of the first that closes. */
  function MessagesOf(calls: seq<(nat, Call)>): seq<seq<byte>> {
    if calls == [] || Closes(calls[0].1) then []
    else (if calls[0].1.Message? then [calls[0].1.m] else []) + MessagesOf(calls[1..])
  }

  /** The log holds what the calls put on the wire, in their order and by their writers. */
  predicate LogOf(calls: seq<(nat, Call)>, log: seq<(nat, Entry)>) {
    && |log| == |calls|
    && forall k :: 0 <= k < |log| ==> log[k].0 == calls[k].0 && log[k].1 == EntryFor(calls[k].1, log[k].1.mask)
  }

  lemma {:induction false} LogMessages(calls: seq<(nat, Call)>, log: seq<(nat, Entry)>)
    requires LogOf(calls, log)
    ensures DataIn(Entries(log)) == MessagesOf(calls)
    decreases |log|
  {
    if log != [] {
      assert Entries(log)[1..] == Entries(log[1..]);
      LogMessages(calls[1..], log[1..]);
    }
  }

  /** One call, which is a run of the step system. */
  method Perform(w: MessageWriter, pooled: FlateWriter, call: Call, ghost s: System, ghost id: nat)
    returns (err: Error, ghost e: Entry, ghost run: seq<Action>)
    requires w.Valid() && pooled.codec == w.codec && pooled.cbuf.buf.Length == 4
    requires AllTodo(Side(w.client, w.opCode), s.todo) && id < |s.todo|
    requires s.lock == Free && !w.connection.held && s.wire == w.connection.sent
    requires Takes(w, call)
    modifies w.Repr(), pooled, pooled.cbuf, pooled.cbuf.buf
    ensures e == EntryFor(call, e.mask) && |e.payload| <= LEN64
    ensures err == Ok || w.connection.faulty
    ensures err == Ok ==> Done(w, s, id, e, run, old(w.connection.acts))
  {
    match call
    case Message(m) =>
      var p := new byte[|m|](k requires 0 <= k < |m| => m[k]);
      assert p[..] == m;
      err, e, run := WriteRuns(w, p, pooled, s, id);
    case CloseWith(code, reason) =>
      err, e, run := CloseRuns(w, code, reason, s, id);
    case Respond(r, reason) =>
      err, e, run := AnswerRuns(w, r, reason, s, id);
  }

  /** Messages that are not compressed, and answers that fit into a control frame. */
  predicate Takes(w: MessageWriter, call: Call) {
    match call
    case Message(m) => !w.Compresses(|m|) && |m| <= LEN64
    case CloseWith(_, _) => true
    case Respond(r, reason) => |ReplyBody(r, reason)| <= 125
  }

  /** The calls by writers `0` up to `writers`, in their order, stopping at an error. */
  method PerformAll(w: MessageWriter, pooled: FlateWriter, calls: seq<(nat, Call)>, ghost writers: nat, ghost c: Config)
    returns (ok: bool, ghost programs: seq<seq<Entry>>, ghost s: System)
    requires w.Valid() && pooled.codec == w.codec && pooled.cbuf.buf.Length == 4
    requires w.connection.sent == [] && w.connection.acts == [] && !w.connection.held
    requires forall x :: x in calls ==> x.0 < writers && Takes(w, x.1) && Sendable(c, w.opCode, EntryFor(x.1, NO_MASK))
    modifies w.Repr(), pooled, pooled.cbuf, pooled.cbuf.buf
    ensures ok || w.connection.faulty
    ensures ok ==> Performed(w, calls, c, programs, s)
  {
    ok := true;
    programs := seq(writers, i => []);
    s := Start(programs);
    for i := 0 to |calls|
      invariant pooled.cbuf.buf.Length == 4 && |programs| == writers
      invariant ok ==> Performed(w, calls[..i], c, programs, s)
      invariant ok || w.connection.faulty
    {
      if ok {
        assert calls[i] in calls;
        var err;
        ghost var e, run, acts := Data(NO_MASK, []), [], w.connection.acts;
        err, e, run := Perform(w, pooled, calls[i].1, s, calls[i].0);
        ok := err == Ok;
        if ok {
          PerformedNext(w, calls[..i], c, programs, acts, s, calls[i], e, run);
          programs := programs[calls[i].0 := programs[calls[i].0] + [e]];
          s := After(Side(w.client, w.opCode), s, calls[i].0, e);
          assert calls[..i + 1] == calls[..i] + [calls[i]];
        }
      }
    }
    assert calls[..|calls|] == calls;
  }

  /** The connection is in the state that the step system reaches with the programs of the calls. */
  ghost predicate Performed(w: MessageWriter, calls: seq<(nat, Call)>, c: Config, programs: seq<seq<Entry>>, s: System)
    reads w, w.connection
  {
    && Reached(w, calls, c, programs, w.connection.acts, s)
    && s.wire == w.connection.sent && !w.connection.held
  }

  ghost predicate Reached(w: MessageWriter, calls: seq<(nat, Call)>, c: Config, programs: seq<seq<Entry>>,
                          acts: seq<Action>, s: System)
  {
    && Sent(Side(w.client, w.opCode), programs, acts, s) && LogOf(calls, s.log)
    && forall i :: 0 <= i < |programs| ==> AllSendable(c, w.opCode, programs[i])
  }

  lemma PerformedNext(w: MessageWriter, calls: seq<(nat, Call)>, c: Config, programs: seq<seq<Entry>>,
                      acts: seq<Action>, s: System, x: (nat, Call), e: Entry, run: seq<Action>)
    requires w.opCode < 16 && Reached(w, calls, c, programs, acts, s) && x.0 < |programs|
    requires e == EntryFor(x.1, e.mask) && Sendable(c, w.opCode, e)
    requires AllTodo(Side(w.client, w.opCode), Before(s, x.0, e).todo)
    requires Reaches(Side(w.client, w.opCode), Before(s, x.0, e), run, After(Side(w.client, w.opCode), s, x.0, e))
    ensures Reached(w, calls + [x], c, programs[x.0 := programs[x.0] + [e]], acts + run,
                    After(Side(w.client, w.opCode), s, x.0, e))
  {
    SentNext(Side(w.client, w.opCode), programs, acts, s, x.0, e, run);
    assert AllSendable(c, w.opCode, programs[x.0]);
    SendableSnoc(c, w.opCode, programs[x.0], e);
  }

  lemma SendableSnoc(c: Config, opCode: nat, log: seq<Entry>, e: Entry)
    requires AllSendable(c, opCode, log) && Sendable(c, opCode, e)
    ensures AllSendable(c, opCode, log + [e])
  {
  }

  /**
    Any calls of the writing methods by any writers, and then the peer: it reads the messages of the calls in
    front of the first close, whole and in the order of the calls.
  */
  method CallsArrive(c: Config, w: MessageWriter, pooled: FlateWriter, calls: seq<(nat, Call)>, ghost writers: nat)
    returns (ok: bool, received: seq<seq<byte>>)
    requires w.Valid() && pooled.codec == w.codec && pooled.cbuf.buf.Length == 4
    requires w.connection.sent == [] && w.connection.acts == [] && !w.connection.held
    requires c.server == w.client && Accepts(c, w.opCode)
    requires forall x :: x in calls ==> x.0 < writers && Takes(w, x.1) && Sendable(c, w.opCode, EntryFor(x.1, NO_MASK))
    modifies w.Repr(), pooled, pooled.cbuf, pooled.cbuf.buf
    ensures ok || w.connection.faulty
    ensures ok ==> received == MessagesOf(calls)
  {
    ghost var programs, s;
    ok, programs, s := PerformAll(w, pooled, calls, writers, c);
    received := [];
    if ok {
      ghost var es := PeerReads(c, w.opCode, programs, w.connection.acts, s);
      LogMessages(calls, s.log);
      var mail, err;
      ghost var events, rest;
      mail, err, events, rest := ReadStream(c, w.connection.sent);
      CollectAppend(Mail([], []), events, Chars(rest));
      CollectChars(mail, rest);
      received := mail.messages;
    }
  }
}
