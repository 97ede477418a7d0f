/**
  The writing methods as runs of the step system of concurrent writers: each of them takes the lock once, puts
  exactly one frame on the wire, and releases it.
*/
module Locking {
  import opened Bytes
  import opened Deflate
  import opened EndToEnd
  import opened Errors
  import opened Framing
  import opened Header
  import opened Outbound
  import opened Writers

  /** The holder of the lock puts the rest of its frame on the wire and releases the lock. */
  lemma {:induction false} PutsReach(side: Side, s: System, run: seq<Action>)
    requires AllTodo(side, s.todo) && s.lock.Held? && s.lock.id < |s.todo| && s.todo[s.lock.id] != []
    requires run != [] && run[|run| - 1] == Release && forall k :: 0 <= k < |run| - 1 ==> run[k].Put?
    requires s.lock.done + PutTotal(run[..|run| - 1]) == |Current(side, s)|
    ensures var i := s.lock.id;
            Reaches(side, s, run, s.(wire := s.wire + Current(side, s)[s.lock.done..], lock := Free,
                                     todo := s.todo[i := s.todo[i][1..]], log := s.log + [(i, s.todo[i][0])]))
    decreases |run|
  {
    var a, rest := run[0], run[1..];
    var frame, d := Current(side, s), s.lock.done;
    if a.Put? {
      var puts := run[..|run| - 1];
      assert puts[1..] == rest[..|rest| - 1];
      var s' := Apply(side, s, a);
      PutsReach(side, s', rest);
      PutsJoin(s.wire, frame, d, a.n);
    } else {
      assert run[..0] == [] && |run| == 1 && frame[d..] == [];
      assert s.wire + [] == s.wire;
      StepSized(side, s, a);
    }
  }

  lemma PutsJoin(wire: seq<byte>, frame: seq<byte>, d: nat, n: nat)
    requires d + n <= |frame|
    ensures wire + frame[d..d + n] + frame[d + n..] == wire + frame[d..]
  {
    assert frame[d..] == frame[d..d + n] + frame[d + n..];
  }

  /** The system in which writer `id` has to send `e` next. */
  function Before(s: System, id: nat, e: Entry): System
    requires id < |s.todo|
  {
    s.(todo := s.todo[id := [e] + s.todo[id]])
  }

  /** The system in which writer `id` has sent `e`. */
  function After(side: Side, s: System, id: nat, e: Entry): System
    requires side.opCode < 16 && |e.payload| <= LEN64
  {
    s.(wire := s.wire + FrameOf(side, e), log := s.log + [(id, e)])
  }

  /** A frame that is put on the wire under one hold of the lock is a run of the step system. */
  lemma FrameIsRun(side: Side, s: System, id: nat, e: Entry, run: seq<Action>)
    requires AllTodo(side, s.todo) && s.lock == Free && id < |s.todo| && |e.payload| <= LEN64
    requires LockedRun(run, id, |FrameOf(side, e)|)
    ensures AllTodo(side, Before(s, id, e).todo)
    ensures Reaches(side, Before(s, id, e), run, After(side, s, id, e))
  {
    var s0 := Before(s, id, e);
    TodoCons(s.todo[id], e);
    var s1, rest := Apply(side, s0, run[0]), run[1..];
    assert rest[..|rest| - 1] == run[1..|run| - 1];
    assert Current(side, s1) == FrameOf(side, e) == FrameOf(side, e)[0..];
    PutsReach(side, s1, rest);
    assert s0.todo[id := s0.todo[id][1..]] == s.todo;
  }

  lemma TodoCons(todo: seq<Entry>, e: Entry)
    requires AllSized(todo) && |e.payload| <= LEN64
    ensures AllSized([e] + todo)
  {
  }

  /** `Write` of a plain message by writer `id`, started when nobody holds the lock and the wire is that of `s`. */
  method WriteRuns(w: MessageWriter, p: array<byte>, pooled: FlateWriter, ghost s: System, ghost id: nat)
    returns (err: Error, ghost e: Entry, ghost run: seq<Action>)
    requires w.Valid() && pooled.codec == w.codec && pooled.cbuf.buf.Length == 4
    requires p != pooled.cbuf.buf && (w.persistent != null ==> p != w.persistent.cbuf.buf)
    requires !w.Compresses(p.Length) && p.Length <= LEN64
    requires AllTodo(Side(w.client, w.opCode), s.todo) && id < |s.todo|
    requires s.lock == Free && !w.connection.held && s.wire == w.connection.sent
    modifies p, w.Repr(), pooled, pooled.cbuf, pooled.cbuf.buf
    ensures e.Data? && e.payload == old(p[..]) && |e.payload| <= LEN64
    ensures err == Ok || w.connection.faulty
    ensures err == Ok ==> Done(w, s, id, e, run, old(w.connection.acts))
  {
    ghost var mask, payload;
    var n;
    n, err, mask, payload, run := w.Write(p, pooled, id);
    e := Data(mask, payload);
    if err == Ok {
      FrameIsRun(Side(w.client, w.opCode), s, id, e, run);
    }
  }

  /** Writer `id` has sent `e`: the wire and the lock are those that the step system reaches by the steps `run`. */
  ghost predicate Done(w: MessageWriter, s: System, id: nat, e: Entry, run: seq<Action>, acts: seq<Action>)
    requires w.opCode < 16 && |e.payload| <= LEN64 && id < |s.todo|
    reads w, w.connection
  {
    var side := Side(w.client, w.opCode);
    && AllTodo(side, Before(s, id, e).todo)
    && Reaches(side, Before(s, id, e), run, After(side, s, id, e))
    && w.connection.sent == After(side, s, id, e).wire
    && !w.connection.held && w.connection.acts == acts + run
  }

  /** `WriteClose` by writer `id`. */
  method CloseRuns(w: MessageWriter, code: int, reason: seq<byte>, ghost s: System, ghost id: nat)
    returns (err: Error, ghost e: Entry, ghost run: seq<Action>)
    requires w.Valid() && AllTodo(Side(w.client, w.opCode), s.todo) && id < |s.todo|
    requires s.lock == Free && !w.connection.held && s.wire == w.connection.sent
    modifies w.connection
    ensures e.Close? && e.payload == CloseBody(code, reason)
    ensures err == Ok || w.connection.faulty
    ensures err == Ok ==> Done(w, s, id, e, run, old(w.connection.acts))
  {
    ghost var mask;
    err, mask, run := w.WriteClose(code, reason, id);
    e := Close(mask, CloseBody(code, reason));
    if err == Ok {
      FrameIsRun(Side(w.client, w.opCode), s, id, e, run);
    }
  }

  /** The entry of an answer of the control handler. */
  function EntryOf(r: Reply, reason: seq<byte>, mask: Mask): Entry {
    if r.Pong? then Echo(mask, r.payload) else Close(mask, ReplyBody(r, reason))
  }

  /** An answer to a control frame, written by the handler as writer `id`. */
  method AnswerRuns(w: MessageWriter, r: Reply, reason: seq<byte>, ghost s: System, ghost id: nat)
    returns (err: Error, ghost e: Entry, ghost run: seq<Action>)
    requires w.Valid() && AllTodo(Side(w.client, w.opCode), s.todo) && id < |s.todo|
    requires s.lock == Free && !w.connection.held && s.wire == w.connection.sent
    requires |ReplyBody(r, reason)| <= 125
    modifies w.connection
    ensures e == EntryOf(r, reason, e.mask)
    ensures err == Ok || w.connection.faulty
    ensures err == Ok ==> Done(w, s, id, e, run, old(w.connection.acts))
  {
    ghost var mask;
    err, mask, run := w.WriteAnswer(r, reason, id);
    e := EntryOf(r, reason, mask);
    if err == Ok {
      FrameIsRun(Side(w.client, w.opCode), s, id, e, run);
    }
  }
}
