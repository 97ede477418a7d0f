/**
  Concurrent writers under the write lock: data writers, the close writer and the control handlers
  of one connection, as interleaved steps that take the lock, write a part of a frame, and release it.
*/
module Writers {
  import opened Bytes
  import opened EndToEnd
  import opened Frames
  import opened Framing
  import opened Header
  import opened Outbound
  import opened ReadLoop
  import opened Semantics

  /** The lock: free, or held by a writer that has written `done` bytes of its next frame. */
  datatype Lock = Free | Held(id: nat, done: nat)

  /** `todo[i]` is what writer `i` still has to send; `log` is what was sent, and by whom. */
  datatype System = System(wire: seq<byte>, lock: Lock, todo: seq<seq<Entry>>, log: seq<(nat, Entry)>)

  /** The connection's role and data opcode. */
  datatype Side = Side(client: bool, opCode: nat)

  predicate AllTodo(side: Side, todo: seq<seq<Entry>>) {
    side.opCode < 16 && forall i :: 0 <= i < |todo| ==> AllSized(todo[i])
  }

  function FrameOf(side: Side, e: Entry): seq<byte>
    requires side.opCode < 16 && |e.payload| <= LEN64
  {
    Wire(EntryFrame(side.client, side.opCode, e))
  }

  /** The frame that the holder of the lock is writing. */
  function Current(side: Side, s: System): seq<byte>
    requires AllTodo(side, s.todo) && s.lock.Held? && s.lock.id < |s.todo| && s.todo[s.lock.id] != []
  {
    FrameOf(side, s.todo[s.lock.id][0])
  }

  predicate Enabled(side: Side, s: System, a: Action)
    requires AllTodo(side, s.todo)
  {
    match a
    case Take(i) => s.lock == Free && i < |s.todo| && s.todo[i] != []
    case Put(n) =>
      s.lock.Held? && s.lock.id < |s.todo| && s.todo[s.lock.id] != [] && s.lock.done + n <= |Current(side, s)|
    case Release =>
      s.lock.Held? && s.lock.id < |s.todo| && s.todo[s.lock.id] != [] && s.lock.done == |Current(side, s)|
  }

  function Apply(side: Side, s: System, a: Action): System
    requires AllTodo(side, s.todo) && Enabled(side, s, a)
  {
    match a
    case Take(i) => s.(lock := Held(i, 0))
    case Put(n) =>
      var d := s.lock.done;
      s.(wire := s.wire + Current(side, s)[d..d + n], lock := Held(s.lock.id, d + n))
    case Release =>
      var i := s.lock.id;
      s.(lock := Free, todo := s.todo[i := s.todo[i][1..]], log := s.log + [(i, s.todo[i][0])])
  }

  lemma StepSized(side: Side, s: System, a: Action)
    requires AllTodo(side, s.todo) && Enabled(side, s, a)
    ensures AllTodo(side, Apply(side, s, a).todo) && |Apply(side, s, a).todo| == |s.todo|
  {
    if a.Release? {
      var i := s.lock.id;
      assert AllSized(s.todo[i]);
      assert AllSized(s.todo[i][1..]) by {
        assert forall k :: 0 <= k < |s.todo[i][1..]| ==> s.todo[i][1..][k] == s.todo[i][k + 1];
      }
    }
  }

  /** `s'` is reached from `s` by the actions `acts`. */
  predicate Reaches(side: Side, s: System, acts: seq<Action>, s': System)
    requires AllTodo(side, s.todo)
    decreases |acts|
  {
    if acts == [] then s == s'
    else
      && Enabled(side, s, acts[0])
      && (StepSized(side, s, acts[0]); Reaches(side, Apply(side, s, acts[0]), acts[1..], s'))
  }

  // ----- the invariant -----

  function Entries(log: seq<(nat, Entry)>): (es: seq<Entry>)
    ensures |es| == |log|
  {
    seq(|log|, i requires 0 <= i < |log| => log[i].1)
  }

  /** What writer `i` sent, in the order of the wire. */
  function SentBy(log: seq<(nat, Entry)>, i: nat): seq<Entry> {
    if log == [] then [] else (if log[0].0 == i then [log[0].1] else []) + SentBy(log[1..], i)
  }

  lemma {:induction false} SentBySnoc(log: seq<(nat, Entry)>, x: (nat, Entry), i: nat)
    ensures SentBy(log + [x], i) == SentBy(log, i) + (if x.0 == i then [x.1] else [])
    decreases |log|
  {
    if log == [] {
      assert log + [x] == [x];
      assert SentBy([x], i) == (if x.0 == i then [x.1] else []) + SentBy([], i);
    } else {
      assert (log + [x])[1..] == log[1..] + [x];
      SentBySnoc(log[1..], x, i);
      var first := if log[0].0 == i then [log[0].1] else [];
      var last := if x.0 == i then [x.1] else [];
      assert first + (SentBy(log[1..], i) + last) == first + SentBy(log[1..], i) + last;
    }
  }

  /** The wire is the frames of the log, and then the part of one frame that the holder has written. */
  predicate WholeFrames(side: Side, s: System) {
    && AllTodo(side, s.todo) && AllSized(Entries(s.log))
    && var frames := LogBytes(side.client, side.opCode, Entries(s.log));
    match s.lock
    case Free => s.wire == frames
    case Held(i, done) =>
      i < |s.todo| && s.todo[i] != [] && done <= |Current(side, s)| &&
      s.wire == frames + Current(side, s)[..done]
  }

  /** Nothing is lost, doubled or reordered: what each writer was to send is sent in order, or still to do. */
  predicate InOrder(programs: seq<seq<Entry>>, s: System) {
    && |s.todo| == |programs|
    && (forall k :: 0 <= k < |s.log| ==> s.log[k].0 < |programs|)
    && forall i :: 0 <= i < |programs| ==> SentBy(s.log, i) + s.todo[i] == programs[i]
  }

  lemma PutKeeps(frames: seq<byte>, f: seq<byte>, d: nat, n: nat)
    requires d + n <= |f|
    ensures frames + f[..d] + f[d..d + n] == frames + f[..d + n]
  {
  }

  lemma ReleaseKeeps(side: Side, s: System)
    requires WholeFrames(side, s) && Enabled(side, s, Release)
    ensures WholeFrames(side, Apply(side, s, Release))
  {
    StepSized(side, s, Release);
    var e, done := s.todo[s.lock.id][0], Entries(s.log);
    assert AllSized(s.todo[s.lock.id]);
    LogSnoc(side.client, side.opCode, done, e);
    assert Entries(s.log + [(s.lock.id, e)]) == done + [e];
    assert Current(side, s)[..s.lock.done] == FrameOf(side, e);
  }

  lemma WholeFramesKept(side: Side, s: System, a: Action)
    requires WholeFrames(side, s) && Enabled(side, s, a)
    ensures WholeFrames(side, Apply(side, s, a))
  {
    var frames := LogBytes(side.client, side.opCode, Entries(s.log));
    match a {
      case Take(i) =>
        assert Current(side, Apply(side, s, a))[..0] == [];
        assert frames + [] == frames;
      case Put(n) =>
        PutKeeps(frames, Current(side, s), s.lock.done, n);
      case Release =>
        ReleaseKeeps(side, s);
    }
  }

  lemma InOrderKept(side: Side, programs: seq<seq<Entry>>, s: System, a: Action)
    requires AllTodo(side, s.todo) && Enabled(side, s, a) && InOrder(programs, s)
    ensures InOrder(programs, Apply(side, s, a))
  {
    if a.Release? {
      var s' := Apply(side, s, a);
      var j, e := s.lock.id, s.todo[s.lock.id][0];
      forall i | 0 <= i < |programs|
        ensures SentBy(s'.log, i) + s'.todo[i] == programs[i]
      {
        SentBySnoc(s.log, (j, e), i);
        assert SentBy(s.log, i) + s.todo[i] == programs[i];
        assert s.todo[j] == [e] + s.todo[j][1..];
        assert SentBy(s.log, i) + [e] + s.todo[j][1..] == SentBy(s.log, i) + ([e] + s.todo[j][1..]);
        assert SentBy(s.log, i) + [] == SentBy(s.log, i);
      }
    }
  }

  /** Every state of every run: the wire is whole frames but for the holder's, and each writer's order is kept. */
  lemma {:induction false} EveryRun(side: Side, programs: seq<seq<Entry>>, s: System, acts: seq<Action>, s': System)
    requires WholeFrames(side, s) && InOrder(programs, s) && Reaches(side, s, acts, s')
    ensures WholeFrames(side, s') && InOrder(programs, s')
    decreases |acts|
  {
    if acts != [] {
      StepSized(side, s, acts[0]);
      WholeFramesKept(side, s, acts[0]);
      InOrderKept(side, programs, s, acts[0]);
      EveryRun(side, programs, Apply(side, s, acts[0]), acts[1..], s');
    }
  }

  function Start(programs: seq<seq<Entry>>): System {
    System([], Free, programs, [])
  }

  lemma SendableLog(c: Config, opCode: nat, programs: seq<seq<Entry>>, s: System)
    requires InOrder(programs, s)
    requires forall i :: 0 <= i < |programs| ==> AllSendable(c, opCode, programs[i])
    ensures AllSendable(c, opCode, Entries(s.log))
  {
    forall k | 0 <= k < |s.log|
      ensures Sendable(c, opCode, s.log[k].1)
    {
      var i := s.log[k].0;
      var j := SentByHas(s.log, k);
      assert (SentBy(s.log, i) + s.todo[i])[j] == s.log[k].1;
      assert AllSendable(c, opCode, programs[i]);
    }
  }

  lemma {:induction false} SentByHas(log: seq<(nat, Entry)>, k: nat) returns (j: nat)
    requires k < |log|
    ensures j < |SentBy(log, log[k].0)| && SentBy(log, log[k].0)[j] == log[k].1
    decreases |log|
  {
    if k == 0 {
      j := 0;
    } else {
      var j' := SentByHas(log[1..], k - 1);
      j := if log[0].0 == log[k].0 then j' + 1 else j';
    }
  }

  /**
    Whatever the interleaving, whenever no writer holds the lock the peer reads whole messages: the data
    messages of all writers in the order of the log, in which each writer's own order is kept.
  */
  lemma PeerReads(c: Config, opCode: nat, programs: seq<seq<Entry>>, acts: seq<Action>, s: System)
    returns (es: seq<Event>)
    requires FirstDataOp(opCode) && Accepts(c, opCode)
    requires forall i :: 0 <= i < |programs| ==> AllSendable(c, opCode, programs[i])
    requires AllTodo(Side(c.server, opCode), programs)
    requires Reaches(Side(c.server, opCode), Start(programs), acts, s) && s.lock == Free
    ensures Idle(c, s.wire) == Outcome(es, Fails(EndOf(c, Entries(s.log))))
    ensures Collect(Mail([], []), es) == Mail(DataIn(Entries(s.log)), [])
    ensures |s.todo| == |programs|
    ensures forall i :: 0 <= i < |programs| ==> SentBy(s.log, i) + s.todo[i] == programs[i]
  {
    var side := Side(c.server, opCode);
    assert InOrder(programs, Start(programs)) by {
      assert forall i :: 0 <= i < |programs| ==> [] + programs[i] == programs[i];
    }
    EveryRun(side, programs, Start(programs), acts, s);
    SendableLog(c, opCode, programs, s);
    es := LogRead(c, opCode, Entries(s.log), Mail([], []));
    assert [] + DataIn(Entries(s.log)) == DataIn(Entries(s.log));
  }
}
