/**
  The UDP demultiplexer as a system of steps: the main loop, which takes datagrams off the socket, and
  the other goroutines, which accept children, read their queues and close them, in any interleaving.

  Datagrams are numbered in the order in which the main loop takes them off the socket, and queues hold
  these numbers.
*/
module Udp {

  const QUEUE_SIZE := 128

  type Address = string

  datatype Datagram = Datagram(from: Address, data: seq<int>)

  /** `taken` and `queue` are ghosts of one channel: what its reader got, and what is buffered. */
  datatype Child = Child(raddr: Address, taken: seq<nat>, queue: seq<nat>, closed: bool, queueClosed: bool)

  /** The datagram for which the main loop stands in `received`, and its child. */
  datatype Waiting = Nothing | For(child: nat, packet: nat)

  datatype State = State(
    seen: seq<Datagram>,          // taken off the socket
    children: seq<Child>,         // in the order of their creation
    transports: map<Address, nat>,
    incoming: seq<nat>,           // children in the backlog channel
    accepted: seq<nat>,           // children handed out by Accept
    waiting: Waiting,
    noRoom: seq<nat>,             // datagrams dropped because the backlog was full
    refused: seq<nat>,            // datagrams dropped because the child was closed
    stopped: bool,                // the main loop returned
    aborted: bool)                // a send on a closed channel

  datatype Action =
    | Arrive(d: Datagram)
    | Push
    | Refuse
    | SendOnClosed
    | Accept
    | Take(id: nat)
    | CloseFlag(id: nat)
    | CloseQueue(id: nat)
    | SocketError

  predicate Running(s: State) { !s.stopped && !s.aborted }

  predicate Enabled(s: State, a: Action) {
    match a
    case Arrive(_) => Running(s) && s.waiting == Nothing
    case Push =>
      Running(s) && s.waiting.For? && s.waiting.child < |s.children| &&
      !s.children[s.waiting.child].queueClosed && |s.children[s.waiting.child].queue| < QUEUE_SIZE
    case Refuse => Running(s) && s.waiting.For? && s.waiting.child < |s.children| && s.children[s.waiting.child].closed
    case SendOnClosed =>
      Running(s) && s.waiting.For? && s.waiting.child < |s.children| && s.children[s.waiting.child].queueClosed
    case Accept => s.incoming != []
    case Take(i) => i < |s.children| && s.children[i].queue != []
    case CloseFlag(i) => i < |s.children| && !s.children[i].closed
    case CloseQueue(i) => i < |s.children| && s.children[i].closed && !s.children[i].queueClosed
    case SocketError => Running(s) && s.waiting == Nothing
  }

  /** A datagram arrives: its child is looked up, or made and published if the backlog has room. */
  function ArriveAt(backlog: nat, s: State, d: Datagram): State {
    var n, id := |s.seen|, |s.children|;
    var s1 := s.(seen := s.seen + [d]);
    if d.from in s.transports then
      s1.(waiting := For(s.transports[d.from], n))
    else if |s.incoming| < backlog then
      s1.(children := s.children + [Child(d.from, [], [], false, false)], incoming := s.incoming + [id],
          transports := s.transports[d.from := id], waiting := For(id, n))
    else
      s1.(noRoom := s.noRoom + [n])
  }

  /** `Close` does nothing on a child that was closed before. */
  function Closed(c: Child): Child { if c.closed then c else c.(closed := true, queueClosed := true) }

  function Apply(backlog: nat, s: State, a: Action): State
    requires Enabled(s, a)
  {
    match a
    case Arrive(d) => ArriveAt(backlog, s, d)
    case Push =>
      var i := s.waiting.child;
      var c := s.children[i];
      s.(children := s.children[i := c.(queue := c.queue + [s.waiting.packet])], waiting := Nothing)
    case Refuse =>
      var i := s.waiting.child;
      s.(transports := s.transports - {s.children[i].raddr}, refused := s.refused + [s.waiting.packet],
         waiting := Nothing)
    case SendOnClosed => s.(aborted := true)
    case Accept => s.(accepted := s.accepted + [s.incoming[0]], incoming := s.incoming[1..])
    case Take(i) =>
      var c := s.children[i];
      s.(children := s.children[i := c.(taken := c.taken + [c.queue[0]], queue := c.queue[1..])])
    case CloseFlag(i) => s.(children := s.children[i := s.children[i].(closed := true)])
    case CloseQueue(i) => s.(children := s.children[i := s.children[i].(queueClosed := true)])
    case SocketError =>
      var mapped := s.transports.Values;
      s.(children := seq(|s.children|, i requires 0 <= i < |s.children| =>
                           if i in mapped then Closed(s.children[i]) else s.children[i]),
         transports := map[], stopped := true)
  }

  predicate Reaches(backlog: nat, s: State, acts: seq<Action>, s': State)
    decreases |acts|
  {
    if acts == [] then s == s'
    else Enabled(s, acts[0]) && Reaches(backlog, Apply(backlog, s, acts[0]), acts[1..], s')
  }

  const START := State([], [], map[], [], [], Nothing, [], [], false, false)

  // ----- the invariant -----

  /** All datagrams that were ever queued on a child. */
  function History(c: Child): seq<nat> { c.taken + c.queue }

  predicate Increasing(ns: seq<nat>, bound: nat) {
    (forall i, j :: 0 <= i < j < |ns| ==> ns[i] < ns[j]) && (forall i :: 0 <= i < |ns| ==> ns[i] < bound)
  }

  /** A child's datagrams came from its peer, in the order of their arrival and without duplicates. */
  predicate FromPeer(s: State, c: Child) {
    && Increasing(History(c), |s.seen|)
    && forall k :: 0 <= k < |History(c)| ==> s.seen[History(c)[k]].from == c.raddr
  }

  /** Children are published once each, in the order of their creation; the mapped ones are the peers'. */
  predicate Published(s: State) {
    && s.accepted + s.incoming == seq(|s.children|, i => i)
    && (forall a :: a in s.transports ==> s.transports[a] < |s.children| && s.children[s.transports[a]].raddr == a)
  }

  predicate WaitingOk(s: State) {
    s.waiting.For? ==>
      && s.waiting.child < |s.children|
      && s.waiting.packet == |s.seen| - 1
      && s.seen[s.waiting.packet].from == s.children[s.waiting.child].raddr
      && (!s.stopped ==> s.children[s.waiting.child].raddr in s.transports &&
                         s.transports[s.children[s.waiting.child].raddr] == s.waiting.child)
  }

  /** Where a datagram is. */
  datatype Fate = Queued(child: nat) | NoRoom | Refused | Pending

  predicate Is(s: State, n: nat, f: Fate) {
    match f
    case Queued(i) => i < |s.children| && n in History(s.children[i])
    case NoRoom => n in s.noRoom
    case Refused => n in s.refused
    case Pending => s.waiting.For? && s.waiting.packet == n
  }

  /** `fates[n]` is where datagram `n` is, and it is nowhere else. */
  ghost predicate Conserved(s: State, fates: seq<Fate>) {
    && |fates| == |s.seen|
    && forall n: nat, f: Fate :: Is(s, n, f) <==> n < |fates| && fates[n] == f
  }

  ghost predicate Invariant(s: State, fates: seq<Fate>) {
    && (forall i :: 0 <= i < |s.children| ==> FromPeer(s, s.children[i]))
    && Published(s) && WaitingOk(s)
    && Increasing(s.noRoom, |s.seen|) && Increasing(s.refused, |s.seen|)
    && (s.waiting.For? ==>
          forall i, k :: 0 <= i < |s.children| && 0 <= k < |History(s.children[i])| ==>
                           History(s.children[i])[k] < s.waiting.packet)
    && (s.waiting.For? ==> Increasing(s.refused, s.waiting.packet))
    && Conserved(s, fates)
  }

  // ----- every step keeps it -----

  /** Steps that leave every history, the drops and what was seen alone. */
  predicate SameFates(s: State, s': State) {
    && s'.seen == s.seen && s'.noRoom == s.noRoom && s'.refused == s.refused && s'.waiting == s.waiting
    && |s'.children| == |s.children|
    && forall i :: 0 <= i < |s.children| ==>
         s'.children[i].raddr == s.children[i].raddr && History(s'.children[i]) == History(s.children[i])
  }

  lemma SameFatesKeep(s: State, fates: seq<Fate>, s': State)
    requires Invariant(s, fates) && SameFates(s, s') && Published(s') && WaitingOk(s')
    ensures Invariant(s', fates)
  {
    forall i | 0 <= i < |s'.children|
      ensures FromPeer(s', s'.children[i])
    {
      assert FromPeer(s, s.children[i]);
    }
    forall n: nat, f: Fate
      ensures Is(s', n, f) <==> n < |fates| && fates[n] == f
    {
      assert Is(s', n, f) == Is(s, n, f);
    }
    forall i, k | s'.waiting.For? && 0 <= i < |s'.children| && 0 <= k < |History(s'.children[i])|
      ensures History(s'.children[i])[k] < s'.waiting.packet
    {
      assert History(s.children[i])[k] < s.waiting.packet;
    }
  }

  lemma QuietStep(backlog: nat, s: State, fates: seq<Fate>, a: Action)
    requires Invariant(s, fates) && Enabled(s, a)
    requires a.SendOnClosed? || a.Accept? || a.Take? || a.CloseFlag? || a.CloseQueue? || a.SocketError?
    ensures Invariant(Apply(backlog, s, a), fates)
  {
    var s' := Apply(backlog, s, a);
    match a {
      case Accept =>
        assert s.accepted + [s.incoming[0]] + s.incoming[1..] == s.accepted + s.incoming;
      case Take(i) =>
        var c := s.children[i];
        assert c.taken + [c.queue[0]] + c.queue[1..] == c.taken + c.queue;
      case _ =>
    }
    SameFatesKeep(s, fates, s');
  }

  lemma IncreasingSnoc(ns: seq<nat>, n: nat)
    requires Increasing(ns, n)
    ensures Increasing(ns + [n], n + 1)
  {
  }

  /** What an arrival leaves as it was. */
  lemma ArriveKeeps(backlog: nat, s: State, fates: seq<Fate>, d: Datagram)
    requires Invariant(s, fates) && Enabled(s, Arrive(d))
    ensures var s' := ArriveAt(backlog, s, d);
            && (s'.children == s.children || s'.children == s.children + [Child(d.from, [], [], false, false)])
            && (forall i :: 0 <= i < |s'.children| ==> FromPeer(s', s'.children[i]))
            && (forall i, k :: 0 <= i < |s'.children| && 0 <= k < |History(s'.children[i])| ==>
                                 History(s'.children[i])[k] < |s.seen|)
            && Published(s') && WaitingOk(s')
  {
    var s' := ArriveAt(backlog, s, d);
    forall i | 0 <= i < |s'.children|
      ensures FromPeer(s', s'.children[i])
    {
      if i < |s.children| {
        assert FromPeer(s, s.children[i]);
      }
    }
    if s'.incoming != s.incoming {
      assert s.accepted + (s.incoming + [|s.children|]) == (s.accepted + s.incoming) + [|s.children|];
    }
  }

  /** The new datagram is where it is, and nothing else moved. */
  lemma ArriveFates(backlog: nat, s: State, fates: seq<Fate>, d: Datagram, n: nat, f: Fate)
    requires Invariant(s, fates) && Enabled(s, Arrive(d))
    ensures var s' := ArriveAt(backlog, s, d);
            Is(s', n, f) <==> Is(s, n, f) || (n == |s.seen| && f == if s'.waiting.For? then Pending else NoRoom)
  {
  }

  lemma ArriveConserves(backlog: nat, s: State, fates: seq<Fate>, d: Datagram)
    requires Invariant(s, fates) && Enabled(s, Arrive(d))
    ensures var s' := ArriveAt(backlog, s, d);
            Conserved(s', fates + [if s'.waiting.For? then Pending else NoRoom])
  {
    var s' := ArriveAt(backlog, s, d);
    var fates' := fates + [if s'.waiting.For? then Pending else NoRoom];
    forall n: nat, f: Fate
      ensures Is(s', n, f) <==> n < |fates'| && fates'[n] == f
    {
      ArriveFates(backlog, s, fates, d, n, f);
    }
  }

  lemma ArriveStep(backlog: nat, s: State, fates: seq<Fate>, d: Datagram) returns (fates': seq<Fate>)
    requires Invariant(s, fates) && Enabled(s, Arrive(d))
    ensures Invariant(Apply(backlog, s, Arrive(d)), fates') && fates <= fates'
    ensures fates'[|s.seen|] == NoRoom <==> d.from !in s.transports && |s.incoming| >= backlog
    ensures fates'[|s.seen|] == NoRoom ==> Apply(backlog, s, Arrive(d)).transports == s.transports
  {
    fates' := fates + [if ArriveAt(backlog, s, d).waiting.For? then Pending else NoRoom];
    ArriveKeeps(backlog, s, fates, d);
    ArriveConserves(backlog, s, fates, d);
    IncreasingSnoc(s.noRoom, |s.seen|);
  }

  lemma PushStep(backlog: nat, s: State, fates: seq<Fate>) returns (fates': seq<Fate>)
    requires Invariant(s, fates) && Enabled(s, Push)
    ensures Invariant(Apply(backlog, s, Push), fates') && fates'[s.waiting.packet] == Queued(s.waiting.child)
    ensures |fates'| == |fates| && forall n :: 0 <= n < |fates| && fates[n] != Pending ==> fates'[n] == fates[n]
  {
    var s' := Apply(backlog, s, Push);
    var i, p := s.waiting.child, s.waiting.packet;
    assert Is(s, p, Pending);
    fates' := fates[p := Queued(i)];
    assert History(s'.children[i]) == History(s.children[i]) + [p];
    forall j | 0 <= j < |s'.children|
      ensures FromPeer(s', s'.children[j])
    {
      assert FromPeer(s, s.children[j]);
      if j == i {
        assert forall k :: 0 <= k < |History(s.children[i])| ==> History(s.children[i])[k] < p;
        IncreasingSnoc(History(s.children[i]), p);
      }
    }
    forall n: nat, f: Fate
      ensures Is(s', n, f) <==> n < |fates'| && fates'[n] == f
    {
      assert Is(s, n, f) <==> n < |fates| && fates[n] == f;
      assert Is(s, n, Pending) <==> n == p;
    }
  }

  lemma RefuseStep(backlog: nat, s: State, fates: seq<Fate>) returns (fates': seq<Fate>)
    requires Invariant(s, fates) && Enabled(s, Refuse)
    ensures Invariant(Apply(backlog, s, Refuse), fates')
    ensures fates'[s.waiting.packet] == Refused
    ensures s.seen[s.waiting.packet].from !in Apply(backlog, s, Refuse).transports
    ensures |fates'| == |fates| && forall n :: 0 <= n < |fates| && fates[n] != Pending ==> fates'[n] == fates[n]
  {
    var s' := Apply(backlog, s, Refuse);
    var p := s.waiting.packet;
    assert Is(s, p, Pending);
    fates' := fates[p := Refused];
    IncreasingSnoc(s.refused, p);
    forall j | 0 <= j < |s'.children|
      ensures FromPeer(s', s'.children[j])
    {
      assert FromPeer(s, s.children[j]);
    }
    forall n: nat, f: Fate
      ensures Is(s', n, f) <==> n < |fates'| && fates'[n] == f
    {
      assert Is(s, n, f) <==> n < |fates| && fates[n] == f;
      assert Is(s, n, Pending) <==> n == p;
    }
  }

  // ----- every run -----

  /** What was decided for a datagram stays so. */
  predicate Settles(fates: seq<Fate>, fates': seq<Fate>) {
    |fates| <= |fates'| && forall n :: 0 <= n < |fates| && fates[n] != Pending ==> fates'[n] == fates[n]
  }

  lemma {:induction false} EveryRun(backlog: nat, s: State, fates: seq<Fate>, acts: seq<Action>, s': State)
    returns (fates': seq<Fate>)
    requires Invariant(s, fates) && Reaches(backlog, s, acts, s')
    ensures Invariant(s', fates') && Settles(fates, fates')
    decreases |acts|
  {
    if acts == [] {
      fates' := fates;
    } else {
      var fates1 := fates;
      match acts[0] {
        case Arrive(d) => fates1 := ArriveStep(backlog, s, fates, d);
        case Push => fates1 := PushStep(backlog, s, fates);
        case Refuse => fates1 := RefuseStep(backlog, s, fates);
        case _ => QuietStep(backlog, s, fates, acts[0]);
      }
      fates' := EveryRun(backlog, Apply(backlog, s, acts[0]), fates1, acts[1..], s');
    }
  }

  lemma StartInvariant()
    ensures Invariant(START, [])
  {
    assert Published(START);
    forall n: nat, f: Fate
      ensures !Is(START, n, f)
    {
    }
  }

  /**
    Demultiplexing, in every state that the demultiplexer reaches: a child's datagrams came from its
    own peer, in the order of arrival and none twice, and its reader gets them in that order; a mapped
    child is its address's, and every child was published exactly once.
  */
  lemma Demultiplexed(backlog: nat, acts: seq<Action>, s: State)
    requires Reaches(backlog, START, acts, s)
    ensures forall i :: 0 <= i < |s.children| ==> FromPeer(s, s.children[i])
    ensures forall i :: 0 <= i < |s.children| ==> s.children[i].taken <= History(s.children[i])
    ensures forall a :: a in s.transports ==>
              s.transports[a] < |s.children| && s.children[s.transports[a]].raddr == a
    ensures s.accepted + s.incoming == seq(|s.children|, i => i)
  {
    StartInvariant();
    var fates := EveryRun(backlog, START, [], acts, s);
    forall i | 0 <= i < |s.children|
      ensures s.children[i].taken <= History(s.children[i])
    {
    }
  }

  /**
    A child may be found half closed: its own `Close` has set the flag when the socket fails, and is still to close
    the queue. The main loop then leaves it alone, and that step stays possible.
  */
  lemma HalfClosed(backlog: nat, d: Datagram) returns (s: State)
    requires backlog > 0
    ensures Reaches(backlog, START, [Arrive(d), Push, CloseFlag(0), SocketError], s)
    ensures s.transports == map[] && s.children == [Child(d.from, [], [0], true, false)]
    ensures Enabled(s, CloseQueue(0)) && Apply(backlog, s, CloseQueue(0)).children[0].queueClosed
  {
    var c := Child(d.from, [], [], false, false);
    var s1 := Apply(backlog, START, Arrive(d));
    assert s1.children == [c] && s1.waiting == For(0, 0);
    var s2 := Apply(backlog, s1, Push);
    assert [] + [0] == [0];
    assert s2.children == [c.(queue := [0])];
    var s3 := Apply(backlog, s2, CloseFlag(0));
    assert s3.children == [c.(queue := [0], closed := true)];
    s := Apply(backlog, s3, SocketError);
    assert s.children == s3.children;
    ReachesFirst(backlog, s3, SocketError, [], s);
    assert [SocketError] + [] == [SocketError];
    ReachesFirst(backlog, s2, CloseFlag(0), [SocketError], s);
    assert [CloseFlag(0)] + [SocketError] == [CloseFlag(0), SocketError];
    ReachesFirst(backlog, s1, Push, [CloseFlag(0), SocketError], s);
    assert [Push] + [CloseFlag(0), SocketError] == [Push, CloseFlag(0), SocketError];
    ReachesFirst(backlog, START, Arrive(d), [Push, CloseFlag(0), SocketError], s);
    assert [Arrive(d)] + [Push, CloseFlag(0), SocketError] == [Arrive(d), Push, CloseFlag(0), SocketError];
  }

  lemma ReachesFirst(backlog: nat, s: State, a: Action, acts: seq<Action>, s': State)
    requires Enabled(s, a) && Reaches(backlog, Apply(backlog, s, a), acts, s')
    ensures Reaches(backlog, s, [a] + acts, s')
  {
    assert ([a] + acts)[1..] == acts;
  }

  /**
    Conservation: every datagram that was taken off the socket is in exactly one place, on the queue
    history of one child, or dropped for want of room, or dropped because its child was closed, or the one
    for which the main loop is waiting. Only a waiting datagram ever changes its place.
  */
  lemma DatagramsConserved(backlog: nat, acts: seq<Action>, s: State, more: seq<Action>, s': State)
    returns (fates: seq<Fate>, fates': seq<Fate>)
    requires Reaches(backlog, START, acts, s) && Reaches(backlog, s, more, s')
    ensures Conserved(s, fates) && Conserved(s', fates') && Settles(fates, fates')
    ensures forall n :: 0 <= n < |s.seen| - 1 ==> fates[n] != Pending
  {
    StartInvariant();
    fates := EveryRun(backlog, START, [], acts, s);
    fates' := EveryRun(backlog, s, fates, more, s');
    forall n | 0 <= n < |s.seen| - 1
      ensures fates[n] != Pending
    {
      assert Is(s, n, fates[n]);
    }
  }
}
