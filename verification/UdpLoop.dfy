/**
  The main loop of the UDP demultiplexer on its own fields. Between any two of its steps the other
  goroutines take any number of theirs.
*/
module UdpLoop {
  import opened Udp

  lemma {:induction false} ReachesNext(backlog: nat, s: State, acts: seq<Action>, s1: State, a: Action)
    requires Reaches(backlog, s, acts, s1) && Enabled(s1, a)
    ensures Reaches(backlog, s, acts + [a], Apply(backlog, s1, a))
    decreases |acts|
  {
    if acts == [] {
      assert acts + [a] == [a] && [a][1..] == [];
    } else {
      assert (acts + [a])[0] == acts[0] && (acts + [a])[1..] == acts[1..] + [a];
      ReachesNext(backlog, Apply(backlog, s, acts[0]), acts[1..], s1, a);
    }
  }

  datatype Verdict = Pushed | Shut | Aborted | Blocked

  /** `p` is a packet of its own, apart from the receive buffer, and it holds the bytes of datagram `n`. */
  ghost predicate Holds(p: array<int>, n: nat, buffer: array<int>, seen: seq<Datagram>)
    reads p
  {
    p != buffer && n < |seen| && p[..] == seen[n].data
  }

  /** The packets `queue`, in their order, hold the datagrams `ns`. */
  ghost predicate QueueHolds(queue: seq<array<int>>, ns: seq<nat>, buffer: array<int>, seen: seq<Datagram>)
    reads queue
  {
    |queue| == |ns| && forall j :: 0 <= j < |queue| ==> Holds(queue[j], ns[j], buffer, seen)
  }

  lemma QueueHoldsMore(queue: seq<array<int>>, ns: seq<nat>, buffer: array<int>, seen: seq<Datagram>, d: Datagram)
    requires QueueHolds(queue, ns, buffer, seen)
    ensures QueueHolds(queue, ns, buffer, seen + [d])
  {
    forall j | 0 <= j < |queue|
      ensures Holds(queue[j], ns[j], buffer, seen + [d])
    {
      assert Holds(queue[j], ns[j], buffer, seen);
    }
  }

  lemma SeenNext(base: seq<Datagram>, all: seq<Datagram>, k: nat)
    requires k < |all|
    ensures base + all[..k] + [all[k]] == base + all[..k + 1] <= base + all
  {
    assert all == all[..k + 1] + all[k + 1..];
  }

  /**
    Of the children `cs` the ones in `mapped` were closed: their flag is set, and so is that of their queue, unless
    another `Close` stood between its two steps, which then has this one left. Nothing else changed.
  */
  ghost predicate AllClosed(cs: seq<Child>, mapped: set<nat>, after: seq<Child>) {
    && |after| == |cs|
    && forall i :: 0 <= i < |cs| ==>
         && after[i].raddr == cs[i].raddr && after[i].taken == cs[i].taken && after[i].queue == cs[i].queue
         && after[i].closed == (cs[i].closed || i in mapped)
         && after[i].queueClosed == (cs[i].queueClosed || (i in mapped && !cs[i].closed))
  }

  class Acceptor {
    const backlog: nat
    const buffer: array<int>              // receives every datagram in turn
    var children: seq<Child>
    var queues: seq<seq<array<int>>>      // the packets in the children's channels
    var packet: array<int>                // the packet that waits
    var closed: bool                      // the listener was closed
    var transports: map<Address, nat>
    var incoming: seq<nat>
    var waiting: Waiting
    var stopped: bool
    var aborted: bool
    ghost var seen: seq<Datagram>
    ghost var accepted: seq<nat>
    ghost var noRoom: seq<nat>
    ghost var refused: seq<nat>
    ghost var history: seq<Action>  // all steps since the start
    var count: nat                  // datagrams taken off the socket

    ghost function Now(): Udp.State
      reads this
    {
      Udp.State.State(seen, children, transports, incoming, accepted, waiting, noRoom, refused, stopped, aborted)
    }

    /** The fields are those of a state that the step system reaches. */
    ghost predicate Valid()
      reads this
    {
      Reaches(backlog, START, history, Now()) && count == |seen|
    }

    /** What `d` is once it has been read into the buffer. */
    function Cut(d: Datagram): Datagram {
      Datagram(d.from, d.data[..if |d.data| < buffer.Length then |d.data| else buffer.Length])
    }

    /** A datagram that fits into the buffer is read whole; of a longer one there is as much as fits. */
    lemma CutFits(d: Datagram)
      ensures |d.data| <= buffer.Length ==> Cut(d) == d
      ensures |d.data| > buffer.Length ==> Cut(d) == Datagram(d.from, d.data[..buffer.Length])
    {
    }

    /** Every packet, queued or waiting, holds the bytes of its datagram, whatever is in the buffer by now. */
    ghost predicate Carried()
      reads this, packet, set i, j | 0 <= i < |queues| && 0 <= j < |queues[i]| :: queues[i][j]
    {
      && |queues| == |children|
      && (forall i :: 0 <= i < |queues| ==> QueueHolds(queues[i], children[i].queue, buffer, seen))
      && (waiting.For? ==> Holds(packet, waiting.packet, buffer, seen))
    }

    /** The datagram that waits has a child. */
    lemma Waits()
      requires Valid()
      ensures waiting.For? ==> waiting.child < |children| && waiting.packet == |seen| - 1
      ensures waiting.For? && !stopped ==> children[waiting.child].raddr in transports
    {
      StartInvariant();
      var fates := EveryRun(backlog, START, [], history, Now());
    }

    constructor (backlog: nat, maxPacketSize: nat)
      ensures Valid() && Carried() && Now() == START && !closed
      ensures this.backlog == backlog && buffer.Length == maxPacketSize && fresh(buffer)
    {
      this.backlog := backlog;
      buffer, packet := new int[maxPacketSize], new int[0];
      children, transports, incoming, waiting, stopped, aborted := [], map[], [], Nothing, false, false;
      seen, accepted, noRoom, refused, history, count := [], [], [], [], [], 0;
      queues, closed := [], false;
    }

    /** The step `a` was taken from the state `s`. */
    ghost method Record(s: Udp.State, a: Action)
      requires Reaches(backlog, START, history, s) && count == |seen|
      requires Enabled(s, a) && Now() == Apply(backlog, s, a)
      modifies `history
      ensures Valid() && Now() == Apply(backlog, s, a) && history == old(history) + [a]
    {
      ReachesNext(backlog, START, history, s, a);
      history := history + [a];
    }

    // ----- the other goroutines -----

    /** The select in `Accept`: a closed listener or a child in the backlog, and either if both are there. */
    method Accept() returns (child: nat, ok: bool)
      requires Valid() && Carried() && (closed || incoming != [])
      modifies `incoming, `accepted, `history
      ensures Valid() && Carried()
      ensures !ok ==> closed && Now() == old(Now())
      ensures ok ==> old(incoming) != [] && child == old(incoming[0]) && accepted == old(accepted) + [child]
      ensures ok ==> incoming == old(incoming)[1..]
      ensures ok ==> Now() == Apply(backlog, old(Now()), Action.Accept)
    {
      child := 0;
      ok := *;
      if incoming == [] || (closed && !ok) {
        return 0, false;
      }
      ghost var s := Now();
      child, ok := incoming[0], true;
      incoming, accepted := incoming[1..], accepted + [child];
      Record(s, Action.Accept);
    }

    /** Closing the listener succeeds once. */
    method Close() returns (ok: bool)
      requires Valid() && Carried()
      modifies `closed
      ensures Valid() && Carried() && closed && ok == !old(closed)
    {
      ok, closed := !closed, true;
    }

    /** The reader of child `i` takes a packet: the bytes of the oldest datagram that is queued. */
    method TakePacket(i: nat) returns (p: array<int>)
      requires Valid() && Carried() && i < |children| && children[i].queue != []
      modifies `children, `queues, `history
      ensures Valid() && Carried() && Now() == Apply(backlog, old(Now()), Take(i))
      ensures var n := old(children[i].queue[0]);
              p != buffer && n < |seen| && p[..] == seen[n].data && seen[n].from == children[i].raddr
      ensures var c := old(children[i]);
              children == old(children)[i := c.(taken := c.taken + [c.queue[0]], queue := c.queue[1..])]
      ensures p == old(queues[i][0]) && queues == old(queues)[i := old(queues[i][1..])]
    {
      Origin(i);
      ghost var s := Now();
      assert Holds(queues[i][0], children[i].queue[0], buffer, seen);
      var c := children[i];
      p := queues[i][0];
      queues := queues[i := queues[i][1..]];
      children := children[i := c.(taken := c.taken + [c.queue[0]], queue := c.queue[1..])];
      Record(s, Take(i));
    }

    /** What is queued on a child came from its peer. */
    lemma Origin(i: nat)
      requires Valid() && i < |children| && children[i].queue != []
      ensures children[i].queue[0] < |seen| && seen[children[i].queue[0]].from == children[i].raddr
    {
      Demultiplexed(backlog, history, Now());
      var c := children[i];
      assert History(c)[|c.taken|] == c.queue[0];
    }

    /** `Close` of child `i` takes one of its two steps, if there is one left. */
    method CloseChild(i: nat)
      requires Valid() && Carried() && i < |children|
      modifies `children, `history
      ensures Valid() && Carried()
      ensures Now() == if !old(children[i].closed) then Apply(backlog, old(Now()), CloseFlag(i))
                       else if !old(children[i].queueClosed) then Apply(backlog, old(Now()), CloseQueue(i))
                       else old(Now())
      ensures children == old(children)[i := children[i]] && children[i].closed
      ensures children[i] == old(children[i]).(closed := true,
                                               queueClosed := old(children[i].closed || children[i].queueClosed))
    {
      ghost var s := Now();
      ghost var a := CloseFlag(i);
      var c := children[i];
      if !c.closed {
        children := children[i := c.(closed := true)];
      } else if !c.queueClosed {
        a := CloseQueue(i);
        children := children[i := c.(queueClosed := true)];
      } else {
        return;
      }
      Record(s, a);
    }

    /** Any number of steps of the goroutines that accept, read and close. */
    method Others()
      requires Valid() && Carried()
      modifies `children, `queues, `incoming, `accepted, `closed, `history
      ensures Valid() && Carried()
    {
      var rounds: nat :| true;
      for _ := 0 to rounds
        invariant Valid() && Carried()
      {
        var i: nat, what: nat :| true;
        if what == 0 {
          if closed || incoming != [] {
            var _, _ := Accept();
          }
        } else if what == 1 {
          var _ := Close();
        } else if i < |children| {
          if what == 2 {
            CloseChild(i);
          } else if children[i].queue != [] {
            var _ := TakePacket(i);
          }
        }
      }
    }

    // ----- the loop -----

    /** `ReadFromUDP`: the buffer receives as much of the datagram as it holds. */
    method ReadFrom(d: Datagram) returns (n: nat)
      requires Carried()
      modifies buffer
      ensures Carried() && n <= buffer.Length && buffer[..n] == Cut(d).data == d.data[..n]
      ensures n == |d.data| || (n == buffer.Length && n < |d.data|)
    {
      n := if |d.data| < buffer.Length then |d.data| else buffer.Length;
      forall i | 0 <= i < n {
        buffer[i] := d.data[i];
      }
    }

    /**
      Datagram `d` of a known peer waits for that peer's child. For a new peer a child is made, published and mapped,
      next to all others, if there is room in the backlog; if not, the datagram is dropped and nothing is mapped.
    */
    ghost predicate Looked(s: Udp.State, d: Datagram)
      reads this
    {
      && seen == s.seen + [d] && accepted == s.accepted && refused == s.refused
      && if d.from in s.transports then
           && children == s.children && transports == s.transports && incoming == s.incoming && noRoom == s.noRoom
           && waiting == For(s.transports[d.from], |s.seen|)
         else if |s.incoming| < backlog then
           && children == s.children + [Child(d.from, [], [], false, false)]
           && transports == s.transports[d.from := |s.children|] && incoming == s.incoming + [|s.children|]
           && noRoom == s.noRoom && waiting == For(|s.children|, |s.seen|)
         else
           && children == s.children && transports == s.transports && incoming == s.incoming
           && noRoom == s.noRoom + [|s.seen|] && waiting == Nothing
    }

    /** The child of the sender is looked up, or made and published if the backlog has room. */
    method Lookup(from: Address, ghost d: Datagram)
      requires d.from == from
      requires Valid() && Carried() && Running(Now()) && waiting == Nothing
      modifies `children, `queues, `transports, `incoming, `waiting, `seen, `noRoom, `history, `count
      ensures Valid() && Now() == Apply(backlog, old(Now()), Arrive(d))
      ensures Looked(old(Now()), d)
      ensures |queues| == |children|
      ensures forall i :: 0 <= i < |queues| ==> QueueHolds(queues[i], children[i].queue, buffer, seen)
    {
      ghost var s := Now();
      var n := count;
      if from in transports {
        count, seen, waiting := count + 1, seen + [d], For(transports[from], n);
        assert Now() == ArriveAt(backlog, s, d);
      } else if |incoming| < backlog {
        Publish(from, d);
        assert Now() == ArriveAt(backlog, s, d);
      } else {
        count, seen, noRoom := count + 1, seen + [d], noRoom + [n];
        assert Now() == ArriveAt(backlog, s, d);
      }
      forall i | 0 <= i < |queues|
        ensures QueueHolds(queues[i], children[i].queue, buffer, seen)
      {
        if i < |s.children| {
          QueueHoldsMore(queues[i], children[i].queue, buffer, s.seen, d);
        }
      }
      Record(s, Arrive(d));
    }

    method Publish(from: Address, ghost d: Datagram)
      requires d.from == from && count == |seen| && |queues| == |children|
      modifies `children, `queues, `transports, `incoming, `waiting, `seen, `count
      ensures children == old(children) + [Child(d.from, [], [], false, false)] && queues == old(queues) + [[]]
      ensures incoming == old(incoming) + [|old(children)|] && transports == old(transports)[d.from := |old(children)|]
      ensures waiting == For(|old(children)|, |old(seen)|) && seen == old(seen) + [d] && count == |seen|
    {
      var id := |children|;
      waiting := For(id, count);
      count, seen := count + 1, seen + [d];
      children, queues := children + [Child(from, [], [], false, false)], queues + [[]];
      incoming, transports := incoming + [id], transports[from := id];
    }

    /** One datagram is taken off the socket; unless it is dropped, a copy of it waits for its child. */
    method Dispatch(d: Datagram)
      requires Valid() && Carried() && Running(Now()) && waiting == Nothing
      modifies this, buffer
      ensures Valid() && Carried() && Now() == Apply(backlog, old(Now()), Arrive(Cut(d)))
      ensures fresh(packet) || packet == old(packet)
      ensures Looked(old(Now()), Cut(d))
    {
      ghost var cut := Cut(d);
      var n := ReadFrom(d);
      Lookup(d.from, cut);
      Waits();
      if waiting.For? {
        CopyPacket(n);
      }
    }

    /** The waiting packet becomes a new array with the first `n` bytes of the buffer. */
    method CopyPacket(n: nat)
      requires n <= buffer.Length
      modifies `packet
      ensures fresh(packet) && packet[..] == buffer[..n]
    {
      var p := new int[n];
      forall i | 0 <= i < n {
        p[i] := buffer[i];
      }
      assert p[..] == buffer[..n];
      packet := p;
    }

    /** The select in `received`: of the cases that are ready any may be taken. */
    method Received(c: Child) returns (v: Verdict)
      ensures v == Shut ==> c.closed
      ensures v == Aborted ==> c.queueClosed
      ensures v == Pushed ==> !c.queueClosed && |c.queue| < 128
      ensures v == Blocked ==> !c.closed && !c.queueClosed && |c.queue| >= 128
    {
      var first: bool := *;
      if c.closed && first {
        v := Shut;
      } else if c.queueClosed {
        v := Aborted;
      } else if |c.queue| < QUEUE_SIZE {
        v := Pushed;
      } else if c.closed {
        v := Shut;
      } else {
        v := Blocked;
      }
    }

    /** The waiting datagram's child is open and its queue is full. */
    ghost predicate IsFull()
      reads this
    {
      && waiting.For? && waiting.child < |children|
      && !children[waiting.child].closed && |children[waiting.child].queue| >= QUEUE_SIZE
    }

    /**
      The waiting datagram is queued on its open child, behind all others; or it is dropped, because the child was
      closed, and only its peer is unmapped; or it was sent on a closed channel.
    */
    ghost predicate Attempted(s: Udp.State, a: Action)
      requires s.waiting.For? && s.waiting.child < |s.children|
      reads this
    {
      var i, p := s.waiting.child, s.waiting.packet;
      var c := s.children[i];
      && seen == s.seen && noRoom == s.noRoom && incoming == s.incoming && accepted == s.accepted
      && match a
         case Push =>
           && !c.queueClosed && |c.queue| < 128 && waiting == Nothing && aborted == s.aborted
           && children == s.children[i := c.(queue := c.queue + [p])]
           && transports == s.transports && refused == s.refused
         case Refuse =>
           && c.closed && waiting == Nothing && aborted == s.aborted && children == s.children
           && transports == s.transports - {c.raddr} && refused == s.refused + [p]
         case SendOnClosed =>
           && c.queueClosed && aborted && waiting == s.waiting && children == s.children
           && transports == s.transports && refused == s.refused
         case _ => false
    }

    /** The verdict is carried out: the step `a` of the system. */
    method Conclude(v: Verdict) returns (ghost a: Action)
      requires Valid() && Carried() && waiting.For? && waiting.child < |children|
      requires v.Pushed? ==> Enabled(Now(), Push)
      requires v.Shut? ==> Enabled(Now(), Refuse)
      requires v.Aborted? ==> Enabled(Now(), SendOnClosed)
      requires !v.Blocked?
      modifies `children, `queues, `transports, `waiting, `refused, `aborted
      ensures Carried() && a in {Push, Refuse, SendOnClosed}
      ensures Enabled(old(Now()), a) && Now() == Apply(backlog, old(Now()), a)
      ensures Attempted(old(Now()), a)
    {
      var i, p := waiting.child, waiting.packet;
      var c := children[i];
      match v {
        case Pushed =>
          a := Push;
          queues := queues[i := queues[i] + [packet]];
          children := children[i := c.(queue := c.queue + [p])];
          waiting := Nothing;
        case Shut =>
          a := Refuse;
          transports := transports - {c.raddr};
          refused := refused + [p];
          waiting := Nothing;
        case Aborted =>
          a := SendOnClosed;
          aborted := true;
      }
    }

    /** Hands the waiting datagram to its child, unless the child's queue is full. */
    method Deliver() returns (done: bool)
      requires Valid() && Carried() && Running(Now()) && waiting.For?
      modifies `children, `queues, `transports, `waiting, `refused, `aborted, `history
      ensures Valid() && Carried()
      ensures !done ==> Now() == old(Now()) && IsFull()
      ensures done ==>
                exists a :: a in {Push, Refuse, SendOnClosed} && Enabled(old(Now()), a) &&
                            Now() == Apply(backlog, old(Now()), a) && Attempted(old(Now()), a)
    {
      Waits();
      ghost var s := Now();
      var v := Received(children[waiting.child]);
      done := !v.Blocked?;
      if done {
        ghost var a := Conclude(v);
        Record(s, a);
      }
    }

    /** A read error of the socket: all mapped children are closed, and the loop returns. */
    method CloseAll()
      requires Valid() && Carried() && Running(Now()) && waiting == Nothing
      modifies `children, `transports, `stopped, `history
      ensures Valid() && Carried() && Now() == Apply(backlog, old(Now()), SocketError)
      ensures history == old(history) + [SocketError]
      ensures AllClosed(old(children), old(transports).Values, children) && transports == map[] && stopped
    {
      ghost var s := Now();
      var mapped := transports.Values;
      children := seq(|children|, i requires 0 <= i < |children| reads this =>
                        if i in mapped then Udp.Closed(children[i]) else children[i]);
      transports, stopped := map[], true;
      assert children == Apply(backlog, s, SocketError).children;
      Record(s, SocketError);
    }

    /** Tries to deliver while the others go on, for as long as it likes. */
    method HandOver()
      requires Valid() && Carried() && Running(Now())
      modifies `children, `queues, `transports, `incoming, `accepted, `closed, `waiting, `refused, `aborted, `history
      ensures Valid() && Carried()
      ensures waiting.For? ==> aborted || IsFull()
    {
      var patience: nat :| true;
      while waiting.For? && !aborted
        invariant Valid() && Carried()
        decreases if waiting.For? && !aborted then patience + 1 else 0
      {
        Others();
        var done := Deliver();
        if !done {
          if patience == 0 {
            return;
          }
          patience := patience - 1;
        }
      }
    }

    /** One round of the loop. */
    method Round(d: Datagram)
      requires Valid() && Carried() && Running(Now()) && waiting == Nothing
      modifies this, buffer
      ensures Valid() && Carried() && seen == old(seen) + [Cut(d)] && !stopped
      ensures waiting.For? ==> aborted || IsFull()
    {
      Others();
      Dispatch(d);
      HandOver();
    }

    /** The datagrams as the buffer holds them. */
    function CutAll(ds: seq<Datagram>): (r: seq<Datagram>)
      ensures |r| == |ds|
    {
      seq(|ds|, i requires 0 <= i < |ds| => Cut(ds[i]))
    }

    lemma CutAllFits(ds: seq<Datagram>)
      ensures (forall d :: d in ds ==> |d.data| <= buffer.Length) ==> CutAll(ds) == ds
    {
      if forall d :: d in ds ==> |d.data| <= buffer.Length {
        forall i | 0 <= i < |ds|
          ensures CutAll(ds)[i] == ds[i]
        {
          assert ds[i] in ds;
          CutFits(ds[i]);
        }
      }
    }

    /** The last step was a read error in the state `s`. */
    ghost predicate LastStep(s: Udp.State)
      reads this
    {
      && history != [] && history[|history| - 1] == SocketError
      && Reaches(backlog, START, history[..|history| - 1], s)
    }

    /**
      The main loop, until the socket fails after the datagrams `ds`, or a send aborts it, or it waits for a
      child that is not read. Whatever the other goroutines do meanwhile, it stays in the reachable states, and
      every packet holds the bytes of its datagram. After a read error every child that was mapped just before it
      is closed, and all other children are as they were.
    */
    method MainLoop(ds: seq<Datagram>) returns (ghost last: Udp.State)
      requires Valid() && Carried() && Running(Now()) && waiting == Nothing
      modifies this, buffer
      ensures Valid() && Carried() && old(seen) <= seen <= old(seen) + CutAll(ds)
      ensures stopped ==> seen == old(seen) + CutAll(ds) && transports == map[] && waiting == Nothing
      ensures stopped || aborted || IsFull()
      ensures stopped ==> LastStep(last) && AllClosed(last.children, last.transports.Values, children)
      ensures stopped && (forall d :: d in ds ==> |d.data| <= buffer.Length) ==> seen == old(seen) + ds
    {
      ghost var all, base := CutAll(ds), seen;
      for k := 0 to |ds|
        invariant Valid() && Carried() && Running(Now()) && waiting == Nothing
        invariant seen == base + all[..k]
      {
        Round(ds[k]);
        SeenNext(base, all, k);
        if waiting.For? || aborted {
          last := Now();
          return;
        }
      }
      assert all[..|ds|] == all;
      Others();
      last := Now();
      ghost var before := history;
      CloseAll();
      assert history[..|history| - 1] == before;
      CutAllFits(ds);
    }
  }
}
