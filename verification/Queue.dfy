/** The packet queue of src/queue.c over the list, and the hand-off of received packets from
    the XMPP thread to the pipeline thread in src/modules/tp_xmpp.c. */
module Queue {
  import opened List

  /** struct pppoat_queue; a packet is represented by its queue link. Each method is one section
      under q_lock. */
  class Queue {
    const list: List

    ghost predicate Valid()
      reads this, list, list.head, list.items
    {
      list.Valid()
    }

    constructor (magic: int)
      ensures Valid() && list.items == [] && fresh(list) && fresh(list.head)
    {
      list := new List(magic);
    }

    method Enqueue(pkt: Link)
      requires Valid() && pkt !in list.items && pkt != list.head
      modifies list, list.head, list.items, pkt
      ensures Valid() && list.items == old(list.items) + [pkt]
    {
      list.InsertTail(pkt);
    }

    method Dequeue() returns (pkt: Link?)
      requires Valid()
      modifies list, list.head, list.items
      ensures Valid()
      ensures old(list.items) == [] ==> pkt == null && list.items == []
      ensures old(list.items) != [] ==>
                pkt == old(list.items)[0] && list.items == old(list.items)[1..] && list.Removed(pkt)
    {
      pkt := list.Dequeue();
    }

    method DequeueLast() returns (pkt: Link?)
      requires Valid()
      modifies list, list.head, list.items
      ensures Valid()
      ensures old(list.items) == [] ==> pkt == null && list.items == []
      ensures old(list.items) != [] ==>
                && pkt == old(list.items)[|old(list.items)| - 1]
                && list.items == old(list.items)[..|old(list.items)| - 1] && list.Removed(pkt)
    {
      pkt := list.DequeueLast();
    }

    method Front() returns (pkt: Link?)
      requires Valid()
      ensures pkt == if list.items == [] then null else list.items[0]
    {
      pkt := list.Head();
    }

    method PopFront()
      requires Valid()
      modifies list, list.head, list.items
      ensures Valid() && list.items == if old(list.items) == [] then [] else old(list.items)[1..]
    {
      var _ := list.Dequeue();
    }

    /** tp_xmpp_queue_flush: every queued packet is given back, in order, and none is left. */
    method Flush() returns (puts: seq<Link>)
      requires Valid()
      modifies list, list.head, list.items
      ensures Valid() && list.items == [] && puts == old(list.items)
    {
      hide List.Valid, List.Removed;
      ghost var was := list.items;
      puts := [];
      while true
        invariant Valid() && |puts| + |list.items| == |was| && puts == was[..|puts|]
        invariant forall i {:trigger list.items[i]} :: 0 <= i < |list.items| ==> list.items[i] == was[|puts| + i]
        decreases |list.items|
      {
        var pkt := Dequeue();
        if pkt == null {
          return;
        }
        puts := puts + [pkt];
      }
    }
  }
}

/** The hand-off under every interleaving. */
module Handoff {
  import opened Wrappers

  /** txc_recv_q and txc_recv_sem. posting: packets enqueued whose semaphore_post is still to
      come; woken: semaphore_wait calls that have returned and whose dequeue is still to come.
      arrived and taken record what the handler enqueued and what pkt_get returned. */
  datatype State<P> = State(queue: seq<P>, sem: nat, posting: nat, woken: nat, arrived: seq<P>, taken: seq<Option<P>>)

  datatype Step<P> = Enqueue(p: P) | Post | Wait | Dequeue

  function Init<P>(): State<P> { State([], 0, 0, 0, [], []) }

  predicate Enabled<P>(s: State<P>, step: Step<P>) {
    match step
    case Enqueue(_) => true
    case Post => s.posting > 0
    case Wait => s.sem > 0
    case Dequeue => s.woken > 0
  }

  function Next<P>(s: State<P>, step: Step<P>): State<P>
    requires Enabled(s, step)
  {
    match step
    case Enqueue(p) => s.(queue := s.queue + [p], posting := s.posting + 1, arrived := s.arrived + [p])
    case Post => s.(posting := s.posting - 1, sem := s.sem + 1)
    case Wait => s.(sem := s.sem - 1, woken := s.woken + 1)
    case Dequeue =>
      if s.queue == [] then s.(woken := s.woken - 1, taken := s.taken + [None])
      else s.(woken := s.woken - 1, queue := s.queue[1..], taken := s.taken + [Some(s.queue[0])])
  }

  /** A run under any schedule; a step that is not enabled is skipped. */
  function Run<P>(s: State<P>, steps: seq<Step<P>>): State<P>
    decreases |steps|
  {
    if steps == [] then s else Run(if Enabled(s, steps[0]) then Next(s, steps[0]) else s, steps[1..])
  }

  function Wrap<P>(ps: seq<P>): seq<Option<P>> { seq(|ps|, i requires 0 <= i < |ps| => Some(ps[i])) }

  ghost predicate Inv<P>(s: State<P>) {
    && |s.queue| == s.sem + s.posting + s.woken
    && |s.taken| <= |s.arrived|
    && s.taken == Wrap(s.arrived[..|s.taken|])
    && s.queue == s.arrived[|s.taken|..]
  }

  lemma StepKeepsInv<P>(s: State<P>, step: Step<P>)
    requires Inv(s) && Enabled(s, step)
    ensures Inv(Next(s, step))
  {
    if step.Enqueue? {
      var a := s.arrived + [step.p];
      assert a[..|s.taken|] == s.arrived[..|s.taken|];
      assert a[|s.taken|..] == s.queue + [step.p];
    } else if step.Dequeue? {
      var n := |s.taken|;
      assert s.queue[0] == s.arrived[n];
      assert s.arrived[..n + 1] == s.arrived[..n] + [s.arrived[n]];
      assert s.arrived[n..][1..] == s.arrived[n + 1..];
    }
  }

  /** Under every interleaving of handlers and readers, a reader that has waited always gets a
      packet, packets come out in the order they arrived, and those not taken are queued. */
  lemma {:induction false} HandsOver<P>(s: State<P>, steps: seq<Step<P>>)
    requires Inv(s)
    ensures var n := Run(s, steps);
            Inv(n) && None !in n.taken && n.taken + Wrap(n.queue) == Wrap(n.arrived)
    decreases |steps|
  {
    if steps == [] {
      assert s.arrived == s.arrived[..|s.taken|] + s.arrived[|s.taken|..];
    } else if Enabled(s, steps[0]) {
      StepKeepsInv(s, steps[0]);
      HandsOver(Next(s, steps[0]), steps[1..]);
    } else {
      HandsOver(s, steps[1..]);
    }
  }

  lemma HandsOverFromInit<P>(steps: seq<Step<P>>)
    ensures var n := Run(Init<P>(), steps);
            |n.queue| == n.sem + n.posting + n.woken && None !in n.taken && n.taken + Wrap(n.queue) == Wrap(n.arrived)
  {
    HandsOver(Init<P>(), steps);
  }

  /** How many steps other than new arrivals are still to come. */
  function Pending<P>(s: State<P>): nat { 3 * s.posting + 2 * s.sem + s.woken }

  /** No wake-up is lost: a queued packet always has a step that brings it closer to a reader,
      each such step does so by exactly one, and when none is left the queue is empty. */
  lemma NoLostWakeup<P>(s: State<P>, step: Step<P>)
    requires Inv(s)
    ensures Pending(s) == 0 <==> s.queue == []
    ensures s.queue != [] ==> Enabled(s, Post) || Enabled(s, Wait) || Enabled(s, Dequeue)
    ensures !step.Enqueue? && Enabled(s, step) ==> Pending(Next(s, step)) == Pending(s) - 1
  {}
}
