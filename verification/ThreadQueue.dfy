/** The kernel's intrusive, circular, doubly linked thread queues. */
module ThreadQueue {
  import Q = PrioQueue

  /**
   The link and priority fields a thread shares with a queue header.  Nothing here changes a priority
   while the thread is queued.
   */
  class Node {
    var next: Node
    var prev: Node
    const prio: nat

    constructor (prio: nat)
      ensures next == this && prev == this && this.prio == prio
    {
      next, prev, this.prio := this, this, prio;
    }
  }

  /** Neighbours along `ring` point at each other. */
  ghost predicate Linked(ring: seq<Node>)
    reads ring
  {
    && (forall i {:trigger ring[i].next} | 0 <= i < |ring| - 1 :: ring[i].next == ring[i + 1])
    && (forall i {:trigger ring[i].prev} | 0 < i < |ring| :: ring[i].prev == ring[i - 1])
  }

  /** All distinct but for the ends, which are the header. */
  ghost predicate IsRing(head: Node, threads: seq<Node>) {
    && head !in threads
    && forall i, j | 0 <= i < j < |threads| :: threads[i] != threads[j]
  }

  /** The queue's record is about these threads. */
  ghost predicate Mirrors(q: seq<Q.Entry<Node>>, threads: seq<Node>) {
    |q| == |threads| && forall i | 0 <= i < |q| :: q[i].who == threads[i] && threads[i].prio == q[i].prio
  }

  lemma MirrorsLength(q: seq<Q.Entry<Node>>, threads: seq<Node>)
    requires Mirrors(q, threads)
    ensures |q| == |threads|
  {
  }

  lemma MirrorsAdd(s: Q.State<Node>, threads: seq<Node>, k: nat, t: Node)
    requires Mirrors(s.queue, threads) && k <= |threads|
    ensures Mirrors(Q.Add(s, k, t, t.prio).queue, threads[..k] + [t] + threads[k..])
  {
  }

  lemma MirrorsDrop(s: Q.State<Node>, threads: seq<Node>, k: nat)
    requires Mirrors(s.queue, threads) && k < |threads| == |s.queue|
    ensures Mirrors(Q.Drop(s, k).queue, threads[..k] + threads[k + 1..])
    ensures s.queue[k].who == threads[k]
  {
  }

  /** The two neighbours at a place of the ring occur there only. */
  lemma RingDistinct(head: Node, threads: seq<Node>, k: nat)
    requires IsRing(head, threads) && k <= |threads|
    ensures var ring := [head] + threads + [head];
            && (forall i | 0 <= i < |ring| - 1 && i != k :: ring[i] != ring[k])
            && (forall i | 0 < i < |ring| && i != k + 1 :: ring[i] != ring[k + 1])
  {
  }

  lemma RingAdd(head: Node, threads: seq<Node>, k: nat, tp: Node)
    requires IsRing(head, threads) && k <= |threads| && tp != head && tp !in threads
    ensures IsRing(head, threads[..k] + [tp] + threads[k..])
  {
  }

  lemma CutOut(head: Node, threads: seq<Node>, k: nat)
    requires IsRing(head, threads) && k < |threads|
    ensures threads[k] !in threads[..k] + threads[k + 1..]
  {
  }

  lemma Neighbours(ring: seq<Node>, i: nat)
    requires Linked(ring) && i + 1 < |ring|
    ensures ring[i].next == ring[i + 1] && ring[i + 1].prev == ring[i]
  {
    assert ring[i].next == ring[i + 1];
  }

  class ThreadsQueue {
    const head: Node               // the header, `p_next` and `p_prev` of the queue itself
    ghost var threads: seq<Node>   // from the front
    ghost var st: Q.State<Node>

    ghost predicate Valid()
      reads this, head, threads
    {
      && IsRing(head, threads)
      && Linked([head] + threads + [head])
      && head.prio == 0
      && Q.Consistent(st)
      && Mirrors(st.queue, threads)
    }

    /** `queue_init`. */
    constructor ()
      ensures Valid() && fresh(head) && threads == [] && st == Q.Empty()
    {
      head := new Node(0);
      threads := [];
      st := Q.Empty();
    }

    /** `queue_isempty`. */
    predicate IsEmpty()
      requires Valid()
      reads this, head, threads
      ensures IsEmpty() <==> st.queue == []
    {
      var ring := [head] + threads + [head];
      assert ring[0].next == ring[1];
      head.next == head
    }

    /** `firstprio`. */
    function FirstPrio(): (p: nat)
      requires Valid()
      reads this, head, threads, head.next
      ensures p == Q.FirstPrio(st.queue)
    {
      var ring := [head] + threads + [head];
      assert ring[0].next == ring[1];
      head.next.prio
    }

    /** Links `tp` in before the node at position `k` of the ring after the header. */
    method LinkBefore(tp: Node, cp: Node, ghost k: nat)
      requires IsRing(head, threads) && Linked([head] + threads + [head])
      requires k <= |threads| && cp == (threads + [head])[k] && tp != head && tp !in threads
      modifies this`threads, head, threads, tp
      ensures threads == old(threads)[..k] + [tp] + old(threads)[k..]
      ensures IsRing(head, threads) && Linked([head] + threads + [head])
    {
      hide IsRing;
      ghost var ring := [head] + threads + [head];
      Neighbours(ring, k);
      RingDistinct(head, threads, k);
      assert ring[k + 1] == cp;
      tp.next := cp;
      tp.prev := cp.prev;
      tp.prev.next := tp;
      cp.prev := tp;
      threads := threads[..k] + [tp] + threads[k..];
      ghost var ring' := [head] + threads + [head];
      assert ring' == ring[..k + 1] + [tp] + ring[k + 1..];
      RingAdd(head, old(threads), k, tp);
      forall i | 0 <= i < |ring'| - 1
        ensures ring'[i].next == ring'[i + 1] && ring'[i + 1].prev == ring'[i]
      {
        if i < k {
          assert ring'[i] == ring[i] && ring'[i + 1] == ring[i + 1];
        } else if i > k + 1 {
          assert ring'[i] == ring[i - 1] && ring'[i + 1] == ring[i];
        }
      }
    }

    /** The loop of `queue_prio_insert`: past every thread of at least the given priority. */
    method Scan(prio: nat) returns (cp: Node, ghost k: nat)
      requires Valid()
      ensures k == Q.Slot(st.queue, prio) && k <= |threads| && cp == (threads + [head])[k]
    {
      hide Q.Consistent;
      ghost var ring, at := [head] + threads + [head], 0;
      cp := head;
      while true
        invariant 0 <= at <= |threads| && cp == ring[at]
        invariant forall i | 0 <= i < at :: st.queue[i].prio >= prio
        decreases |threads| - at
      {
        Neighbours(ring, at);
        cp := cp.next;
        at := at + 1;
        if !(cp != head && cp.prio >= prio) {
          break;
        }
      }
      k := at - 1;
    }

    /** `queue_prio_insert`. */
    method PrioInsert(tp: Node) returns (ghost k: nat)
      requires Valid() && tp != head && tp !in st.present
      modifies this, head, threads, tp
      ensures Valid() && st == Q.Step(old(st), Q.PrioInsert(tp, tp.prio))
      ensures k <= |old(threads)| && threads == old(threads)[..k] + [tp] + old(threads)[k..]
      ensures forall i | 0 <= i < k :: old(threads)[i].prio >= tp.prio
      ensures k < |old(threads)| ==> old(threads)[k].prio < tp.prio
    {
      hide Q.Consistent, Linked, Mirrors;
      Q.StepKeepsConsistent(st, Q.PrioInsert(tp, tp.prio));
      Absent(tp);
      var cp;
      cp, k := Scan(tp.prio);
      SlotAmong(tp.prio);
      MirrorsAdd(st, threads, k, tp);
      LinkBefore(tp, cp, k);
      st := Q.Step(st, Q.PrioInsert(tp, tp.prio));
    }

    /** `queue_insert`: at the tail. */
    method Insert(tp: Node)
      requires Valid() && tp != head && tp !in st.present
      modifies this, head, threads, tp
      ensures Valid() && st == Q.Step(old(st), Q.Insert(tp, tp.prio))
      ensures threads == old(threads) + [tp]
    {
      hide Q.Consistent, Linked;
      Q.StepKeepsConsistent(st, Q.Insert(tp, tp.prio));
      Absent(tp);
      MirrorsAdd(st, threads, |threads|, tp);
      LinkBefore(tp, head, |threads|);
      st := Q.Step(st, Q.Insert(tp, tp.prio));
    }

    /** A thread that is not present is not linked. */
    lemma Absent(tp: Node)
      requires Valid() && tp !in st.present
      ensures tp !in threads
    {
    }

    /** The link changes of `queue_fifo_remove`. */
    method UnlinkFirst() returns (tp: Node)
      requires IsRing(head, threads) && Linked([head] + threads + [head])
      modifies this`threads, head, threads
      ensures IsRing(head, threads) && Linked([head] + threads + [head])
      ensures if old(threads) == [] then tp == head && threads == []
              else tp == old(threads)[0] && threads == old(threads)[1..]
    {
      ghost var ring := [head] + threads + [head];
      Neighbours(ring, 0);
      if threads != [] {
        Neighbours(ring, 1);
      }
      tp := head.next;
      head.next := tp.next;
      head.next.prev := head;
      if tp != head {
        threads := threads[1..];
        ghost var ring' := [head] + threads + [head];
        assert ring' == ring[..1] + ring[2..];
        forall i | 0 <= i < |ring'| - 1
          ensures ring'[i].next == ring'[i + 1] && ring'[i + 1].prev == ring'[i]
        {
          if i > 0 {
            assert ring'[i] == ring[i + 1] && ring'[i + 1] == ring[i + 2];
          }
        }
      }
    }

    /** `queue_fifo_remove`; on an empty queue it returns the header and changes nothing. */
    method FifoRemove() returns (tp: Node)
      requires Valid()
      modifies this, head, threads
      ensures Valid() && st == Q.Step(old(st), Q.FifoRemove)
      ensures tp == if old(st).queue == [] then head else old(st).queue[0].who
      ensures if old(threads) == [] then tp == head && threads == []
              else tp == old(threads)[0] && threads == old(threads)[1..] && tp !in st.present
    {
      hide Q.Consistent, Linked, Mirrors, IsRing, Q.Step, Q.Drop;
      Q.StepKeepsConsistent(st, Q.FifoRemove);
      Q.StepIsPresent(st, Q.FifoRemove);
      Q.RemovalDrops(st);
      MirrorsLength(st.queue, threads);
      if st.queue != [] {
        MirrorsDrop(st, threads, 0);
        assert threads[..0] + threads[1..] == threads[1..];
      }
      tp := UnlinkFirst();
      st := Q.Step(st, Q.FifoRemove);
    }

    /** The link changes of `queue_lifo_remove`. */
    method UnlinkLast() returns (tp: Node)
      requires IsRing(head, threads) && Linked([head] + threads + [head])
      modifies this`threads, head, threads
      ensures IsRing(head, threads) && Linked([head] + threads + [head])
      ensures var n := |old(threads)|;
              if n == 0 then tp == head && threads == []
              else tp == old(threads)[n - 1] && threads == old(threads)[..n - 1]
    {
      ghost var n, ring := |threads|, [head] + threads + [head];
      Neighbours(ring, n);
      if threads != [] {
        Neighbours(ring, n - 1);
      }
      tp := head.prev;
      head.prev := tp.prev;
      head.prev.next := head;
      if tp != head {
        threads := threads[..n - 1];
        ghost var ring' := [head] + threads + [head];
        assert ring' == ring[..n] + ring[n + 1..];
        forall i | 0 <= i < |ring'| - 1
          ensures ring'[i].next == ring'[i + 1] && ring'[i + 1].prev == ring'[i]
        {
          if i + 1 < n {
            assert ring'[i] == ring[i] && ring'[i + 1] == ring[i + 1];
          }
        }
      }
    }

    /** `queue_lifo_remove`; on an empty queue it returns the header and changes nothing. */
    method LifoRemove() returns (tp: Node)
      requires Valid()
      modifies this, head, threads
      ensures Valid() && st == Q.Step(old(st), Q.LifoRemove)
      ensures tp == if old(st).queue == [] then head else old(st).queue[|old(st).queue| - 1].who
      ensures var n := |old(threads)|;
              if n == 0 then tp == head && threads == []
              else tp == old(threads)[n - 1] && threads == old(threads)[..n - 1] && tp !in st.present
    {
      hide Q.Consistent, Linked, Mirrors, IsRing, Q.Step, Q.Drop;
      Q.StepKeepsConsistent(st, Q.LifoRemove);
      Q.StepIsPresent(st, Q.LifoRemove);
      Q.RemovalDrops(st);
      MirrorsLength(st.queue, threads);
      if st.queue != [] {
        MirrorsDrop(st, threads, |threads| - 1);
        assert threads[..|threads| - 1] + threads[|threads|..] == threads[..|threads| - 1];
      }
      tp := UnlinkLast();
      st := Q.Step(st, Q.LifoRemove);
    }

    /** The link changes of `queue_dequeue`. */
    method Unlink(tp: Node, ghost k: nat)
      requires IsRing(head, threads) && Linked([head] + threads + [head])
      requires k < |threads| && threads[k] == tp
      modifies this`threads, head, threads
      ensures threads == old(threads)[..k] + old(threads)[k + 1..]
      ensures IsRing(head, threads) && Linked([head] + threads + [head])
    {
      ghost var ring := [head] + threads + [head];
      Neighbours(ring, k);
      Neighbours(ring, k + 1);
      tp.prev.next := tp.next;
      tp.next.prev := tp.prev;
      threads := threads[..k] + threads[k + 1..];
      ghost var ring' := [head] + threads + [head];
      assert ring' == ring[..k + 1] + ring[k + 2..];
      forall i | 0 <= i < |ring'| - 1
        ensures ring'[i].next == ring'[i + 1] && ring'[i + 1].prev == ring'[i]
      {
        if i < k {
          assert ring'[i] == ring[i] && ring'[i + 1] == ring[i + 1];
        } else if i > k {
          assert ring'[i] == ring[i + 1] && ring'[i + 1] == ring[i + 2];
        }
      }
    }

    /** `queue_dequeue`: from anywhere. */
    method Dequeue(tp: Node) returns (ghost k: nat)
      requires Valid() && tp in st.present
      modifies this, head, threads
      ensures Valid() && st == Q.Step(old(st), Q.Dequeue(tp))
      ensures k < |old(threads)| && old(threads)[k] == tp && threads == old(threads)[..k] + old(threads)[k + 1..]
      ensures tp !in threads && tp !in st.present
    {
      k := Position(tp);
      hide Q.Consistent, Linked, Mirrors, IsRing, Q.Step, Q.Drop;
      Q.StepKeepsConsistent(st, Q.Dequeue(tp));
      Q.StepIsPresent(st, Q.Dequeue(tp));
      MirrorsDrop(st, threads, k);
      CutOut(head, threads, k);
      Unlink(tp, k);
      st := Q.Step(st, Q.Dequeue(tp));
    }

    /** The slot for a priority, read on the threads. */
    lemma SlotAmong(prio: nat)
      requires Valid()
      ensures var k := Q.Slot(st.queue, prio);
              && k <= |threads|
              && (forall i | 0 <= i < k :: threads[i].prio >= prio)
              && (k < |threads| ==> threads[k].prio < prio)
    {
    }

    /** Where a present thread is. */
    lemma Position(tp: Node) returns (k: nat)
      requires Valid() && tp in st.present
      ensures k == Q.Find(st.queue, tp) && k < |threads| == |st.queue| && threads[k] == tp
      ensures Q.Step(st, Q.Dequeue(tp)) == Q.Drop(st, k)
    {
      k := Q.Find(st.queue, tp);
    }

    /** `chSchIsRescRequiredI`, for a running thread of priority `current`. */
    predicate IsRescRequired(current: nat)
      requires Valid() && Q.Sorted(st.queue)
      reads this, head, threads, head.next
      ensures IsRescRequired(current) <==> exists i :: 0 <= i < |threads| && threads[i].prio > current
    {
      Q.HeadTellsHigher(st.queue, current);
      assert forall i | 0 <= i < |threads| :: threads[i].prio == st.queue[i].prio;
      FirstPrio() > current
    }

    /**
     `chSchCanYieldS`.  Thread priorities are at least 1, so the exception, the header answering for an
     empty queue, does not arise.
     */
    predicate CanYield(current: nat)
      requires Valid() && Q.Sorted(st.queue)
      reads this, head, threads, head.next
      ensures (CanYield(current) <==> exists i :: 0 <= i < |threads| && threads[i].prio >= current)
          <==> !(threads == [] && current == 0)
    {
      Q.HeadTellsEqualOrHigher(st.queue, current);
      assert forall i | 0 <= i < |threads| :: threads[i].prio == st.queue[i].prio;
      FirstPrio() >= current
    }
  }
}
