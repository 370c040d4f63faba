/**
 The threads around a byte queue: those on its waiting list, and those already taken off it, with the
 message they were given, that have not run yet.  All other threads are running.
 */
module WaitingThreads {
  import opened Common

  type Tid = nat

  datatype Waiters = Waiters(queue: seq<Tid>, ok: set<Tid>, timedOut: set<Tid>, reset: set<Tid>)

  const NOBODY := Waiters([], {}, {}, {})

  predicate Distinct(q: seq<Tid>) {
    forall i, j | 0 <= i < j < |q| :: q[i] != q[j]
  }

  /** Every thread is in one place only. */
  predicate WellFormed(w: Waiters) {
    && Distinct(w.queue)
    && (forall t | t in w.queue :: t !in w.ok && t !in w.timedOut && t !in w.reset)
    && w.ok !! w.timedOut && w.ok !! w.reset && w.timedOut !! w.reset
  }

  predicate Running(w: Waiters, t: Tid) {
    t !in w.queue && t !in w.ok && t !in w.timedOut && t !in w.reset
  }

  predicate Woken(w: Waiters, t: Tid) {
    t in w.ok || t in w.timedOut || t in w.reset
  }

  /** Somebody waits only while every unit there is has a woken thread coming for it. */
  predicate NoLostWakeup(w: Waiters, units: nat) {
    w.queue != [] ==> units <= |w.ok|
  }

  /** `osalThreadDequeueNextI(MSG_OK)`. */
  function WakeNext(w: Waiters): Waiters {
    if w.queue == [] then w else w.(queue := w.queue[1..], ok := w.ok + {w.queue[0]})
  }

  /** `osalThreadDequeueAllI(MSG_RESET)`. */
  function WakeAll(w: Waiters): Waiters {
    w.(queue := [], reset := w.reset + set t | t in w.queue)
  }

  function Enqueue(w: Waiters, t: Tid): Waiters {
    w.(queue := w.queue + [t])
  }

  function Without(q: seq<Tid>, t: Tid): seq<Tid> {
    if q == [] then [] else if q[0] == t then q[1..] else [q[0]] + Without(q[1..], t)
  }

  /** A waiting thread's timeout strikes. */
  function Expired(w: Waiters, t: Tid): Waiters {
    w.(queue := Without(w.queue, t), timedOut := w.timedOut + {t})
  }

  /** A woken thread gets the processor. */
  function Dispatch(w: Waiters, t: Tid): Waiters {
    w.(ok := w.ok - {t}, timedOut := w.timedOut - {t}, reset := w.reset - {t})
  }

  function Message(w: Waiters, t: Tid): Msg
    requires Woken(w, t)
  {
    if t in w.ok then MsgOk else if t in w.timedOut then MsgTimeout else MsgReset
  }

  lemma {:induction false} WithoutMembers(q: seq<Tid>, t: Tid)
    requires Distinct(q)
    ensures forall u :: u in Without(q, t) <==> u in q && u != t
    ensures Distinct(Without(q, t))
  {
    if q != [] {
      var rest := Without(q[1..], t);
      assert Distinct(q[1..]);
      WithoutMembers(q[1..], t);
      if q[0] == t {
        assert forall u :: u in q <==> u == t || u in q[1..];
      } else {
        assert forall u :: u in q <==> u == q[0] || u in q[1..];
        assert forall u :: u in [q[0]] + rest <==> u == q[0] || u in rest;
        assert q[0] !in q[1..];
      }
    }
  }

  /** One more unit together with one more woken thread, if anybody waits, loses no wake-up. */
  lemma WakeNextKeeps(w: Waiters, units: nat)
    requires WellFormed(w) && NoLostWakeup(w, units)
    ensures WellFormed(WakeNext(w)) && NoLostWakeup(WakeNext(w), units + 1)
  {
    if w.queue != [] {
      assert w.queue[0] in w.queue && w.queue[0] !in w.ok;
      assert |w.ok + {w.queue[0]}| == |w.ok| + 1;
      assert forall t | t in w.queue[1..] :: t in w.queue;
    }
  }

  lemma WakeAllKeeps(w: Waiters, units: nat)
    requires WellFormed(w)
    ensures WellFormed(WakeAll(w)) && NoLostWakeup(WakeAll(w), units)
  {
  }

  /** Only a thread that finds nothing goes to wait. */
  lemma EnqueueKeeps(w: Waiters, t: Tid)
    requires WellFormed(w) && Running(w, t)
    ensures WellFormed(Enqueue(w, t)) && NoLostWakeup(Enqueue(w, t), 0)
  {
  }

  lemma ExpiredKeeps(w: Waiters, t: Tid, units: nat)
    requires WellFormed(w) && t in w.queue && NoLostWakeup(w, units)
    ensures WellFormed(Expired(w, t)) && NoLostWakeup(Expired(w, t), units)
  {
    WithoutMembers(w.queue, t);
  }

  /** A woken thread that runs takes at most one wake-up out of the count. */
  lemma DispatchKeeps(w: Waiters, t: Tid)
    requires WellFormed(w) && Woken(w, t)
    ensures WellFormed(Dispatch(w, t)) && Running(Dispatch(w, t), t)
    ensures Dispatch(w, t).queue == w.queue
    ensures |Dispatch(w, t).ok| == if t in w.ok then |w.ok| - 1 else |w.ok|
  {
    if t !in w.ok {
      assert w.ok - {t} == w.ok;
    }
  }
}
