/**
 A thread queue seen as a list.  Every thread is recorded with its priority and the number of threads
 that came before it, so that the order the queue must keep can be stated.
 */
module PrioQueue {
  import opened Common

  datatype Entry<T> = Entry(who: T, prio: nat, stamp: nat)

  datatype State<T> = State(
    queue: seq<Entry<T>>,
    arrivals: nat,           // how many threads were ever inserted
    present: set<T>)         // inserted and not removed since

  datatype Event<T> =
    | PrioInsert(who: T, prio: nat)
    | Insert(who: T, prio: nat)
    | FifoRemove
    | LifoRemove
    | Dequeue(who: T)

  /** How many leading entries have at least the given priority. */
  function Slot<T>(q: seq<Entry<T>>, prio: nat): (k: nat)
    ensures k <= |q|
    ensures forall i | 0 <= i < k :: q[i].prio >= prio
    ensures k < |q| ==> q[k].prio < prio
  {
    if q == [] || q[0].prio < prio then 0 else 1 + Slot(q[1..], prio)
  }

  function InsertAt<T>(q: seq<Entry<T>>, k: nat, e: Entry<T>): seq<Entry<T>>
    requires k <= |q|
  {
    q[..k] + [e] + q[k..]
  }

  function RemoveAt<T>(q: seq<Entry<T>>, k: nat): seq<Entry<T>>
    requires k < |q|
  {
    q[..k] + q[k + 1..]
  }

  /** The position of a thread; the length if it is not there. */
  function Find<T(==)>(q: seq<Entry<T>>, t: T): (k: nat)
    ensures k <= |q|
    ensures k < |q| ==> q[k].who == t
    ensures forall i | 0 <= i < k :: q[i].who != t
  {
    if q == [] || q[0].who == t then 0 else 1 + Find(q[1..], t)
  }

  predicate Enabled<T(==)>(s: State<T>, e: Event<T>) {
    match e
    case PrioInsert(t, _) => t !in s.present
    case Insert(t, _) => t !in s.present
    case Dequeue(t) => t in s.present
    case _ => true
  }

  function Drop<T(==)>(s: State<T>, k: nat): State<T>
    requires k < |s.queue|
  {
    s.(queue := RemoveAt(s.queue, k), present := s.present - {s.queue[k].who})
  }

  function Add<T(==)>(s: State<T>, k: nat, t: T, prio: nat): State<T>
    requires k <= |s.queue|
  {
    State(InsertAt(s.queue, k, Entry(t, prio, s.arrivals)), s.arrivals + 1, s.present + {t})
  }

  function Step<T(==)>(s: State<T>, e: Event<T>): State<T> {
    match e
    case PrioInsert(t, prio) => Add(s, Slot(s.queue, prio), t, prio)
    case Insert(t, prio) => Add(s, |s.queue|, t, prio)
    case FifoRemove => if s.queue == [] then s else Drop(s, 0)
    case LifoRemove => if s.queue == [] then s else Drop(s, |s.queue| - 1)
    case Dequeue(t) => var k := Find(s.queue, t); if k < |s.queue| then Drop(s, k) else s
  }

  predicate Distinct<T(==)>(q: seq<Entry<T>>) {
    forall i, j | 0 <= i < j < |q| :: q[i].who != q[j].who
  }

  predicate Queued<T(==)>(q: seq<Entry<T>>, t: T) {
    exists i :: 0 <= i < |q| && q[i].who == t
  }

  /** Exactly the present threads are queued, each once. */
  ghost predicate Consistent<T>(s: State<T>) {
    && Distinct(s.queue)
    && (forall i | 0 <= i < |s.queue| :: s.queue[i].who in s.present && s.queue[i].stamp < s.arrivals)
    && (forall t | t in s.present :: Queued(s.queue, t))
  }

  /** Higher priority first; among equals, first come first. */
  predicate Before<T>(a: Entry<T>, b: Entry<T>) {
    a.prio > b.prio || (a.prio == b.prio && a.stamp < b.stamp)
  }

  predicate Sorted<T>(q: seq<Entry<T>>) {
    forall i, j | 0 <= i < j < |q| :: Before(q[i], q[j])
  }

  /** In order of arrival, whatever the priorities. */
  predicate InArrivalOrder<T>(q: seq<Entry<T>>) {
    forall i, j | 0 <= i < j < |q| :: q[i].stamp < q[j].stamp
  }

  predicate Legal<T(==)>(s: State<T>, es: seq<Event<T>>)
    decreases |es|
  {
    es == [] || (Enabled(s, es[0]) && Legal(Step(s, es[0]), es[1..]))
  }

  function Run<T(==)>(s: State<T>, es: seq<Event<T>>): State<T>
    decreases |es|
  {
    if es == [] then s else Run(Step(s, es[0]), es[1..])
  }

  lemma Inserted<T>(q: seq<Entry<T>>, k: nat, e: Entry<T>, q': seq<Entry<T>>)
    requires k <= |q| && q' == InsertAt(q, k, e)
    ensures |q'| == |q| + 1
    ensures q'[k] == e
    ensures forall i | 0 <= i < k :: q'[i] == q[i]
    ensures forall i | k < i < |q'| :: q'[i] == q[i - 1]
  {
  }

  lemma Removed<T>(q: seq<Entry<T>>, k: nat, q': seq<Entry<T>>)
    requires k < |q| && q' == RemoveAt(q, k)
    ensures |q'| == |q| - 1
    ensures forall i | 0 <= i < k :: q'[i] == q[i]
    ensures forall i | k <= i < |q'| :: q'[i] == q[i + 1]
  {
  }

  lemma AddKeepsQueued<T>(q: seq<Entry<T>>, k: nat, e: Entry<T>, u: T)
    requires k <= |q| && (u == e.who || Queued(q, u))
    ensures Queued(InsertAt(q, k, e), u)
  {
    hide InsertAt;
    var q' := InsertAt(q, k, e);
    Inserted(q, k, e, q');
    if u == e.who {
      assert q'[k].who == u;
    } else {
      var i :| 0 <= i < |q| && q[i].who == u;
      assert q'[if i < k then i else i + 1].who == u;
    }
  }

  lemma AddKeepsDistinct<T>(q: seq<Entry<T>>, k: nat, e: Entry<T>)
    requires Distinct(q) && k <= |q| && forall i | 0 <= i < |q| :: q[i].who != e.who
    ensures Distinct(InsertAt(q, k, e))
  {
    hide InsertAt;
    Inserted(q, k, e, InsertAt(q, k, e));
  }

  lemma AddKeepsConsistent<T>(s: State<T>, k: nat, t: T, prio: nat)
    requires Consistent(s) && k <= |s.queue| && t !in s.present
    ensures Consistent(Add(s, k, t, prio))
  {
    hide InsertAt, Distinct, Queued;
    var s', e := Add(s, k, t, prio), Entry(t, prio, s.arrivals);
    Inserted(s.queue, k, e, s'.queue);
    AddKeepsDistinct(s.queue, k, e);
    forall u | u in s'.present
      ensures Queued(s'.queue, u)
    {
      AddKeepsQueued(s.queue, k, e, u);
    }
  }

  lemma DropKeepsQueued<T>(q: seq<Entry<T>>, k: nat, u: T)
    requires k < |q| && Queued(q, u) && u != q[k].who
    ensures Queued(RemoveAt(q, k), u)
  {
    hide RemoveAt;
    var q' := RemoveAt(q, k);
    Removed(q, k, q');
    var i :| 0 <= i < |q| && q[i].who == u;
    assert q'[if i < k then i else i - 1].who == u;
  }

  lemma DropKeepsDistinct<T>(q: seq<Entry<T>>, k: nat)
    requires Distinct(q) && k < |q|
    ensures Distinct(RemoveAt(q, k))
    ensures forall i | 0 <= i < |RemoveAt(q, k)| :: RemoveAt(q, k)[i].who != q[k].who && RemoveAt(q, k)[i] in q
  {
    hide RemoveAt;
    Removed(q, k, RemoveAt(q, k));
  }

  lemma DropKeepsConsistent<T>(s: State<T>, k: nat)
    requires Consistent(s) && k < |s.queue|
    ensures Consistent(Drop(s, k))
  {
    hide RemoveAt, Distinct, Queued;
    var s' := Drop(s, k);
    DropKeepsDistinct(s.queue, k);
    forall u | u in s'.present
      ensures Queued(s'.queue, u)
    {
      DropKeepsQueued(s.queue, k, u);
    }
  }

  lemma StepKeepsConsistent<T>(s: State<T>, e: Event<T>)
    requires Consistent(s) && Enabled(s, e)
    ensures Consistent(Step(s, e))
  {
    match e
    case PrioInsert(t, prio) => AddKeepsConsistent(s, Slot(s.queue, prio), t, prio);
    case Insert(t, prio) => AddKeepsConsistent(s, |s.queue|, t, prio);
    case FifoRemove => if s.queue != [] { DropKeepsConsistent(s, 0); }
    case LifoRemove => if s.queue != [] { DropKeepsConsistent(s, |s.queue| - 1); }
    case Dequeue(t) => if Find(s.queue, t) < |s.queue| { DropKeepsConsistent(s, Find(s.queue, t)); }
  }

  /** The slot found by scanning from the front is where the newcomer belongs. */
  lemma PrioInsertKeepsSorted<T>(s: State<T>, t: T, prio: nat)
    requires Consistent(s) && Sorted(s.queue)
    ensures Sorted(Step(s, PrioInsert(t, prio)).queue)
  {
    hide InsertAt;
    var q, k := s.queue, Slot(s.queue, prio);
    var q' := InsertAt(q, k, Entry(t, prio, s.arrivals));
    Inserted(q, k, Entry(t, prio, s.arrivals), q');
    forall i, j | 0 <= i < j < |q'|
      ensures Before(q'[i], q'[j])
    {
      if i == k {
        assert Before(q[k], q[j - 1]) || j - 1 == k;
      }
    }
  }

  lemma InsertKeepsArrivalOrder<T>(s: State<T>, t: T, prio: nat)
    requires Consistent(s) && InArrivalOrder(s.queue)
    ensures InArrivalOrder(Step(s, Insert(t, prio)).queue)
  {
    hide InsertAt;
    Inserted(s.queue, |s.queue|, Entry(t, prio, s.arrivals), Step(s, Insert(t, prio)).queue);
  }

  lemma RemoveKeepsOrder<T>(q: seq<Entry<T>>, k: nat)
    requires k < |q|
    ensures Sorted(q) ==> Sorted(RemoveAt(q, k))
    ensures InArrivalOrder(q) ==> InArrivalOrder(RemoveAt(q, k))
  {
    hide RemoveAt;
    var q' := RemoveAt(q, k);
    Removed(q, k, q');
  }

  /** A run's inserts are all by priority, or all at the tail. */
  ghost predicate PrioOnly<T>(es: seq<Event<T>>) {
    forall e | e in es :: !e.Insert?
  }

  ghost predicate TailOnly<T>(es: seq<Event<T>>) {
    forall e | e in es :: !e.PrioInsert?
  }

  lemma StepKeepsOrder<T>(s: State<T>, e: Event<T>)
    requires Consistent(s) && Enabled(s, e)
    ensures Sorted(s.queue) && !e.Insert? ==> Sorted(Step(s, e).queue)
    ensures InArrivalOrder(s.queue) && !e.PrioInsert? ==> InArrivalOrder(Step(s, e).queue)
  {
    hide Sorted, RemoveAt, InArrivalOrder;
    match e
    case PrioInsert(t, prio) => if Sorted(s.queue) { PrioInsertKeepsSorted(s, t, prio); }
    case Insert(t, prio) => if InArrivalOrder(s.queue) { InsertKeepsArrivalOrder(s, t, prio); }
    case FifoRemove => if s.queue != [] { RemoveKeepsOrder(s.queue, 0); }
    case LifoRemove => if s.queue != [] { RemoveKeepsOrder(s.queue, |s.queue| - 1); }
    case Dequeue(t) => if Find(s.queue, t) < |s.queue| { RemoveKeepsOrder(s.queue, Find(s.queue, t)); }
  }

  lemma {:induction false} RunKeeps<T>(s: State<T>, es: seq<Event<T>>)
    requires Consistent(s) && Legal(s, es)
    ensures Consistent(Run(s, es))
    ensures Sorted(s.queue) && PrioOnly(es) ==> Sorted(Run(s, es).queue)
    ensures InArrivalOrder(s.queue) && TailOnly(es) ==> InArrivalOrder(Run(s, es).queue)
    decreases |es|
  {
    if es != [] {
      assert es[0] in es && forall e | e in es[1..] :: e in es;
      StepKeepsConsistent(s, es[0]);
      StepKeepsOrder(s, es[0]);
      RunKeeps(Step(s, es[0]), es[1..]);
    }
  }

  /** The thread an event takes off the queue: the first, the last, or the one it names. */
  function Leaves<T(==)>(s: State<T>, e: Event<T>): set<T> {
    match e
    case FifoRemove => if s.queue == [] then {} else {s.queue[0].who}
    case LifoRemove => if s.queue == [] then {} else {s.queue[|s.queue| - 1].who}
    case Dequeue(t) => {t}
    case _ => {}
  }

  function Comes<T(==)>(e: Event<T>): set<T> {
    match e
    case PrioInsert(t, _) => {t}
    case Insert(t, _) => {t}
    case _ => {}
  }

  /** Of the threads `before`, and those inserted in a run, the ones not taken off since. */
  function Staying<T(==)>(s: State<T>, es: seq<Event<T>>, before: set<T>): set<T>
    decreases |es|
  {
    if es == [] then before else Staying(Step(s, es[0]), es[1..], before - Leaves(s, es[0]) + Comes(es[0]))
  }

  lemma StepIsPresent<T>(s: State<T>, e: Event<T>)
    requires Consistent(s) && Enabled(s, e)
    ensures Step(s, e).present == s.present - Leaves(s, e) + Comes(e)
  {
    if e.Dequeue? {
      assert Queued(s.queue, e.who);
      FindQueued(s.queue, e.who);
    }
  }

  /** Which place a removal clears. */
  lemma RemovalDrops<T>(s: State<T>)
    ensures s.queue == [] ==> Step(s, FifoRemove) == Step(s, LifoRemove) == s
    ensures s.queue != [] ==>
              Step(s, FifoRemove) == Drop(s, 0) && Step(s, LifoRemove) == Drop(s, |s.queue| - 1)
  {
  }

  lemma {:induction false} FindQueued<T>(q: seq<Entry<T>>, t: T)
    requires Queued(q, t)
    ensures Find(q, t) < |q| && q[Find(q, t)].who == t
  {
  }

  /** The threads present after a run are those inserted and neither returned nor named by a removal since. */
  lemma {:induction false} RunIsPresent<T>(s: State<T>, es: seq<Event<T>>)
    requires Consistent(s) && Legal(s, es)
    ensures Run(s, es).present == Staying(s, es, s.present)
    decreases |es|
  {
    hide Consistent, Enabled, Step, Leaves, Comes;
    if es != [] {
      StepKeepsConsistent(s, es[0]);
      StepIsPresent(s, es[0]);
      RunIsPresent(Step(s, es[0]), es[1..]);
    }
  }

  function Empty<T>(): State<T> {
    State([], 0, {})
  }

  /**
   Every run of priority inserts and removals from an empty queue keeps it sorted by priority, first
   come first served among equals, and holding exactly the threads inserted and not removed.
   */
  lemma ReadyQueueOrder<T>(es: seq<Event<T>>)
    requires Legal(Empty(), es) && PrioOnly(es)
    ensures Sorted(Run(Empty(), es).queue) && Consistent(Run(Empty(), es))
    ensures Run(Empty(), es).present == Staying(Empty(), es, {})
  {
    RunIsPresent(Empty<T>(), es);
    RunKeeps(Empty<T>(), es);
  }

  /** A queue filled at the tail only stays in order of arrival. */
  lemma TailQueueOrder<T>(es: seq<Event<T>>)
    requires Legal(Empty(), es) && TailOnly(es)
    ensures InArrivalOrder(Run(Empty(), es).queue) && Consistent(Run(Empty(), es))
    ensures Run(Empty(), es).present == Staying(Empty(), es, {})
  {
    RunIsPresent(Empty<T>(), es);
    RunKeeps(Empty<T>(), es);
  }

  /** The order leaves no choice: two sorted queues of the same entries are the same queue. */
  lemma {:induction false} SortedIsUnique<T>(a: seq<Entry<T>>, b: seq<Entry<T>>)
    requires Sorted(a) && Sorted(b) && multiset(a) == multiset(b)
    ensures a == b
  {
    if a == [] {
      assert |multiset(a)| == |multiset(b)| == 0;
    } else {
      SameFirst(a, b);
      FirstAndRest(a);
      FirstAndRest(b);
      SameWithout(multiset(a[1..]), multiset(b[1..]), multiset{a[0]});
      SortedRest(a);
      SortedRest(b);
      hide Sorted;
      SortedIsUnique(a[1..], b[1..]);
    }
  }

  lemma FirstAndRest<T>(q: seq<T>)
    requires q != []
    ensures q == [q[0]] + q[1..] && multiset(q) == multiset(q[1..]) + multiset{q[0]}
  {
    assert q == [q[0]] + q[1..];
  }

  lemma SortedRest<T>(q: seq<Entry<T>>)
    requires Sorted(q) && q != []
    ensures Sorted(q[1..])
  {
  }

  lemma SameFirst<T>(a: seq<Entry<T>>, b: seq<Entry<T>>)
    requires Sorted(a) && Sorted(b) && multiset(a) == multiset(b) && a != []
    ensures b != [] && a[0] == b[0]
  {
    assert a[0] in multiset(b);
    assert b[0] in multiset(a);
    var i :| 0 <= i < |b| && b[i] == a[0];
    var j :| 0 <= j < |a| && a[j] == b[0];
    if i > 0 && j > 0 {
      assert false;
    }
  }

  /** `firstprio`: the priority of the first entry, or of the list header, which is zero. */
  function FirstPrio<T>(q: seq<Entry<T>>): nat {
    if q == [] then 0 else q[0].prio
  }

  /** `chSchIsRescRequiredI` looks at the head only and answers for the whole queue. */
  lemma HeadTellsHigher<T>(q: seq<Entry<T>>, current: nat)
    requires Sorted(q)
    ensures FirstPrio(q) > current <==> exists i :: 0 <= i < |q| && q[i].prio > current
  {
    if i :| 0 <= i < |q| && q[i].prio > current {
      assert i > 0 ==> Before(q[0], q[i]);
    }
  }

  /**
   `chSchCanYieldS` likewise, except for a thread of priority zero beside an empty queue: the header's
   own priority answers then.
   */
  lemma HeadTellsEqualOrHigher<T>(q: seq<Entry<T>>, current: nat)
    requires Sorted(q)
    ensures (FirstPrio(q) >= current <==> exists i :: 0 <= i < |q| && q[i].prio >= current)
        <==> !(q == [] && current == 0)
  {
    if q != [] {
      if i :| 0 <= i < |q| && q[i].prio >= current {
        assert i > 0 ==> Before(q[0], q[i]);
      }
      assert FirstPrio(q) >= current ==> q[0].prio >= current;
    }
  }
}
