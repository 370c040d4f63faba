/**
 The byte queues as a protocol between one interrupt side and any number of threads.

 An input queue is filled by the interrupt side and emptied by threads, an output queue the other way
 round.  The queue's counter counts what the threads can take: bytes, or free cells.
 */
module ByteProtocol {
  import opened Common
  import opened WaitingThreads

  datatype Kind = Input | Output

  datatype State = State(
    kind: Kind,
    size: nat,
    bytes: seq<u8>,       // in the queue
    w: Waiters,
    written: seq<u8>,     // all bytes put in, and all bytes taken out, since the last reset
    read: seq<u8>)

  datatype Event =
    | Lower(b: u8)             // interrupt side: put `b` (input) or get a byte (output)
    | Reset
    | Expire(t: Tid)           // the timeout of a waiting thread
    | Enter(t: Tid, b: u8)     // a running thread tries to get a byte (input) or put `b` (output)
    | Resume(t: Tid, b: u8)    // a woken thread runs: it gives up, or tries again

  function Init(kind: Kind, size: nat): State {
    State(kind, size, [], NOBODY, [], [])
  }

  /** The queue's counter. */
  function Units(s: State): int {
    if s.kind == Input then |s.bytes| else s.size - |s.bytes|
  }

  function Put(s: State, b: u8): State {
    s.(bytes := s.bytes + [b], written := s.written + [b])
  }

  function Get(s: State): State
    requires s.bytes != []
  {
    s.(bytes := s.bytes[1..], read := s.read + [s.bytes[0]])
  }

  /** The transfer a thread makes when the counter is not zero. */
  function Upper(s: State, b: u8): State
    requires 0 < Units(s) && |s.bytes| <= s.size
  {
    if s.kind == Input then Get(s) else Put(s, b)
  }

  /** A thread's section of code from taking the lock to releasing it or going to sleep. */
  function Try(s: State, t: Tid, b: u8): State
    requires 0 <= Units(s) && |s.bytes| <= s.size
  {
    if Units(s) == 0 then s.(w := Enqueue(s.w, t)) else Upper(s, b)
  }

  predicate Inv(s: State) {
    && |s.bytes| <= s.size
    && s.read + s.bytes == s.written
    && WellFormed(s.w)
    && NoLostWakeup(s.w, Units(s))
  }

  predicate Enabled(s: State, e: Event) {
    |s.bytes| <= s.size &&
    match e
    case Lower(_) => true
    case Reset => true
    case Expire(t) => t in s.w.queue
    case Enter(t, _) => Running(s.w, t)
    case Resume(t, _) => Woken(s.w, t)
  }

  function Step(s: State, e: Event): State
    requires Enabled(s, e)
  {
    match e
    case Lower(b) =>
      if Units(s) == s.size then s
      else (if s.kind == Input then Put(s, b) else Get(s)).(w := WakeNext(s.w))
    case Reset => Init(s.kind, s.size).(w := WakeAll(s.w))
    case Expire(t) => s.(w := Expired(s.w, t))
    case Enter(t, b) => Try(s, t, b)
    case Resume(t, b) =>
      var s' := s.(w := Dispatch(s.w, t));
      if Message(s.w, t) == MsgOk then Try(s', t, b) else s'
  }

  lemma GetKeepsStream(s: State)
    requires s.read + s.bytes == s.written && s.bytes != []
    ensures Get(s).read + Get(s).bytes == Get(s).written
  {
    assert s.read + s.bytes == s.read + [s.bytes[0]] + s.bytes[1..];
  }

  lemma PutKeepsStream(s: State, b: u8)
    requires s.read + s.bytes == s.written
    ensures Put(s, b).read + Put(s, b).bytes == Put(s, b).written
  {
    assert s.read + (s.bytes + [b]) == s.read + s.bytes + [b];
  }

  /** A thread that tries uses up no more than one wake-up's worth. */
  lemma TryKeepsInv(s: State, t: Tid, b: u8)
    requires |s.bytes| <= s.size && s.read + s.bytes == s.written
    requires WellFormed(s.w) && Running(s.w, t)
    requires s.w.queue != [] ==> Units(s) - 1 <= |s.w.ok|
    ensures Inv(Try(s, t, b))
  {
    if Units(s) == 0 {
      EnqueueKeeps(s.w, t);
    } else if s.kind == Input {
      GetKeepsStream(s);
    } else {
      PutKeepsStream(s, b);
    }
  }

  /** Every step keeps the stream, the bounds, and loses no wake-up. */
  lemma StepKeepsInv(s: State, e: Event)
    requires Inv(s) && Enabled(s, e)
    ensures Inv(Step(s, e)) && Step(s, e).kind == s.kind && Step(s, e).size == s.size
  {
    match e
    case Lower(b) =>
      if Units(s) != s.size {
        WakeNextKeeps(s.w, Units(s));
        if s.kind == Input {
          PutKeepsStream(s, b);
        } else {
          GetKeepsStream(s);
        }
      }
    case Reset => WakeAllKeeps(s.w, Units(Init(s.kind, s.size)));
    case Expire(t) => ExpiredKeeps(s.w, t, Units(s));
    case Enter(t, b) => TryKeepsInv(s, t, b);
    case Resume(t, b) =>
      DispatchKeeps(s.w, t);
      if Message(s.w, t) == MsgOk {
        TryKeepsInv(s.(w := Dispatch(s.w, t)), t, b);
      }
  }

  predicate Legal(s: State, es: seq<Event>)
    decreases |es|
  {
    es == [] || (Enabled(s, es[0]) && Legal(Step(s, es[0]), es[1..]))
  }

  function Run(s: State, es: seq<Event>): State
    requires Legal(s, es)
    decreases |es|
  {
    if es == [] then s else Run(Step(s, es[0]), es[1..])
  }

  lemma {:induction false} RunKeepsInv(s: State, es: seq<Event>)
    requires Inv(s) && Legal(s, es)
    ensures Inv(Run(s, es)) && Run(s, es).kind == s.kind && Run(s, es).size == s.size
    decreases |es|
  {
    if es != [] {
      StepKeepsInv(s, es[0]);
      RunKeepsInv(Step(s, es[0]), es[1..]);
    }
  }

  /**
   No lost wake-up, and one byte stream, in every reachable state of either queue, with any number of
   threads, timeouts and resets: while a thread waits, the counter is at most the number of threads
   woken with OK that have not run yet; what was read, then what is queued, is what was written.
   */
  lemma NoLostWakeupEver(kind: Kind, size: nat, es: seq<Event>)
    requires Legal(Init(kind, size), es)
    ensures var s := Run(Init(kind, size), es);
            && (s.w.queue != [] ==> Units(s) <= |s.w.ok|)
            && s.read + s.bytes == s.written && |s.bytes| <= size
  {
    RunKeepsInv(Init(kind, size), es);
  }

  /** Once every woken thread has run, nobody sleeps beside something to take. */
  lemma NobodySleepsBesideWork(kind: Kind, size: nat, es: seq<Event>, t: Tid)
    requires Legal(Init(kind, size), es)
    requires var s := Run(Init(kind, size), es); s.w.ok == {} && t in s.w.queue
    ensures var s := Run(Init(kind, size), es);
            if kind == Input then s.bytes == [] else |s.bytes| == size
  {
    RunKeepsInv(Init(kind, size), es);
  }

  /** The byte an event puts in the queue, and the byte it takes out, if it moves one. */
  function In(s: State, e: Event): seq<u8>
    requires Enabled(s, e)
  {
    if s.kind == Input then (if e.Lower? && |s.bytes| < s.size then [e.b] else [])
    else if Transfers(s, e) then [e.b] else []
  }

  function Out(s: State, e: Event): seq<u8>
    requires Enabled(s, e)
  {
    if s.bytes == [] then []
    else if s.kind == Output then (if e.Lower? then [s.bytes[0]] else [])
    else if Transfers(s, e) then [s.bytes[0]] else []
  }

  /** A thread's attempt that finds something to take. */
  predicate Transfers(s: State, e: Event)
    requires Enabled(s, e)
  {
    Units(s) > 0 && (e.Enter? || (e.Resume? && Message(s.w, e.t) == MsgOk))
  }

  /** All the bytes put in during a run since the last reset, after `before`; and all the bytes taken out. */
  function AllIn(s: State, es: seq<Event>, before: seq<u8>): seq<u8>
    requires Legal(s, es)
    decreases |es|
  {
    if es == [] then before else AllIn(Step(s, es[0]), es[1..], if es[0].Reset? then [] else before + In(s, es[0]))
  }

  function AllOut(s: State, es: seq<Event>, before: seq<u8>): seq<u8>
    requires Legal(s, es)
    decreases |es|
  {
    if es == [] then before else AllOut(Step(s, es[0]), es[1..], if es[0].Reset? then [] else before + Out(s, es[0]))
  }

  /** `i` goes in behind the bytes, `o` comes out in front. */
  predicate Moves(s: State, t: State, i: seq<u8>, o: seq<u8>) {
    && t.written == s.written + i && t.read == s.read + o
    && s.bytes + i == o + t.bytes
  }

  /** The same bytes and histories, whatever the threads. */
  predicate SameBytes(s: State, t: State) {
    t.kind == s.kind && t.size == s.size && t.bytes == s.bytes && t.written == s.written && t.read == s.read
  }

  lemma NothingMoves(s: State, t: State)
    requires SameBytes(s, t)
    ensures Moves(s, t, [], [])
  {
  }

  lemma PutMoves(s: State, s': State, b: u8, t: State)
    requires SameBytes(s, s') && SameBytes(Put(s', b), t)
    ensures Moves(s, t, [b], [])
  {
  }

  lemma GetMoves(s: State, s': State, t: State)
    requires SameBytes(s, s') && s.bytes != [] && SameBytes(Get(s'), t)
    ensures Moves(s, t, [], [s.bytes[0]])
  {
    assert s.bytes == [s.bytes[0]] + s.bytes[1..];
  }

  lemma LowerMoves(s: State, b: u8)
    requires Inv(s)
    ensures Moves(s, Step(s, Lower(b)), In(s, Lower(b)), Out(s, Lower(b)))
  {
    hide Moves;
    var t := Step(s, Lower(b));
    if Units(s) == s.size {
      NothingMoves(s, t);
    } else if s.kind == Input {
      PutMoves(s, s, b, t);
    } else {
      GetMoves(s, s, t);
    }
  }

  lemma TryMoves(s: State, s': State, e: Event, t: Tid, b: u8)
    requires Inv(s) && SameBytes(s, s') && Enabled(s, e) && (e == Enter(t, b) || e == Resume(t, b))
    requires Units(s) > 0 ==> Transfers(s, e)
    ensures Moves(s, Try(s', t, b), In(s, e), Out(s, e))
  {
    hide Moves;
    var u := Try(s', t, b);
    if Units(s) == 0 {
      NothingMoves(s, u);
    } else if s.kind == Input {
      GetMoves(s, s', u);
    } else {
      PutMoves(s, s', b, u);
    }
  }

  /** What a step does to the bytes: one goes in behind the others, or the oldest comes out, or neither. */
  lemma StepMoves(s: State, e: Event)
    requires Inv(s) && Enabled(s, e)
    ensures e.Reset? ==> Step(s, e).bytes == Step(s, e).written == Step(s, e).read == []
    ensures !e.Reset? ==> Moves(s, Step(s, e), In(s, e), Out(s, e))
    ensures Out(s, e) == [] || (s.bytes != [] && Out(s, e) == [s.bytes[0]])
  {
    hide Moves, Try;
    match e
    case Lower(b) => LowerMoves(s, b);
    case Reset =>
    case Expire(t) => NothingMoves(s, Step(s, e));
    case Enter(t, b) => TryMoves(s, s, e, t, b);
    case Resume(t, b) =>
      if Message(s.w, t) == MsgOk {
        TryMoves(s, s.(w := Dispatch(s.w, t)), e, t, b);
      } else {
        NothingMoves(s, Step(s, e));
      }
  }

  /** The two histories are computed from the events: they are what went in and what came out. */
  lemma {:induction false} RunMoves(s: State, es: seq<Event>)
    requires Inv(s) && Legal(s, es)
    ensures Run(s, es).written == AllIn(s, es, s.written)
    ensures Run(s, es).read == AllOut(s, es, s.read)
    decreases |es|
  {
    hide Inv, Enabled, Step, In, Out;
    if es != [] {
      StepKeepsInv(s, es[0]);
      StepMoves(s, es[0]);
      RunMoves(Step(s, es[0]), es[1..]);
    }
  }

  /**
   Either queue is one byte stream: after any run from an empty queue, what came out, then what is queued, is
   what went in, counted from the events since the last reset.
   */
  lemma OneByteStream(kind: Kind, size: nat, es: seq<Event>)
    requires Legal(Init(kind, size), es)
    ensures AllOut(Init(kind, size), es, []) + Run(Init(kind, size), es).bytes == AllIn(Init(kind, size), es, [])
  {
    RunKeepsInv(Init(kind, size), es);
    RunMoves(Init(kind, size), es);
  }

  /** Thread `t` came to the waiting list before `u`. */
  predicate Ahead(q: seq<Tid>, t: Tid, u: Tid) {
    exists i, j :: 0 <= i < j < |q| && q[i] == t && q[j] == u
  }

  /** `t` keeps waiting through a run. */
  predicate KeepsWaiting(s: State, es: seq<Event>, t: Tid)
    requires Legal(s, es)
    decreases |es|
  {
    t in s.w.queue && (es == [] || KeepsWaiting(Step(s, es[0]), es[1..], t))
  }

  /** `u` has not got ahead of the waiting thread `t`. */
  predicate Behind(s: State, t: Tid, u: Tid) {
    u !in s.w.ok && (u in s.w.queue ==> Ahead(s.w.queue, t, u))
  }

  lemma NewcomerIsBehind(q: seq<Tid>, t: Tid, u: Tid)
    requires t in q
    ensures Ahead(q + [u], t, u)
    ensures forall v :: Ahead(q, t, v) ==> Ahead(q + [u], t, v)
  {
    var q' := q + [u];
    var i :| 0 <= i < |q| && q[i] == t;
    assert q'[i] == t && q'[|q|] == u;
    forall v | Ahead(q, t, v)
      ensures Ahead(q', t, v)
    {
      var a, b :| 0 <= a < b < |q| && q[a] == t && q[b] == v;
      assert q'[a] == t && q'[b] == v;
    }
  }

  /** Taking threads off the list leaves the others in order. */
  lemma {:induction false} AheadWithout(q: seq<Tid>, t: Tid, u: Tid, x: Tid)
    requires Distinct(q) && Ahead(q, t, u) && x != t && x != u
    ensures Ahead(Without(q, x), t, u)
  {
    var i, j :| 0 <= i < j < |q| && q[i] == t && q[j] == u;
    var rest := Without(q[1..], x);
    if q[0] == x {
      assert q[1..][i - 1] == t && q[1..][j - 1] == u;
    } else if i == 0 {
      WithoutMembers(q[1..], x);
      assert q[1..][j - 1] == u;
      assert u in rest;
      var k :| 0 <= k < |rest| && rest[k] == u;
      assert Without(q, x)[0] == t && Without(q, x)[k + 1] == u;
    } else {
      assert q[1..][i - 1] == t && q[1..][j - 1] == u;
      AheadWithout(q[1..], t, u, x);
      var a, b :| 0 <= a < b < |rest| && rest[a] == t && rest[b] == u;
      assert Without(q, x)[a + 1] == t && Without(q, x)[b + 1] == u;
    }
  }

  lemma StepKeepsBehind(s: State, e: Event, t: Tid, u: Tid)
    requires Inv(s) && Enabled(s, e) && t in s.w.queue && t in Step(s, e).w.queue && Behind(s, t, u)
    ensures Behind(Step(s, e), t, u)
  {
    hide Ahead, NoLostWakeup;
    var q := s.w.queue;
    match e
    case Lower(b) =>
      if Units(s) != s.size {
        WokenIsNotBehind(q, t, u);
      }
    case Reset =>
    case Expire(x) =>
      WithoutMembers(q, x);
      if u in q && u != x {
        AheadWithout(q, t, u, x);
      }
    case Enter(x, b) => NewcomerIsBehind(q, t, x);
    case Resume(x, b) => NewcomerIsBehind(q, t, x);
  }

  lemma WokenIsNotBehind(q: seq<Tid>, t: Tid, u: Tid)
    requires t in q && t in q[1..] && Distinct(q)
    ensures u in q ==> Ahead(q, t, u) ==> u != q[0] && Ahead(q[1..], t, u)
  {
    if Ahead(q, t, u) {
      var i, j :| 0 <= i < j < |q| && q[i] == t && q[j] == u;
      assert q[1..][i - 1] == t && q[1..][j - 1] == u;
    }
  }

  /**
   Waiting threads are woken in order of arrival: as long as `t` waits, no thread that came to wait after it
   is woken with OK, and one that comes while `t` waits is behind it.
   */
  lemma {:induction false} WokenInOrder(s: State, es: seq<Event>, t: Tid, u: Tid)
    requires Inv(s) && Legal(s, es) && KeepsWaiting(s, es, t) && Behind(s, t, u)
    ensures Behind(Run(s, es), t, u)
    decreases |es|
  {
    hide Inv, Behind, Enabled, Step;
    if es != [] {
      StepKeepsInv(s, es[0]);
      StepKeepsBehind(s, es[0], t, u);
      WokenInOrder(Step(s, es[0]), es[1..], t, u);
    }
  }

  /** The byte an event moves for thread `t`, if it moves one. */
  function Moved(s: State, e: Event, t: Tid): seq<u8>
    requires Enabled(s, e)
  {
    if NotBy(e, t) then [] else if s.kind == Input then Out(s, e) else In(s, e)
  }

  function MovedBy(s: State, es: seq<Event>, t: Tid): seq<u8>
    requires Legal(s, es)
    decreases |es|
  {
    if es == [] then [] else Moved(s, es[0], t) + MovedBy(Step(s, es[0]), es[1..], t)
  }

  /** `es` leads from `s` to `u`, and `data` is all that it moves for thread `t`. */
  predicate Trace(s: State, es: seq<Event>, u: State, t: Tid, data: seq<u8>) {
    Legal(s, es) && Run(s, es) == u && MovedBy(s, es, t) == data
  }

  /** A step that is not one of thread `t`'s own. */
  predicate NotBy(e: Event, t: Tid) {
    !((e.Enter? || e.Resume?) && e.t == t)
  }

  lemma TraceNothing(s: State, t: Tid)
    ensures Trace(s, [], s, t, [])
  {
  }

  lemma TraceStep(s: State, e: Event, t: Tid)
    requires Enabled(s, e)
    ensures Trace(s, [e], Step(s, e), t, Moved(s, e, t))
  {
    assert [e][1..] == [] && Legal(Step(s, e), []);
  }

  lemma {:induction false} TraceChain(s: State, es: seq<Event>, u: State, t: Tid, data: seq<u8>,
                                      fs: seq<Event>, v: State, more: seq<u8>)
    requires Trace(s, es, u, t, data) && Trace(u, fs, v, t, more)
    ensures Trace(s, es + fs, v, t, data + more)
    decreases |es|
  {
    hide Enabled, Moved, Step;
    var whole := es + fs;
    if es == [] {
      assert whole == fs && data + more == more;
    } else {
      var s1, first := Step(s, es[0]), Moved(s, es[0], t);
      var rest := MovedBy(s1, es[1..], t);
      TraceChain(s1, es[1..], u, t, rest, fs, v, more);
      assert whole[0] == es[0] && whole[1..] == es[1..] + fs;
      Regroup(first, rest, more);
    }
  }

  lemma ResumedRuns(s: State, t: Tid)
    requires Inv(s) && Woken(s.w, t)
    ensures Running(Dispatch(s.w, t), t)
  {
  }

  /** What other steps can do to a thread: nothing, or wake it if it waits. */
  lemma OthersLeaveThread(s: State, e: Event, t: Tid)
    requires Inv(s) && Enabled(s, e) && NotBy(e, t)
    ensures Running(s.w, t) ==> Running(Step(s, e).w, t)
    ensures Woken(s.w, t) ==> Woken(Step(s, e).w, t) && Message(Step(s, e).w, t) == Message(s.w, t)
    ensures t in s.w.queue ==> t in Step(s, e).w.queue || Woken(Step(s, e).w, t)
    ensures t in s.w.queue && Woken(Step(s, e).w, t) ==>
              && (Message(Step(s, e).w, t) == MsgTimeout <==> e == Expire(t))
              && (Message(Step(s, e).w, t) == MsgReset <==> e == Reset)
    ensures Moved(s, e, t) == []
  {
    if e.Expire? {
      WithoutMembers(s.w.queue, e.t);
    }
  }

  /** A trace extended by a step that is not the thread's own. */
  lemma TraceOther(s: State, es: seq<Event>, u: State, t: Tid, data: seq<u8>, e: Event)
    requires Trace(s, es, u, t, data) && Inv(u) && Enabled(u, e) && NotBy(e, t)
    ensures Trace(s, es + [e], Step(u, e), t, data)
  {
    OthersLeaveThread(u, e, t);
    TraceStep(u, e, t);
    TraceChain(s, es, u, t, data, [e], Step(u, e), []);
    assert data + [] == data;
  }

  /** Two stretches in which nothing moves for the thread. */
  lemma TraceQuiet(s: State, es: seq<Event>, u: State, t: Tid, data: seq<u8>, fs: seq<Event>, v: State)
    requires Trace(s, es, u, t, data) && Trace(u, fs, v, t, [])
    ensures Trace(s, es + fs, v, t, data)
  {
    TraceChain(s, es, u, t, data, fs, v, []);
    assert data + [] == data;
  }

  lemma WaitingIsNotWoken(s: State, t: Tid)
    requires Inv(s) && t in s.w.queue
    ensures !Woken(s.w, t)
  {
  }
}
