/** The byte queues of the serial drivers: `io_queue` with its input and output operations. */
module ByteQueues {
  import opened Common
  import opened Ring
  import opened SystemTime
  import opened WaitingThreads
  import P = ByteProtocol

  /** How an attempt or a call of a thread ends; `Asleep` when it is still waiting at the end of the run. */
  datatype Outcome = Done(b: u8) | Failed(msg: Msg) | Blocked | Asleep

  /** The events that let a call of `t` return early: a reset, or the end of a finite timeout. */
  ghost predicate CutShort(t: Tid, timeout: nat, es: seq<P.Event>) {
    P.Reset in es || timeout == TIME_IMMEDIATE || (timeout != TIME_INFINITE && P.Expire(t) in es)
  }

  /** The rest of the system: how many steps it makes in the run at hand. */
  class World {
    var steps: nat

    constructor (steps: nat)
      ensures this.steps == steps
    {
      this.steps := steps;
    }
  }

  /**
   The queue; pointers are indices into `buffer`.  `waiters` is the waiting list together with the
   threads the kernel has taken off it and not run yet.  Threads call the methods with their own id.
   */
  class IoQueue {
    const buffer: array<u8>
    const kind: P.Kind
    var counter: nat
    var wrptr: nat
    var rdptr: nat
    var waiters: Waiters

    ghost var st: P.State

    ghost predicate Consistent()
      reads this, buffer
    {
      && Cells(st.bytes)
      && st.kind == kind && st.size == buffer.Length && |st.bytes| <= st.size
      && counter == P.Units(st)
      && waiters == st.w
    }

    ghost predicate Valid()
      reads this, buffer
    {
      Consistent() && P.Inv(st)
    }

    /** The cells between the two pointers hold `bytes`. */
    ghost predicate Cells(bytes: seq<u8>)
      reads this, buffer
    {
      && rdptr < buffer.Length && |bytes| <= buffer.Length
      && wrptr == Wrap(rdptr + |bytes|, buffer.Length)
      && Contents(buffer[..], rdptr, |bytes|) == bytes
    }

    /** `iqObjectInit`, `oqObjectInit`. */
    constructor (kind: P.Kind, size: nat)
      requires size >= 1
      ensures Valid() && fresh(buffer) && st == P.Init(kind, size)
    {
      this.kind := kind;
      buffer := new u8[size](_ => 0);
      counter := if kind == P.Input then 0 else size;
      wrptr, rdptr, waiters := 0, 0, NOBODY;
      st := P.Init(kind, size);
    }

    /** The test that is `iqIsFullI` on an input queue and `oqIsEmptyI` on an output queue. */
    predicate LowerBlocked()
      requires Valid()
      reads this, buffer
      ensures LowerBlocked() <==> P.Units(st) == st.size
      ensures LowerBlocked() <==> (if kind == P.Input then |st.bytes| == st.size else st.bytes == [])
    {
      wrptr == rdptr && counter != 0
    }

    /** The test that is `iqIsEmptyI` on an input queue and `oqIsFullI` on an output queue. */
    predicate UpperBlocked()
      requires Consistent()
      reads this, buffer
      ensures UpperBlocked() <==> P.Units(st) == 0
      ensures UpperBlocked() <==> (if kind == P.Input then st.bytes == [] else |st.bytes| == st.size)
    {
      counter == 0
    }

    /** `iqResetI`, `oqResetI`. */
    method ResetI()
      requires Valid()
      modifies this
      ensures Valid() && st == P.Step(old(st), P.Reset)
      ensures st.bytes == [] && waiters.queue == []
      ensures forall t | t in old(waiters).queue :: t in waiters.reset
    {
      P.StepKeepsInv(st, P.Reset);
      rdptr, wrptr := 0, 0;
      counter := if kind == P.Input then 0 else buffer.Length;
      waiters := WakeAll(waiters);
      st := P.Step(st, P.Reset);
    }

    /** `*q_wrptr++ = b`, with the wrap. */
    method WriteCell(b: u8, ghost bytes: seq<u8>)
      requires Cells(bytes) && |bytes| < buffer.Length
      modifies this`wrptr, buffer
      ensures Cells(bytes + [b])
    {
      hide Contents;
      PutOne(buffer[..], rdptr, |bytes|, b);
      ghost var after := buffer[..][wrptr := b];
      buffer[wrptr] := b;
      assert buffer[..] == after;
      wrptr := wrptr + 1;
      if wrptr >= buffer.Length {
        wrptr := 0;
      }
    }

    /** `*q_rdptr++`, with the wrap. */
    method ReadCell(ghost bytes: seq<u8>) returns (b: u8)
      requires Cells(bytes) && bytes != []
      modifies this`rdptr
      ensures Cells(bytes[1..]) && b == bytes[0]
    {
      hide Contents;
      GetOne(buffer[..], rdptr, |bytes|);
      b := buffer[rdptr];
      rdptr := rdptr + 1;
      if rdptr >= buffer.Length {
        rdptr := 0;
      }
    }

    /** The thread that waited longest is woken with OK, if any waits. */
    ghost predicate FirstWoken(w: Waiters, w': Waiters) {
      if w.queue == [] then w' == w
      else w'.queue == w.queue[1..] && w'.ok == w.ok + {w.queue[0]} && w'.timedOut == w.timedOut && w'.reset == w.reset
    }

    /** The one byte a thread's attempt moved: the oldest out, or its own in behind the others. */
    ghost predicate Transferred(bytes: seq<u8>, bytes': seq<u8>, r: Outcome, b: u8) {
      if !r.Done? then bytes' == bytes
      else if kind == P.Input then bytes == [r.b] + bytes'
      else r.b == b && bytes' == bytes + [b]
    }

    /** `iqPutI`: false for `Q_FULL`. */
    method IqPutI(b: u8) returns (ok: bool)
      requires Valid() && kind == P.Input
      modifies this, buffer
      ensures Valid() && st == P.Step(old(st), P.Lower(b))
      ensures ok <==> |old(st).bytes| < old(st).size
      ensures st.bytes == if ok then old(st).bytes + [b] else old(st).bytes
      ensures if ok then FirstWoken(old(waiters), waiters) else waiters == old(waiters)
    {
      hide WellFormed, Contents;
      P.StepKeepsInv(st, P.Lower(b));
      if LowerBlocked() {
        return false;
      }
      counter := counter + 1;
      WriteCell(b, st.bytes);
      waiters := WakeNext(waiters);
      st := P.Step(st, P.Lower(b));
      return true;
    }

    /** `oqGetI`: `None` for `Q_EMPTY`. */
    method OqGetI() returns (b: Option<u8>)
      requires Valid() && kind == P.Output
      modifies this, buffer
      ensures Valid() && st == P.Step(old(st), P.Lower(0))
      ensures b == if old(st).bytes == [] then None else Some(old(st).bytes[0])
      ensures st.bytes == if b.Some? then old(st).bytes[1..] else old(st).bytes
      ensures if b.Some? then FirstWoken(old(waiters), waiters) else waiters == old(waiters)
    {
      hide WellFormed, Contents;
      P.StepKeepsInv(st, P.Lower(0));
      if LowerBlocked() {
        return None;
      }
      counter := counter + 1;
      var c := ReadCell(st.bytes);
      waiters := WakeNext(waiters);
      st := P.Step(st, P.Lower(0));
      return Some(c);
    }

    /** The timeout of a waiting thread takes it off the list. */
    method ExpireI(t: Tid)
      requires Valid() && t in waiters.queue
      modifies this
      ensures Valid() && st == P.Step(old(st), P.Expire(t))
      ensures t !in waiters.queue && t in waiters.timedOut && st.bytes == old(st).bytes
    {
      P.StepKeepsInv(st, P.Expire(t));
      waiters := Expired(waiters, t);
      st := P.Step(st, P.Expire(t));
    }

    /** The byte thread `t` gets, or the byte `b` it puts: the counter and one cell. */
    method TransferCell(b: u8, ghost t: Tid) returns (c: u8)
      requires Consistent() && !UpperBlocked()
      modifies this, buffer
      ensures Consistent() && st == P.Try(old(st), t, b)
      ensures c == if kind == P.Input then old(st).bytes[0] else b
      ensures st.bytes == if kind == P.Input then old(st).bytes[1..] else old(st).bytes + [c]
      ensures waiters == old(waiters)
    {
      hide Contents;
      ghost var after := P.Try(st, t, b);
      counter := counter - 1;
      if kind == P.Input {
        c := ReadCell(st.bytes);
      } else {
        WriteCell(b, st.bytes);
        c := b;
      }
      assert kind == P.Input ==> st.bytes == [c] + st.bytes[1..];
      st := after;
    }

    /**
     A running thread's section of `iqGetTimeout` or `oqPutTimeout` from the lock to the unlock or to
     its going to sleep.
     */
    method Attempt(t: Tid, b: u8, timeout: nat) returns (r: Outcome)
      requires Valid() && Running(waiters, t)
      modifies this, buffer
      ensures Valid()
      ensures if r == Failed(MsgTimeout) then timeout == TIME_IMMEDIATE && UpperBlocked() && st == old(st)
              else st == P.Step(old(st), P.Enter(t, b))
      ensures r.Done? || r.Blocked? || r == Failed(MsgTimeout)
      ensures r.Done? ==> P.Moved(old(st), P.Enter(t, b), t) == [r.b] && Running(waiters, t)
      ensures !r.Done? ==> P.Moved(old(st), P.Enter(t, b), t) == []
      ensures r == Blocked <==> t in waiters.queue
      ensures r.Failed? ==> Running(waiters, t)
      ensures Transferred(old(st).bytes, st.bytes, r, b)
      ensures waiters == if r == Blocked then old(waiters).(queue := old(waiters).queue + [t]) else old(waiters)
    {
      hide Contents, WellFormed;
      if UpperBlocked() {
        if timeout == TIME_IMMEDIATE {
          return Failed(MsgTimeout);
        }
        P.StepKeepsInv(st, P.Enter(t, b));
        waiters := Enqueue(waiters, t);
        st := P.Step(st, P.Enter(t, b));
        return Blocked;
      }
      P.StepKeepsInv(st, P.Enter(t, b));
      var c := TransferCell(b, t);
      return Done(c);
    }

    /** A woken thread goes on inside the call: it gives up on an error, or tries again. */
    method Continue(t: Tid, b: u8) returns (r: Outcome)
      requires Valid() && Woken(waiters, t)
      modifies this, buffer
      ensures Valid() && st == P.Step(old(st), P.Resume(t, b))
      ensures r.Failed? <==> Message(old(waiters), t) != MsgOk
      ensures r.Failed? ==> r.msg == Message(old(waiters), t)
      ensures r.Done? ==> P.Moved(old(st), P.Resume(t, b), t) == [r.b]
      ensures !r.Done? ==> P.Moved(old(st), P.Resume(t, b), t) == []
      ensures r.Done? || r.Failed? ==> Running(waiters, t)
      ensures r != Asleep && (r == Blocked ==> t in waiters.queue)
      ensures Transferred(old(st).bytes, st.bytes, r, b)
      ensures r == Blocked ==> waiters.queue == old(waiters).queue + [t]
    {
      hide Contents, WellFormed, NoLostWakeup, P.Inv;
      P.StepKeepsInv(st, P.Resume(t, b));
      P.ResumedRuns(st, t);
      ghost var after := P.Step(st, P.Resume(t, b));
      var msg := Message(waiters, t);
      waiters := Dispatch(waiters, t);
      st := st.(w := waiters);
      if msg != MsgOk {
        return Failed(msg);
      }
      if UpperBlocked() {
        waiters := Enqueue(waiters, t);
        st := after;
        return Blocked;
      }
      var c := TransferCell(b, t);
      return Done(c);
    }

    /** The interrupt side's operation: a put with any byte, or a get. */
    method LowerStep() returns (ghost e: P.Event)
      requires Valid()
      modifies this, buffer
      ensures Valid() && e.Lower? && st == P.Step(old(st), e)
    {
      if kind == P.Input {
        var b: u8 :| 0 <= b;
        var _ := IqPutI(b);
        e := P.Lower(b);
      } else {
        var _ := OqGetI();
        e := P.Lower(0);
      }
    }

    /**
     One step of the rest of the system beside thread `t`: the interrupt side, a reset, a timeout, or
     another thread.  `finite` tells whether a timeout of `t` itself may strike.
     */
    method OtherStep(t: Tid, finite: bool, world: World) returns (ghost e: P.Event)
      requires Valid() && world.steps > 0
      modifies this, buffer, world
      ensures Valid() && world.steps == old(world.steps) - 1
      ensures P.NotBy(e, t) && (e == P.Expire(t) ==> finite)
      ensures P.Enabled(old(st), e) && st == P.Step(old(st), e)
    {
      hide Cells, P.Step, WellFormed;
      world.steps := world.steps - 1;
      var choice: int := *;
      var u: Tid :| u >= 0;
      if choice == 0 && u in waiters.queue && (u != t || finite) {
        ExpireI(u);
        e := P.Expire(u);
      } else if choice == 1 && u != t && Running(waiters, u) {
        var b: u8 :| 0 <= b;
        var _ := Attempt(u, b, TIME_INFINITE);
        e := P.Enter(u, b);
      } else if choice == 2 && u != t && Woken(waiters, u) {
        var b: u8 :| 0 <= b;
        var _ := Continue(u, b);
        e := P.Resume(u, b);
      } else if choice == 3 {
        ResetI();
        e := P.Reset;
      } else {
        e := LowerStep();
      }
    }

    /** Any number of steps of the rest of the system while thread `t` is not running in the queue. */
    method Others(t: Tid, world: World) returns (ghost es: seq<P.Event>)
      requires Valid() && t !in waiters.queue
      modifies this, buffer, world
      ensures Valid() && world.steps <= old(world.steps)
      ensures P.Trace(old(st), es, st, t, [])
      ensures Running(old(waiters), t) ==> Running(waiters, t)
      ensures Woken(old(waiters), t) ==> Woken(waiters, t) && Message(waiters, t) == Message(old(waiters), t)
    {
      hide Cells, P.Step, P.Trace, P.Inv, WellFormed, Message;
      es := [];
      P.TraceNothing(st, t);
      var more: bool := *;
      while more && world.steps > 0
        invariant Valid() && world.steps <= old(world.steps)
        invariant P.Trace(old(st), es, st, t, [])
        invariant Running(old(waiters), t) ==> Running(waiters, t)
        invariant Woken(old(waiters), t) ==> Woken(waiters, t) && Message(waiters, t) == Message(old(waiters), t)
        decreases world.steps
      {
        ghost var before := st;
        ghost var e := OtherStep(t, false, world);
        P.OthersLeaveThread(before, e, t);
        P.TraceOther(old(st), es, before, t, [], e);
        es := es + [e];
        more := *;
      }
    }

    /** Thread `t` sleeps in the queue until something wakes it, if that happens in the run. */
    method Sleep(t: Tid, timeout: nat, world: World) returns (woken: bool, ghost es: seq<P.Event>)
      requires Valid() && t in waiters.queue
      modifies this, buffer, world
      ensures Valid() && world.steps <= old(world.steps)
      ensures P.Trace(old(st), es, st, t, [])
      ensures woken <==> Woken(waiters, t)
      ensures woken ==> world.steps < old(world.steps)
      ensures !woken ==> t in waiters.queue && world.steps == 0
      ensures woken && Message(waiters, t) == MsgTimeout ==> timeout != TIME_INFINITE && P.Expire(t) in es
      ensures woken && Message(waiters, t) == MsgReset ==> P.Reset in es
    {
      hide Cells, P.Step, P.Trace, P.Inv, WellFormed, Message;
      es := [];
      P.TraceNothing(st, t);
      P.WaitingIsNotWoken(st, t);
      while t in waiters.queue && world.steps > 0
        invariant Valid() && world.steps <= old(world.steps)
        invariant P.Trace(old(st), es, st, t, [])
        invariant t in waiters.queue || (Woken(waiters, t) && world.steps < old(world.steps))
        invariant Woken(waiters, t) ==>
                    && (Message(waiters, t) == MsgTimeout ==> timeout != TIME_INFINITE && P.Expire(t) in es)
                    && (Message(waiters, t) == MsgReset ==> P.Reset in es)
        decreases world.steps
      {
        ghost var before := st;
        ghost var e := OtherStep(t, timeout != TIME_INFINITE, world);
        P.OthersLeaveThread(before, e, t);
        P.TraceOther(old(st), es, before, t, [], e);
        es := es + [e];
      }
      woken := t !in waiters.queue;
      if woken {
        ghost var before := st;
        ghost var more := Others(t, world);
        P.TraceQuiet(old(st), es, before, t, [], more, st);
        es := es + more;
      } else {
        P.WaitingIsNotWoken(st, t);
      }
    }

    /** `iqGetTimeout`, and `oqPutTimeout` of `b`: waits as long as there is nothing to take. */
    method Transfer(t: Tid, b: u8, timeout: nat, world: World) returns (r: Outcome, ghost es: seq<P.Event>)
      requires Valid() && Running(waiters, t) && timeout <= TIME_INFINITE
      modifies this, buffer, world
      ensures Valid() && world.steps <= old(world.steps)
      ensures r.Done? || r.Failed? || r.Asleep?
      ensures P.Trace(old(st), es, st, t, if r.Done? then [r.b] else [])
      ensures kind == P.Output && r.Done? ==> r.b == b
      ensures r.Failed? ==> r.msg != MsgOk
      ensures r == Failed(MsgTimeout) ==> timeout != TIME_INFINITE && (timeout == TIME_IMMEDIATE || P.Expire(t) in es)
      ensures r == Failed(MsgReset) ==> P.Reset in es
      ensures r == Asleep <==> t in waiters.queue
      ensures r != Asleep ==> Running(waiters, t)
    {
      hide Cells, P.Step, P.Trace, P.Inv, WellFormed, Message;
      es := [];
      P.TraceNothing(st, t);
      ghost var before, own := st, P.Enter(t, b);
      r := Attempt(t, b, timeout);
      if r == Failed(MsgTimeout) {
        return;
      }
      P.TraceStep(before, own, t);
      es := [own];
      while r == Blocked
        invariant Valid() && world.steps <= old(world.steps)
        invariant r.Done? || r.Failed? || r.Blocked?
        invariant P.Trace(old(st), es, st, t, if r.Done? then [r.b] else [])
        invariant kind == P.Output && r.Done? ==> r.b == b
        invariant r.Failed? ==> r.msg != MsgOk
        invariant r == Failed(MsgTimeout) ==> timeout != TIME_INFINITE && P.Expire(t) in es
        invariant r == Failed(MsgReset) ==> P.Reset in es
        invariant if r == Blocked then t in waiters.queue else Running(waiters, t)
        decreases world.steps, r.Blocked?
      {
        before := st;
        var woken, more := Sleep(t, timeout, world);
        P.TraceQuiet(old(st), es, before, t, [], more, st);
        es := es + more;
        if !woken {
          return Asleep, es;
        }
        before, own := st, P.Resume(t, b);
        r := Continue(t, b);
        P.TraceStep(before, own, t);
        P.TraceChain(old(st), es, before, t, [], [own], st, P.Moved(before, own, t));
        assert [] + P.Moved(before, own, t) == P.Moved(before, own, t);
        es := es + [own];
      }
    }

    /** `iqReadTimeout`: one byte at a time, the lock open after each. */
    method ReadTimeout(t: Tid, bp: array<u8>, n: nat, timeout: nat, world: World)
      returns (r: nat, asleep: bool, ghost es: seq<P.Event>)
      requires Valid() && kind == P.Input && Running(waiters, t)
      requires 0 < n <= bp.Length && bp != buffer && timeout <= TIME_INFINITE
      modifies this, buffer, bp, world
      ensures Valid() && r <= n
      ensures P.Trace(old(st), es, st, t, bp[..r])
      ensures bp[r..] == old(bp[..])[r..]
      ensures asleep <==> t in waiters.queue
      ensures r < n && !asleep ==> CutShort(t, timeout, es)
    {
      hide Cells, P.Step, P.Trace, P.Inv, WellFormed, Message;
      r, asleep, es := 0, false, [];
      P.TraceNothing(st, t);
      assert bp[..0] == [];
      while true
        invariant Valid() && r < n && !asleep && Running(waiters, t)
        invariant P.Trace(old(st), es, st, t, bp[..r])
        invariant bp[r..] == old(bp[..])[r..]
        decreases n - r
      {
        ghost var before, front := st, bp[..r];
        var got, more := Transfer(t, 0, timeout, world);
        P.TraceChain(old(st), es, before, t, front, more, st, if got.Done? then [got.b] else []);
        es := es + more;
        if !got.Done? {
          assert front + [] == bp[..r];
          asleep := got == Asleep;
          break;
        }
        ghost var cells := bp[..];
        bp[r] := got.b;
        assert bp[..] == cells[r := got.b];
        OneFilled(cells, old(bp[..]), r, got.b);
        r := r + 1;
        if r == n {
          break;
        }
        before := st;
        more := Others(t, world);
        P.TraceQuiet(old(st), es, before, t, bp[..r], more, st);
        es := es + more;
      }
    }

    /** `oqWriteTimeout`: one byte at a time, the lock open after each. */
    method WriteTimeout(t: Tid, bp: seq<u8>, timeout: nat, world: World)
      returns (w: nat, asleep: bool, ghost es: seq<P.Event>)
      requires Valid() && kind == P.Output && Running(waiters, t)
      requires 0 < |bp| && timeout <= TIME_INFINITE
      modifies this, buffer, world
      ensures Valid() && w <= |bp|
      ensures P.Trace(old(st), es, st, t, bp[..w])
      ensures asleep <==> t in waiters.queue
      ensures w < |bp| && !asleep ==> CutShort(t, timeout, es)
    {
      hide Cells, P.Step, P.Trace, P.Inv, WellFormed, Message;
      w, asleep, es := 0, false, [];
      P.TraceNothing(st, t);
      assert bp[..0] == [];
      while true
        invariant Valid() && w < |bp| && !asleep && Running(waiters, t)
        invariant P.Trace(old(st), es, st, t, bp[..w])
        decreases |bp| - w
      {
        ghost var before := st;
        var put, more := Transfer(t, bp[w], timeout, world);
        P.TraceChain(old(st), es, before, t, bp[..w], more, st, if put.Done? then [put.b] else []);
        es := es + more;
        if !put.Done? {
          assert bp[..w] + [] == bp[..w];
          asleep := put == Asleep;
          break;
        }
        assert bp[..w] + [bp[w]] == bp[..w + 1];
        w := w + 1;
        if w == |bp| {
          break;
        }
        before := st;
        more := Others(t, world);
        P.TraceQuiet(old(st), es, before, t, bp[..w], more, st);
        es := es + more;
      }
    }
  }

  /** Filling the next cell: the front grows by one, the rest is as it was. */
  lemma OneFilled(cells: seq<u8>, before: seq<u8>, r: nat, b: u8)
    requires r < |cells| == |before| && cells[r..] == before[r..]
    ensures cells[r := b][..r + 1] == cells[..r] + [b]
    ensures cells[r := b][r + 1..] == before[r + 1..]
  {
    SameFrom(cells, before, r, r + 1);
  }
}
