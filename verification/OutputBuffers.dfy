/** The output buffers queue: a writer thread on one side, an interrupt handler on the other. */
module OutputBuffers {
  import opened Common
  import opened R = Ring
  import opened Slots
  import opened SystemTime
  import S = OutputStream

  /**
   The fields of the queue; pointers are byte offsets into `mem`.  Every method is one stretch of
   code between a lock and an unlock, except the thread calls that wait, which open the lock.
   Those return the run of atomic steps they and the interrupt side made together.
   */
  class OutputBuffersQueue {
    const bn: nat
    const bsize: nat
    const btop: nat
    const mem: array<u8>
    const words: array<nat>
    var bcounter: nat
    var bwrptr: nat
    var brdptr: nat
    var ptr: Option<nat>
    var top: nat

    ghost var st: S.State  // the packets behind the fields, and the history
    ghost var wi: nat      // slot numbers of the two pointers
    ghost var ri: nat

    /** The ring of posted slots. */
    ghost predicate Ring()
      reads this, mem, words
    {
      && Sized(mem[..], words[..], bsize, bn) && btop == Offset(bn, bsize)
      && st.n == bn && st.cap == bsize - SIZEOF_SIZE_T
      && QueueHolds(mem[..], words[..], bsize, bn, ri, st.queued)
      && wi == Wrap(ri + |st.queued|, bn)
      && bwrptr == Offset(wi, bsize) && brdptr == Offset(ri, bsize)
      && bcounter == bn - |st.queued|
      && bwrptr + bsize <= btop
    }

    /** The current buffer: `ptr` has advanced over `cur` inside the write slot. */
    ghost predicate Filling(p: nat, cur: seq<u8>)
      reads this, mem
    {
      && p == bwrptr + SIZEOF_SIZE_T + |cur|
      && p <= top == bwrptr + bsize <= mem.Length
      && mem[bwrptr + SIZEOF_SIZE_T..p] == cur
    }

    ghost predicate Consistent()
      reads this, mem, words
    {
      && Ring() && S.Shape(st)
      && ptr.Some? == st.cur.Some?
      && (ptr.Some? ==> Filling(ptr.value, st.cur.value) && ptr.value < top)
    }

    ghost predicate Valid()
      reads this, mem, words
    {
      Consistent() && S.Inv(st)
    }

    lemma Sizes()
      requires Valid()
      ensures st.n == bn >= 1 && st.cap == bsize - SIZEOF_SIZE_T >= 2 && |st.queued| <= bn && S.Inv(st)
    {
    }

    /** `obqObjectInit`. */
    constructor (size: nat, n: nat)
      requires size >= 2 && n >= 1
      ensures Valid() && fresh(mem) && fresh(words)
      ensures st == S.Init(n, size)
    {
      var sz := size + SIZEOF_SIZE_T;
      bn, bsize, btop := n, sz, n * sz;
      mem := new u8[n * sz](_ => 0);
      words := new nat[n * sz](_ => 0);
      bcounter, bwrptr, brdptr, ptr, top := n, 0, 0, None, 0;
      st, wi, ri := S.Init(n, size), 0, 0;
      new;
      NextSlot(0, bn, bsize);
    }

    /** `obqIsEmptyI`: nothing posted, told by the pointers and the counter. */
    predicate IsEmptyI()
      requires Ring()
      reads this, mem, words
      ensures IsEmptyI() <==> st.queued == []
    {
      AlignedEqual(wi, ri, bsize);
      bwrptr == brdptr && bcounter != 0
    }

    /** `obqIsFullI`. */
    predicate IsFullI()
      requires Ring()
      reads this, mem, words
      ensures IsFullI() <==> |st.queued| == bn
    {
      bcounter == 0
    }

    /** `obqResetI`. */
    method ResetI()
      requires Valid()
      modifies this
      ensures Valid() && st == S.Step(old(st), S.Reset)
      ensures ptr == None && st == old(st).(queued := [], cur := None, accepted := [], sent := [])
    {
      hide Offset, SlotHolds, S.Stream, S.Inv, S.Shape;
      S.InitHasInv(bn, st.cap);
      bcounter, brdptr, bwrptr, ptr, top := bn, 0, 0, None, 0;
      st, wi, ri := S.Init(bn, st.cap), 0, 0;
      NextSlot(0, bn, bsize);
    }

    /** `obqGetFullBufferI`: where the next posted payload lies, if there is one. */
    method GetFullBufferI() returns (buf: Option<nat>, size: nat)
      requires Valid()
      ensures buf.None? <==> st.queued == []
      ensures buf.Some? ==> buf.value + size <= mem.Length && mem[buf.value..buf.value + size] == st.queued[0]
    {
      if IsEmptyI() {
        return None, 0;
      }
      assert SlotHolds(mem[..], words[..], Offset(Wrap(ri + 0, bn), bsize), st.queued[0]);
      size := words[brdptr];
      buf := Some(brdptr + SIZEOF_SIZE_T);
    }

    /** `obqReleaseEmptyBufferI`. */
    method ReleaseEmptyBufferI()
      requires Valid() && !IsEmptyI()
      modifies this
      ensures Valid() && st == S.Step(old(st), S.Release)
      ensures st == old(st).(queued := old(st).queued[1..], sent := old(st).sent + [old(st).queued[0]])
    {
      hide Offset, S.Stream, SlotHolds;
      S.StepKeepsInv(st, S.Release);
      NextSlot(ri, bn, bsize);
      ReleaseSlot(mem[..], words[..], bsize, bn, ri, st.queued);
      bcounter := bcounter + 1;
      brdptr := brdptr + bsize;
      if brdptr >= btop {
        brdptr := 0;
      }
      st, ri := S.Step(st, S.Release), Wrap(ri + 1, bn);
    }

    /** `obqPostFullBufferS`: the first `size` bytes of the write slot are posted. */
    method PostFullBufferS(size: nat)
      requires Ring() && 0 < size <= bsize - SIZEOF_SIZE_T && !IsFullI()
      requires bwrptr + SIZEOF_SIZE_T + size <= mem.Length
      modifies this, words
      ensures Ring() && ptr == None
      ensures st == old(st).(queued := old(st).queued + [old(mem[bwrptr + SIZEOF_SIZE_T..bwrptr + SIZEOF_SIZE_T + size])], cur := None)
    {
      hide Offset, QueueHolds;
      QueueIndex(mem[..], words[..], bsize, bn, ri, st.queued);
      ghost var payload := mem[bwrptr + SIZEOF_SIZE_T..bwrptr + SIZEOF_SIZE_T + size];
      SizePosted(mem[..], words[..], bsize, bn, ri, st.queued, size);
      assert payload == mem[..][bwrptr + SIZEOF_SIZE_T..bwrptr + SIZEOF_SIZE_T + size];
      ghost var words' := words[..][bwrptr := size];
      words[bwrptr] := size;
      assert words[..] == words';
      NextSlot(wi, bn, bsize);
      bcounter := bcounter - 1;
      bwrptr := bwrptr + bsize;
      if bwrptr >= btop {
        bwrptr := 0;
      }
      ptr := None;
      st, wi := st.(queued := st.queued + [payload], cur := None), Wrap(wi + 1, bn);
      NextSlot(wi, bn, bsize);
    }

    /** The partial data was posted as the newest packet. */
    ghost predicate PartPosted(s: S.State, t: S.State) {
      t == s.(queued := s.queued + [Part(s.cur)], cur := None)
    }

    /** `obqTryFlushI`: posts partial data when nothing else is posted. */
    method TryFlushI() returns (flushed: bool)
      requires Valid()
      modifies this, words
      ensures Valid() && st == S.Step(old(st), S.TryFlush)
      ensures flushed <==> old(st).queued == [] && Part(old(st).cur) != []
      ensures if flushed then ptr == None && PartPosted(old(st), st) else ptr == old(ptr) && st == old(st)
    {
      hide Offset, S.Stream, SlotHolds, QueueHolds;
      S.StepKeepsInv(st, S.TryFlush);
      if IsEmptyI() && ptr != None {
        var size := ptr.value - (bwrptr + SIZEOF_SIZE_T);
        if size > 0 {
          assert mem[bwrptr + SIZEOF_SIZE_T..bwrptr + SIZEOF_SIZE_T + size] == st.cur.value;
          PostFullBufferS(size);
          return true;
        }
      }
      return false;
    }

    /** `obqFlush`: posts partial data. */
    method Flush()
      requires Valid()
      modifies this, words
      ensures Valid() && st == S.Step(old(st), S.Flush)
      ensures if Part(old(st).cur) != [] then ptr == None && PartPosted(old(st), st)
              else ptr == old(ptr) && st == old(st)
    {
      hide Offset, S.Stream, SlotHolds, QueueHolds;
      S.StepKeepsInv(st, S.Flush);
      if ptr != None {
        var size := ptr.value - bwrptr - SIZEOF_SIZE_T;
        if size > 0 {
          assert mem[bwrptr + SIZEOF_SIZE_T..bwrptr + SIZEOF_SIZE_T + size] == st.cur.value;
          PostFullBufferS(size);
        }
      }
    }

    /** The current buffer is never full. */
    lemma Ahead()
      requires Valid() && ptr.Some?
      ensures ptr.value < top
    {
    }

    /** `memcpy` to `to`. */
    method Copy(to: nat, data: seq<u8>)
      requires to + |data| <= mem.Length
      modifies mem
      ensures mem[..] == old(mem[..to]) + data + old(mem[to + |data|..])
    {
      forall i | 0 <= i < |data| {
        mem[to + i] := data[i];
      }
    }

    /** Copies a chunk into the current buffer. */
    method Fill(chunk: seq<u8>)
      requires Valid() && ptr.Some? && ptr.value + |chunk| <= top
      modifies this`ptr, this`st, mem
      ensures Ring() && ptr.Some? && st.cur.Some? && Filling(ptr.value, st.cur.value)
      ensures st == old(st).(cur := Some(old(st).cur.value + chunk), accepted := old(st).accepted + chunk)
    {
      hide Offset, S.Inv, S.Shape, QueueHolds, SlotHolds, OnlySlotChanged;
      QueueIndex(mem[..], words[..], bsize, bn, ri, st.queued);
      RoomLeft();
      ghost var mem0 := mem[..];
      Copy(ptr.value, chunk);
      ChunkWritten(mem0, mem[..], words[..], bwrptr, bsize, st.cur.value, chunk);
      FreeSlotWrite(mem0, mem[..], words[..], words[..], bsize, bn, ri, st.queued);
      st := st.(cur := Some(st.cur.value + chunk), accepted := st.accepted + chunk);
      ptr := Some(ptr.value + |chunk|);
      assert mem[..][bwrptr + SIZEOF_SIZE_T..ptr.value] == st.cur.value;
    }

    /** While a buffer is being filled, a slot is free. */
    lemma RoomLeft()
      requires Valid() && ptr.Some?
      ensures |st.queued| < bn && st.cur.Some?
    {
    }

    /** Exactly `chunk` came behind the partial data, which is posted if it fills the buffer. */
    ghost predicate Stored(s: S.State, t: S.State, chunk: seq<u8>) {
      var all := Part(s.cur) + chunk;
      && s.cur.Some? && |all| <= s.cap
      && t.sent == s.sent && t.accepted == s.accepted + chunk
      && if |all| == s.cap then t.queued == s.queued + [all] && t.cur == None
         else t.queued == s.queued && t.cur == Some(all)
    }

    /** Copies a chunk into the current buffer, and posts the buffer when that completes it. */
    method Store(chunk: seq<u8>)
      requires Valid() && ptr.Some? && ptr.value + |chunk| <= top
      modifies this, mem, words
      ensures Valid() && S.Enabled(old(st), S.Append(chunk)) && st == S.Step(old(st), S.Append(chunk))
      ensures Stored(old(st), st, chunk)
      ensures ptr.Some? ==> old(ptr.value) + |chunk| < old(top)
    {
      hide Offset, S.Stream, QueueHolds;
      S.StepKeepsInv(st, S.Append(chunk));
      Fill(chunk);
      if ptr.value >= top {
        assert mem[bwrptr + SIZEOF_SIZE_T..bwrptr + SIZEOF_SIZE_T + st.cap] == st.cur.value;
        PostFullBufferS(bsize - SIZEOF_SIZE_T);
      }
      if ptr.Some? {
        Ahead();
      }
    }

    /** Whatever interrupt handlers do while the lock is open. */
    method Interference(clk: SystemTimer) returns (ghost es: seq<S.Event>)
      requires Valid()
      modifies this, words, clk
      ensures Valid() && clk.ticks >= old(clk.ticks)
      ensures S.IsrOnly(es) && S.Trace(old(st), es, st, [])
      ensures old(ptr).None? ==> ptr.None? && |st.queued| <= |old(st).queued|
    {
      hide Offset, S.Stream, S.Trace, S.Inv, Ring;
      es := [];
      S.TraceNothing(st);
      var steps: int :| steps >= 0;
      while steps > 0
        invariant Valid() && clk.ticks >= old(clk.ticks)
        invariant S.IsrOnly(es) && S.Trace(old(st), es, st, [])
        invariant old(ptr).None? ==> ptr.None? && |st.queued| <= |old(st).queued|
      {
        clk.Advance();
        ghost var before, e := st, S.TryFlush;
        if * {
          var _ := TryFlushI();
        } else if * {
          ResetI();
          e := S.Reset;
        } else if !IsEmptyI() {
          ReleaseEmptyBufferI();
          e := S.Release;
        } else {
          var _ := TryFlushI();
        }
        S.TraceStep(before, e);
        S.TraceQuiet(old(st), es, before, [], [e], st);
        es := es + [e];
        steps := steps - 1;
      }
    }

    /**
     `osalThreadEnqueueTimeoutS` on this queue: the thread sleeps until a release, a reset or the timeout
     resumes it, at `woken`, and interrupts may run before it gets the processor back.
     */
    method EnqueueTimeoutS(timeout: nat, clk: SystemTimer) returns (msg: Msg, ghost es: seq<S.Event>, ghost woken: nat)
      requires Valid() && IsFullI() && ptr.None? && timeout <= TIME_INFINITE
      modifies this, words, clk
      ensures Valid() && ptr.None? && clk.ticks >= woken >= old(clk.ticks)
      ensures S.IsrOnly(es) && S.Trace(old(st), es, st, [])
      ensures msg == MsgOk ==> !IsFullI()
      ensures timeout == TIME_IMMEDIATE ==> msg == MsgTimeout && es == [] && st == old(st) && clk.ticks == old(clk.ticks)
      ensures msg == MsgReset ==> S.Reset in es
      ensures timeout == TIME_INFINITE ==> msg != MsgTimeout
      ensures timeout != TIME_INFINITE ==> woken <= old(clk.ticks) + timeout
      ensures msg == MsgTimeout ==> woken == old(clk.ticks) + timeout
    {
      hide Offset, S.Stream, S.Trace, S.Inv, QueueHolds;
      ghost var before := st;
      woken := clk.ticks;
      if timeout == TIME_IMMEDIATE {
        S.TraceNothing(st);
        return MsgTimeout, [], woken;
      }
      var expires := clk.Sleep(timeout);
      woken := clk.ticks;
      if expires {
        es := Interference(clk);
        return MsgTimeout, es, woken;
      }
      ghost var e;
      if * {
        ReleaseEmptyBufferI();
        msg, e := MsgOk, S.Release;
      } else {
        ResetI();
        msg, e := MsgReset, S.Reset;
      }
      ghost var ready := st;
      S.TraceStep(before, e);
      es := Interference(clk);
      S.TraceQuiet(before, [e], ready, [], es, st);
      es := [e] + es;
    }

    /** Sets up the current buffer and its boundary. */
    method StartWriting()
      requires Valid() && !IsFullI()
      modifies this`ptr, this`top, this`st
      ensures Consistent() && ptr.Some? && st == S.Rewind(old(st))
    {
      hide Offset, S.Stream, S.Inv, QueueHolds, SlotHolds;
      Sizes();
      assert mem[bwrptr + SIZEOF_SIZE_T..bwrptr + SIZEOF_SIZE_T] == [];
      ptr := Some(bwrptr + SIZEOF_SIZE_T);
      top := bwrptr + bsize;
      st := S.Rewind(st);
    }

    /** `obqGetEmptyBufferTimeoutS`. */
    method GetEmptyBufferTimeoutS(timeout: nat, clk: SystemTimer)
      returns (msg: Msg, ghost es: seq<S.Event>, ghost ws: seq<Wait>)
      requires Valid() && timeout <= TIME_INFINITE
      modifies this, words, clk
      ensures Consistent() && clk.ticks >= old(clk.ticks)
      ensures old(ptr).None? ==> Valid() && ptr.Some? == (msg == MsgOk) && S.Trace(old(st), es, st, [])
      ensures old(ptr).Some? ==> msg == MsgOk && st == S.Rewind(old(st))
      ensures msg == MsgOk ==> st.cur == Some([])
      ensures !old(IsFullI()) ==> ws == [] && clk.ticks == old(clk.ticks)
      ensures Whole(ws, old(clk.ticks), timeout) && AllFirst(ws)
      ensures timeout == TIME_INFINITE ==> msg != MsgTimeout
      ensures msg == MsgTimeout ==> TimedOut(ws) && clk.ticks >= old(clk.ticks) + timeout
      ensures msg == MsgReset ==> S.Reset in es
      ensures timeout == TIME_IMMEDIATE && msg != MsgOk ==> IsFullI() && msg == MsgTimeout && es == [] && st == old(st)
      ensures timeout == TIME_IMMEDIATE ==> clk.ticks == old(clk.ticks) && (msg == MsgOk <==> !old(IsFullI()))
    {
      hide Offset, S.Stream, S.Trace, S.Inv, QueueHolds, Ring;
      es, ws := [], [];
      if ptr.Some? {
        RoomLeft();
      }
      S.TraceNothing(st);
      while IsFullI()
        invariant Valid() && clk.ticks >= old(clk.ticks)
        invariant old(ptr).None? ==> ptr.None? && S.Trace(old(st), es, st, [])
        invariant old(ptr).Some? ==> st == old(st) && !IsFullI()
        invariant timeout == TIME_IMMEDIATE ==> st == old(st) && es == [] && clk.ticks == old(clk.ticks)
        invariant Whole(ws, old(clk.ticks), timeout) && AllFirst(ws)
        invariant !old(IsFullI()) || IsFullI() ==> ws == [] && clk.ticks == old(clk.ticks)
        decreases if IsFullI() then 1 else 0
      {
        ghost var before, more, from, woken := st, [], clk.ticks, 0;
        msg, more, woken := EnqueueTimeoutS(timeout, clk);
        S.TraceQuiet(old(st), es, before, [], more, st);
        es := es + more;
        if timeout != TIME_INFINITE {
          ws := ws + [Wait(from, from + timeout, woken, true)];
        }
        if msg != MsgOk {
          return;
        }
      }
      assert !IsFullI();
      ghost var before := st;
      StartWriting();
      msg := MsgOk;
      if old(ptr).None? {
        S.StepKeepsInv(before, S.Acquire);
        S.TraceStep(before, S.Acquire);
        S.TraceQuiet(old(st), es, before, [], [S.Acquire], st);
        es := es + [S.Acquire];
      }
    }

    /** `obqPutTimeout`. */
    method PutTimeout(b: u8, timeout: nat, clk: SystemTimer)
      returns (msg: Msg, ghost es: seq<S.Event>, ghost ws: seq<Wait>)
      requires Valid() && timeout <= TIME_INFINITE
      modifies this, mem, words, clk
      ensures Valid()
      ensures S.Trace(old(st), es, st, if msg == MsgOk then [b] else [])
      ensures S.Reset !in es ==> st.accepted == old(st).accepted + if msg == MsgOk then [b] else []
      ensures Whole(ws, old(clk.ticks), timeout) && AllFirst(ws)
      ensures timeout == TIME_INFINITE ==> msg != MsgTimeout
      ensures msg == MsgTimeout ==> TimedOut(ws) && clk.ticks >= old(clk.ticks) + timeout
      ensures msg == MsgReset ==> S.Reset in es
      ensures timeout == TIME_IMMEDIATE && msg != MsgOk ==> IsFullI()
    {
      hide Offset, S.Stream, S.Trace, S.Inv, QueueHolds, Ring, Stored;
      es, ws := [], [];
      Sizes();
      S.TraceNothing(st);
      if ptr == None {
        msg, es, ws := GetEmptyBufferTimeoutS(timeout, clk);
        if msg != MsgOk {
          if S.Reset !in es {
            S.TraceAccepts(old(st), es, st, []);
          }
          return;
        }
      }
      ghost var before := st;
      Store([b]);
      S.TraceStep(before, S.Append([b]));
      S.TraceChain(old(st), es, before, [], [S.Append([b])], st, [b]);
      assert [] + [b] == [b];
      es := es + [S.Append([b])];
      msg := MsgOk;
      if S.Reset !in es {
        S.TraceAccepts(old(st), es, st, [b]);
      }
    }

    /** A pass's acquisition of a buffer, under the deadline of the whole write. */
    method AcquireWithin(timeout: nat, deadline: nat, ghost start: nat, clk: SystemTimer)
      returns (stop: Stop, ghost es: seq<S.Event>, ghost ws: seq<Wait>)
      requires Valid() && ptr.None? && timeout <= TIME_INFINITE && start <= clk.ticks
      requires deadline == Deadline(start, timeout)
      modifies this, words, clk
      ensures Valid() && ptr.Some? == (stop == Finished) && S.Trace(old(st), es, st, [])
      ensures start <= clk.ticks
      ensures Within(ws, start, timeout) && AllFirst(ws)
      ensures stop != Interrupted(MsgOk)
      ensures timeout == TIME_INFINITE ==> stop.Finished? || stop == Interrupted(MsgReset)
      ensures stop == DeadlinePassed ==> clk.ticks - start > timeout && es == []
      ensures stop == Interrupted(MsgTimeout) ==> TimedOut(ws) && clk.ticks - start >= timeout
      ensures stop == Interrupted(MsgReset) ==> S.Reset in es
      ensures timeout == TIME_IMMEDIATE && stop != Finished ==> IsFullI()
    {
      hide Valid, S.Trace, TimedOut, AllFirst, Within, Whole, SystimeSub, Deadline;
      ghost var entry := clk.ticks;
      var msg;
      if timeout == TIME_INFINITE || timeout == TIME_IMMEDIATE {
        msg, es, ws := GetEmptyBufferTimeoutS(timeout, clk);
        WholeIsWithin(ws, entry, start, timeout);
      } else {
        var now := clk.GetSystemTimeX();
        ghost var time := clk.ticks;
        var nextTimeout := SystimeSub(deadline, now);
        DeadlinePass(start, timeout, clk.ticks - start);
        if nextTimeout > timeout {
          S.TraceNothing(st);
          NoWaits(start, timeout);
          return DeadlinePassed, [], [];
        }
        msg, es, ws := GetEmptyBufferTimeoutS(nextTimeout, clk);
        WholeOfRest(ws, start, timeout, time, nextTimeout);
      }
      stop := if msg == MsgOk then Finished else Interrupted(msg);
    }

    /** One pass of `obqWriteTimeout`, from lock to unlock: a buffer if need be, then one chunk. */
    method WritePass(bp: seq<u8>, w: nat, timeout: nat, deadline: nat, ghost start: nat, clk: SystemTimer)
      returns (done: nat, ghost es: seq<S.Event>, ghost ws: seq<Wait>, stop: Stop)
      requires Valid() && w <= |bp| && timeout <= TIME_INFINITE && start <= clk.ticks
      requires deadline == Deadline(start, timeout)
      modifies this, mem, words, clk
      ensures Valid() && start <= clk.ticks && w <= done <= |bp| && done <= w + 64
      ensures S.Trace(old(st), es, st, bp[w..done])
      ensures if stop == Finished then w < |bp| ==> w < done else done == w
      ensures stop == Finished && done < |bp| && done < w + 64 ==> ptr.None?
      ensures Within(ws, start, timeout) && AllFirst(ws)
      ensures stop != Interrupted(MsgOk)
      ensures timeout == TIME_INFINITE ==> stop.Finished? || stop == Interrupted(MsgReset)
      ensures stop == DeadlinePassed ==> clk.ticks - start > timeout
      ensures stop == Interrupted(MsgTimeout) ==> TimedOut(ws) && clk.ticks - start >= timeout
      ensures stop == Interrupted(MsgReset) ==> S.Reset in es
      ensures timeout == TIME_IMMEDIATE && stop != Finished ==> IsFullI()
    {
      hide S.Trace, Valid, S.Step, S.Enabled, Stored, Within, TimedOut, AllFirst;
      es, ws, stop, done := [], [], Finished, w;
      NoWaits(start, timeout);
      S.TraceNothing(st);
      assert bp[w..w] == [];
      if ptr == None {
        stop, es, ws := AcquireWithin(timeout, deadline, start, clk);
        if stop != Finished {
          return;
        }
      }
      Ahead();
      var size := top - ptr.value;
      if size > |bp| - w {
        size := |bp| - w;
      }
      if size > 64 {
        size := 64;
      }
      ghost var before, e := st, S.Append(bp[w..w + size]);
      Store(bp[w..w + size]);
      S.TraceStep(before, e);
      S.TraceChain(old(st), es, before, [], [e], st, e.data);
      assert [] + e.data == e.data;
      es, done := es + [e], w + size;
    }

    /** `obqWriteTimeout`: the lock is open between the passes. */
    method WriteTimeout(bp: seq<u8>, timeout: nat, clk: SystemTimer)
      returns (w: nat, ghost es: seq<S.Event>, ghost start: nat, ghost ws: seq<Wait>, ghost stop: Stop)
      requires Valid() && timeout <= TIME_INFINITE
      modifies this, mem, words, clk
      ensures Valid() && w <= |bp|
      ensures S.Trace(old(st), es, st, bp[..w])
      ensures S.Reset !in es ==> st.accepted == old(st).accepted + bp[..w]
      ensures w < |bp| ==> S.Reset in es || (timeout != TIME_INFINITE && clk.ticks - old(clk.ticks) >= timeout)
      ensures old(clk.ticks) <= start <= clk.ticks && Within(ws, start, timeout)
      ensures TIME_IMMEDIATE < timeout < TIME_INFINITE ==> EndsAtDeadline(ws, start, timeout)
      ensures stop != Interrupted(MsgOk)
      ensures stop == Finished ==> w == |bp|
      ensures timeout == TIME_INFINITE ==> stop.Finished? || stop == Interrupted(MsgReset)
      ensures stop == DeadlinePassed ==> clk.ticks - old(clk.ticks) > timeout
      ensures stop == Interrupted(MsgTimeout) ==> TimedOut(ws) && clk.ticks - old(clk.ticks) >= timeout
      ensures stop == Interrupted(MsgReset) ==> S.Reset in es
      ensures timeout == TIME_IMMEDIATE && stop != Finished ==> IsFullI()
    {
      hide Valid, S.Trace, S.Inv, Within, TimedOut, AllFirst, EndsAtDeadline;
      Sizes();
      w, es, ws, stop := 0, [], [], Finished;
      S.TraceNothing(st);
      assert bp[..0] == [];
      var now := clk.GetSystemTimeX();
      start := clk.ticks;
      NoWaits(start, timeout);
      var deadline := (now + timeout) % SYSTIME_RANGE;
      while true
        invariant Valid() && w <= |bp| && (w < |bp| || |bp| == 0)
        invariant old(clk.ticks) <= start <= clk.ticks && stop == Finished
        invariant S.Trace(old(st), es, st, bp[..w])
        invariant Within(ws, start, timeout) && AllFirst(ws)
        decreases |bp| - w
      {
        ghost var before := st;
        var done, more, waits, outcome := WritePass(bp, w, timeout, deadline, start, clk);
        S.TraceChain(old(st), es, before, bp[..w], more, st, bp[w..done]);
        assert bp[..w] + bp[w..done] == bp[..done];
        WithinJoins(ws, waits, start, timeout);
        LastOfJoined(ws, waits);
        es, ws, w, stop := es + more, ws + waits, done, outcome;
        if outcome != Finished || w >= |bp| {
          break;
        }
        before := st;
        more := Interference(clk);
        S.TraceQuiet(old(st), es, before, bp[..w], more, st);
        es := es + more;
      }
      assert stop.Interrupted? ==> stop.msg.MsgOk? || stop.msg.MsgTimeout? || stop.msg.MsgReset?;
      if S.Reset !in es {
        S.TraceAccepts(old(st), es, st, bp[..w]);
      }
      if TIME_IMMEDIATE < timeout < TIME_INFINITE {
        WithinEndsAtDeadline(ws, start, timeout);
      }
    }
  }
}
