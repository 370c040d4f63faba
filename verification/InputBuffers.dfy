/** The input buffers queue: an interrupt handler posts buffers, a thread reads bytes. */
module InputBuffers {
  import opened Common
  import opened R = Ring
  import opened Slots
  import opened SystemTime
  import S = InputStream

  /** `msg_t` of `ibqGetTimeout`: a byte value or an error. */
  datatype Got = Byte(b: u8) | Failed(msg: Msg)

  /** The driver behind the queue: how many more resets it makes in the run at hand. */
  class Driver {
    var resets: nat

    constructor (resets: nat)
      ensures this.resets == resets
    {
      this.resets := resets;
    }
  }

  /**
   The fields of the queue; pointers are byte offsets into `mem`.  Every method is one stretch of
   code between a lock and an unlock, except the thread calls that wait, which open the lock.
   Those return the run of atomic steps they and the interrupt side made together.
   */
  class InputBuffersQueue {
    const bn: nat
    const bsize: nat
    const btop: nat
    const mem: array<u8>
    const words: array<nat>
    var bcounter: nat
    var bwrptr: nat
    var brdptr: nat
    var ptr: Option<nat>
    var top: nat

    ghost var st: S.State  // the packets behind the fields, and the history
    ghost var wi: nat      // slot numbers of the two pointers
    ghost var ri: nat

    /** The ring of posted slots. */
    ghost predicate Ring()
      reads this, mem, words
    {
      && Sized(mem[..], words[..], bsize, bn) && btop == Offset(bn, bsize)
      && st.n == bn && st.cap == bsize - SIZEOF_SIZE_T
      && QueueHolds(mem[..], words[..], bsize, bn, ri, st.queued)
      && wi == Wrap(ri + |st.queued|, bn)
      && bwrptr == Offset(wi, bsize) && brdptr == Offset(ri, bsize)
      && bcounter == |st.queued|
      && bwrptr + bsize <= btop && brdptr + bsize <= btop
    }

    ghost predicate Consistent()
      reads this, mem, words
    {
      && Ring() && S.Shape(st)
      && ptr.Some? == st.cur.Some?
      && (ptr.Some? ==>
            && ptr.value == brdptr + SIZEOF_SIZE_T + st.cur.value
            && top == brdptr + SIZEOF_SIZE_T + |st.queued[0]|)
    }

    ghost predicate Valid()
      reads this, mem, words
    {
      Consistent() && S.Inv(st)
    }

    lemma Sizes()
      requires Valid()
      ensures st.n == bn >= 1 && st.cap == bsize - SIZEOF_SIZE_T >= 2 && |st.queued| <= bn
    {
    }

    /** `ibqObjectInit`. */
    constructor (size: nat, n: nat)
      requires size >= 2 && n >= 1
      ensures Valid() && fresh(mem) && fresh(words)
      ensures st == S.Init(n, size)
    {
      var sz := size + SIZEOF_SIZE_T;
      bn, bsize, btop := n, sz, n * sz;
      mem := new u8[n * sz](_ => 0);
      words := new nat[n * sz](_ => 0);
      bcounter, bwrptr, brdptr, ptr, top := 0, 0, 0, None, 0;
      st, wi, ri := S.Init(n, size), 0, 0;
      new;
      NextSlot(0, bn, bsize);
    }

    /** `ibqIsFullI`: every slot posted, told by the pointers and the counter. */
    predicate IsFullI()
      requires Valid()
      reads this, mem, words
      ensures IsFullI() <==> |st.queued| == bn
    {
      AlignedEqual(wi, ri, bsize);
      bwrptr == brdptr && bcounter != 0
    }

    /** `ibqIsEmptyI`. */
    predicate IsEmptyI()
      requires Ring()
      reads this, mem, words
      ensures IsEmptyI() <==> st.queued == []
    {
      bcounter == 0
    }

    /** `ibqResetI`. */
    method ResetI()
      requires Valid()
      modifies this
      ensures Valid() && st == S.Step(old(st), S.Reset)
      ensures ptr == None && st == old(st).(queued := [], cur := None, posted := [], delivered := [])
    {
      hide Offset, S.Held, S.Inv, S.Shape;
      S.InitHasInv(bn, st.cap);
      bcounter, brdptr, bwrptr, ptr, top := 0, 0, 0, None, 0;
      st, wi, ri := S.Init(bn, st.cap), 0, 0;
      NextSlot(0, bn, bsize);
    }

    /** `ibqGetEmptyBufferI`: where the next payload is to be written. */
    method GetEmptyBufferI() returns (buf: Option<nat>)
      requires Valid()
      ensures buf.None? <==> |st.queued| == bn
      ensures buf.Some? ==> buf.value == bwrptr + SIZEOF_SIZE_T && buf.value + st.cap <= mem.Length
    {
      buf := if IsFullI() then None else Some(bwrptr + SIZEOF_SIZE_T);
    }

    /** `memcpy` into the queue's memory. */
    method CopyIn(to: nat, data: seq<u8>)
      requires to + |data| <= mem.Length
      modifies mem
      ensures mem[..] == old(mem[..to]) + data + old(mem[to + |data|..])
      ensures mem[to..to + |data|] == data
    {
      forall i | 0 <= i < |data| {
        mem[to + i] := data[i];
      }
    }

    /** `memcpy` out of the queue's memory. */
    method CopyOut(bp: array<u8>, to: nat, from: nat, size: nat)
      requires bp != mem && to + size <= bp.Length && from + size <= mem.Length
      modifies bp
      ensures bp[..] == old(bp[..to]) + mem[from..from + size] + old(bp[to + size..])
    {
      forall i | 0 <= i < size {
        bp[to + i] := mem[from + i];
      }
    }

    /** The interrupt side fills the buffer it was given; nothing posted is touched. */
    method FillEmptyBuffer(buf: nat, payload: seq<u8>)
      requires Valid() && !IsFullI() && buf == bwrptr + SIZEOF_SIZE_T && |payload| <= st.cap
      modifies mem
      ensures Valid() && buf + |payload| <= mem.Length && mem[buf..buf + |payload|] == payload
    {
      hide Offset, S.Inv, S.Shape, S.Held, SlotHolds, QueueHolds, OnlySlotChanged;
      Sizes();
      ghost var mem0 := mem[..];
      CopyIn(buf, payload);
      ghost var mem1 := mem[..];
      assert OnlySlotChanged(mem0, mem1, words[..], words[..], bwrptr, bsize) by {
        assert mem0[buf..buf] == [];
        ChunkWritten(mem0, mem1, words[..], bwrptr, bsize, [], payload);
      }
      FreeSlotWrite(mem0, mem1, words[..], words[..], bsize, bn, ri, st.queued);
    }

    /** `ibqPostFullBufferI`: the first `size` bytes of the write slot are posted. */
    method PostFullBufferI(size: nat, ghost payload: seq<u8>)
      requires Valid() && 0 < size <= bsize - SIZEOF_SIZE_T && !IsFullI()
      requires bwrptr + SIZEOF_SIZE_T + size <= mem.Length
      requires payload == mem[bwrptr + SIZEOF_SIZE_T..bwrptr + SIZEOF_SIZE_T + size]
      modifies this, words
      ensures Valid() && ptr == old(ptr)
      ensures st == S.Step(old(st), S.Post(payload))
      ensures st == old(st).(queued := old(st).queued + [payload], posted := old(st).posted + [payload])
    {
      hide Offset, S.Held, S.Inv, QueueHolds;
      QueueIndex(mem[..], words[..], bsize, bn, ri, st.queued);
      S.StepKeepsInv(st, S.Post(payload));
      SizePosted(mem[..], words[..], bsize, bn, ri, st.queued, size);
      assert payload == mem[..][bwrptr + SIZEOF_SIZE_T..bwrptr + SIZEOF_SIZE_T + size];
      ghost var words' := words[..][bwrptr := size];
      words[bwrptr] := size;
      assert words[..] == words';
      NextSlot(wi, bn, bsize);
      bcounter := bcounter + 1;
      bwrptr := bwrptr + bsize;
      if bwrptr >= btop {
        bwrptr := 0;
      }
      st, wi := S.Step(st, S.Post(payload)), Wrap(wi + 1, bn);
      NextSlot(wi, bn, bsize);
    }

    /** `ibqReleaseEmptyBufferS`: the first buffer leaves the queue. */
    method ReleaseEmptyBufferS()
      requires Ring() && !IsEmptyI()
      modifies this
      ensures Ring() && ptr == None
      ensures st == old(st).(queued := old(st).queued[1..], cur := None)
    {
      hide Offset, SlotHolds;
      NextSlot(ri, bn, bsize);
      ReleaseSlot(mem[..], words[..], bsize, bn, ri, st.queued);
      bcounter := bcounter - 1;
      brdptr := brdptr + bsize;
      if brdptr >= btop {
        brdptr := 0;
      }
      ptr := None;
      st, ri := st.(queued := st.queued[1..], cur := None), Wrap(ri + 1, bn);
      NextSlot(ri, bn, bsize);
    }

    /** The current buffer is never used up. */
    lemma Ahead()
      requires Valid() && ptr.Some?
      ensures ptr.value < top
    {
    }

    /** What lies at `ptr` is what the reader gets next. */
    lemma AtPtr(count: nat)
      requires Valid() && ptr.Some? && ptr.value + count <= top
      ensures ptr.value + count <= mem.Length && S.Enabled(st, S.Take(count))
      ensures mem[ptr.value..ptr.value + count] == S.Output(st, S.Take(count))
    {
      hide Offset, S.Inv, S.Held;
      FirstSlot(mem[..], words[..], bsize, bn, ri, st.queued);
      hide QueueHolds;
      SlotPart(mem[..], words[..], brdptr, st.queued[0], st.cur.value, count);
      assert mem[..][ptr.value..ptr.value + count] == mem[ptr.value..ptr.value + count];
    }

    /** Exactly `out` was taken from the front of the first packet, which is gone if nothing of it is left. */
    ghost predicate Taken(s: S.State, t: S.State, out: seq<u8>) {
      && s.cur.Some? && s.queued != []
      && s.cur.value + |out| <= |s.queued[0]|
      && out == s.queued[0][s.cur.value..s.cur.value + |out|]
      && t.posted == s.posted && t.delivered == s.delivered + out
      && if s.cur.value + |out| == |s.queued[0]| then t.queued == s.queued[1..] && t.cur == None
         else t.queued == s.queued && t.cur == Some(s.cur.value + |out|)
    }

    /** Moves `ptr` over `count` bytes, and releases the buffer when that finishes it. */
    method Consume(count: nat)
      requires Valid() && ptr.Some? && ptr.value + count <= top
      modifies this
      ensures Valid() && st == S.Step(old(st), S.Take(count))
      ensures Taken(old(st), st, old(mem[ptr.value..ptr.value + count]))
      ensures ptr.Some? ==> ptr.value == old(ptr.value) + count && top == old(top)
    {
      hide Offset, S.Held, QueueHolds;
      AtPtr(count);
      S.StepKeepsInv(st, S.Take(count));
      ghost var after := S.Step(st, S.Take(count));
      st := st.(delivered := st.delivered + S.Output(st, S.Take(count)), cur := Some(st.cur.value + count));
      ptr := Some(ptr.value + count);
      if ptr.value >= top {
        ReleaseEmptyBufferS();
      }
      assert st == after;
    }

    /** Any payload a buffer can take. */
    method SomePayload() returns (payload: seq<u8>)
      requires Valid()
      ensures 0 < |payload| <= bsize - SIZEOF_SIZE_T
    {
      Sizes();
      assert 0 < |[0]| <= bsize - SIZEOF_SIZE_T;
      payload :| 0 < |payload| <= bsize - SIZEOF_SIZE_T;
    }

    /** The driver posts some packet, if there is room. */
    method PostSomething() returns (ghost e: Option<S.Event>)
      requires Valid()
      modifies this, mem, words
      ensures Valid() && ptr == old(ptr)
      ensures e.None? <==> |old(st).queued| == bn
      ensures if e.Some? then e.value.Post? && S.Enabled(old(st), e.value) && st == S.Step(old(st), e.value)
              else st == old(st)
    {
      hide S.Held, S.Inv, S.Step, Consistent;
      Sizes();
      var buf := GetEmptyBufferI();
      if buf == None {
        return None;
      }
      var payload := SomePayload();
      FillEmptyBuffer(buf.value, payload);
      PostFullBufferI(|payload|, payload);
      return Some(S.Post(payload));
    }

    /** Whatever interrupt handlers do while the lock is open. */
    method Interference(clk: SystemTimer, drv: Driver) returns (ghost es: seq<S.Event>)
      requires Valid()
      modifies this, mem, words, clk, drv
      ensures Valid() && clk.ticks >= old(clk.ticks) && drv.resets <= old(drv.resets)
      ensures S.IsrOnly(es) && S.Trace(old(st), es, st, [])
      ensures drv.resets == old(drv.resets) ==> S.Reset !in es
      ensures S.Reset !in es ==> drv.resets == old(drv.resets) && ptr == old(ptr) && |st.queued| >= |old(st).queued|
      ensures old(ptr).None? ==> ptr.None?
    {
      hide Offset, S.Held, S.Trace, S.Inv, Ring;
      es := [];
      S.TraceNothing(st);
      var steps: int :| steps >= 0;
      while steps > 0
        invariant Valid() && clk.ticks >= old(clk.ticks) && drv.resets <= old(drv.resets)
        invariant S.IsrOnly(es) && S.Trace(old(st), es, st, [])
        invariant drv.resets == old(drv.resets) ==> S.Reset !in es
        invariant S.Reset !in es ==> drv.resets == old(drv.resets) && ptr == old(ptr) && |st.queued| >= |old(st).queued|
        invariant old(ptr).None? ==> ptr.None?
      {
        clk.Advance();
        ghost var before, e := st, None;
        var resets: bool := *;
        if resets && drv.resets > 0 {
          ResetI();
          drv.resets := drv.resets - 1;
          e := Some(S.Reset);
        } else {
          e := PostSomething();
        }
        if e.Some? {
          S.TraceStep(before, e.value);
          S.TraceQuiet(old(st), es, before, [], [e.value], st);
          es := es + [e.value];
        }
        steps := steps - 1;
      }
    }

    /**
     `osalThreadEnqueueTimeoutS` on this queue: the thread sleeps until a post, a reset or the timeout
     resumes it, at `woken`, and interrupts may run before it gets the processor back.
     */
    method EnqueueTimeoutS(timeout: nat, clk: SystemTimer, drv: Driver)
      returns (msg: Msg, ghost es: seq<S.Event>, ghost woken: nat)
      requires Valid() && IsEmptyI() && ptr.None? && timeout <= TIME_INFINITE
      modifies this, mem, words, clk, drv
      ensures Valid() && ptr.None? && clk.ticks >= woken >= old(clk.ticks) && drv.resets <= old(drv.resets)
      ensures S.IsrOnly(es) && S.Trace(old(st), es, st, [])
      ensures msg == MsgOk && IsEmptyI() ==> drv.resets < old(drv.resets) && S.Reset in es
      ensures timeout == TIME_IMMEDIATE ==> msg == MsgTimeout && es == [] && st == old(st) && clk.ticks == old(clk.ticks)
      ensures msg == MsgReset ==> S.Reset in es
      ensures timeout == TIME_INFINITE ==> msg != MsgTimeout
      ensures timeout != TIME_INFINITE ==> woken <= old(clk.ticks) + timeout
      ensures msg == MsgTimeout ==> woken == old(clk.ticks) + timeout
    {
      hide Offset, S.Held, S.Trace, S.Inv, QueueHolds;
      ghost var before := st;
      woken := clk.ticks;
      if timeout == TIME_IMMEDIATE {
        S.TraceNothing(st);
        return MsgTimeout, [], woken;
      }
      var expires := clk.Sleep(timeout);
      woken := clk.ticks;
      if expires {
        es := Interference(clk, drv);
        return MsgTimeout, es, woken;
      }
      ghost var e;
      var resets: bool := *;
      if resets && drv.resets > 0 {
        ResetI();
        drv.resets := drv.resets - 1;
        msg, e := MsgReset, S.Reset;
      } else {
        ghost var posted := PostSomething();
        msg, e := MsgOk, posted.value;
      }
      ghost var ready := st;
      S.TraceStep(before, e);
      es := Interference(clk, drv);
      S.TraceQuiet(before, [e], ready, [], es, st);
      es := [e] + es;
    }

    /** Sets up the current buffer and its boundary. */
    method StartReading()
      requires Valid() && !IsEmptyI()
      modifies this`ptr, this`top, this`st
      ensures Consistent() && ptr.Some? && st == S.Rewind(old(st))
    {
      hide Offset, S.Held, S.Inv;
      FirstSlot(mem[..], words[..], bsize, bn, ri, st.queued);
      ptr := Some(brdptr + SIZEOF_SIZE_T);
      top := brdptr + SIZEOF_SIZE_T + words[brdptr];
      st := S.Rewind(st);
    }

    /** `ibqGetFullBufferTimeoutS`. */
    method GetFullBufferTimeoutS(timeout: nat, clk: SystemTimer, drv: Driver)
      returns (msg: Msg, ghost es: seq<S.Event>, ghost ws: seq<Wait>)
      requires Valid() && timeout <= TIME_INFINITE
      modifies this, mem, words, clk, drv
      ensures Consistent() && clk.ticks >= old(clk.ticks)
      ensures old(ptr).None? ==> Valid() && ptr.Some? == (msg == MsgOk) && S.Trace(old(st), es, st, [])
      ensures old(ptr).Some? ==> msg == MsgOk && st == S.Rewind(old(st))
      ensures msg == MsgOk ==> st.cur == Some(0)
      ensures !old(IsEmptyI()) ==> ws == [] && clk.ticks == old(clk.ticks)
      ensures Whole(ws, old(clk.ticks), timeout) && (S.Reset !in es ==> AllFirst(ws))
      ensures timeout == TIME_INFINITE ==> msg != MsgTimeout
      ensures msg == MsgTimeout ==> TimedOut(ws) && clk.ticks >= old(clk.ticks) + timeout
      ensures msg == MsgReset ==> S.Reset in es
      ensures timeout == TIME_IMMEDIATE && msg != MsgOk ==> IsEmptyI() && msg == MsgTimeout && es == [] && st == old(st)
      ensures timeout == TIME_IMMEDIATE ==> clk.ticks == old(clk.ticks) && (msg == MsgOk <==> !old(IsEmptyI()))
    {
      hide Offset, S.Held, S.Trace, S.Inv, Ring;
      es, ws := [], [];
      ghost var waited := false;
      S.TraceNothing(st);
      while IsEmptyI()
        invariant Valid() && clk.ticks >= old(clk.ticks)
        invariant old(ptr).None? ==> ptr.None? && S.Trace(old(st), es, st, [])
        invariant old(ptr).Some? ==> st == old(st) && !IsEmptyI()
        invariant timeout == TIME_IMMEDIATE ==> st == old(st) && es == [] && clk.ticks == old(clk.ticks)
        invariant if waited then old(IsEmptyI()) else ws == [] && es == [] && clk.ticks == old(clk.ticks) && st == old(st)
        invariant Whole(ws, old(clk.ticks), timeout) && (S.Reset !in es ==> AllFirst(ws))
        invariant waited && IsEmptyI() ==> S.Reset in es
        decreases drv.resets, IsEmptyI()
      {
        ghost var before, more, from, woken := st, [], clk.ticks, 0;
        msg, more, woken := EnqueueTimeoutS(timeout, clk, drv);
        S.TraceQuiet(old(st), es, before, [], more, st);
        es := es + more;
        if timeout != TIME_INFINITE {
          ws := ws + [Wait(from, from + timeout, woken, !waited)];
        }
        waited := true;
        if msg != MsgOk {
          return;
        }
      }
      assert !IsEmptyI();
      ghost var before := st;
      StartReading();
      msg := MsgOk;
      if old(ptr).None? {
        S.StepKeepsInv(before, S.Acquire);
        S.TraceStep(before, S.Acquire);
        S.TraceQuiet(old(st), es, before, [], [S.Acquire], st);
        es := es + [S.Acquire];
      }
    }

    /** `ibqGetTimeout`. */
    method GetTimeout(timeout: nat, clk: SystemTimer, drv: Driver)
      returns (got: Got, ghost es: seq<S.Event>, ghost ws: seq<Wait>)
      requires Valid() && timeout <= TIME_INFINITE
      modifies this, mem, words, clk, drv
      ensures Valid()
      ensures S.Trace(old(st), es, st, if got.Byte? then [got.b] else [])
      ensures S.Reset !in es ==> st.delivered == old(st).delivered + if got.Byte? then [got.b] else []
      ensures Whole(ws, old(clk.ticks), timeout) && (S.Reset !in es ==> AllFirst(ws))
      ensures got != Failed(MsgOk)
      ensures timeout == TIME_INFINITE ==> got != Failed(MsgTimeout)
      ensures got == Failed(MsgReset) ==> S.Reset in es
      ensures timeout == TIME_IMMEDIATE && got.Failed? ==> IsEmptyI()
      ensures got == Failed(MsgTimeout) ==> TimedOut(ws) && clk.ticks >= old(clk.ticks) + timeout
    {
      hide Offset, S.Held, S.Trace, S.Inv, QueueHolds, Ring, Taken;
      es, ws := [], [];
      S.TraceNothing(st);
      if ptr == None {
        var msg;
        msg, es, ws := GetFullBufferTimeoutS(timeout, clk, drv);
        if msg != MsgOk {
          if S.Reset !in es {
            S.TraceDelivers(old(st), es, st, []);
          }
          return Failed(msg), es, ws;
        }
      }
      AtPtr(1);
      var b := mem[ptr.value];
      assert mem[ptr.value..ptr.value + 1] == [b];
      ghost var before := st;
      Consume(1);
      S.TraceStep(before, S.Take(1));
      S.TraceChain(old(st), es, before, [], [S.Take(1)], st, [b]);
      assert [] + [b] == [b];
      es := es + [S.Take(1)];
      if S.Reset !in es {
        S.TraceDelivers(old(st), es, st, [b]);
      }
      return Byte(b), es, ws;
    }

    /** A pass's acquisition of a buffer, under the deadline of the whole read. */
    method AcquireWithin(timeout: nat, deadline: nat, ghost start: nat, clk: SystemTimer, drv: Driver)
      returns (stop: Stop, ghost es: seq<S.Event>, ghost ws: seq<Wait>)
      requires Valid() && ptr.None? && timeout <= TIME_INFINITE && start <= clk.ticks
      requires deadline == Deadline(start, timeout)
      modifies this, mem, words, clk, drv
      ensures Valid() && ptr.Some? == (stop == Finished) && S.Trace(old(st), es, st, [])
      ensures start <= clk.ticks
      ensures Within(ws, start, timeout) && (S.Reset !in es ==> AllFirst(ws))
      ensures stop != Interrupted(MsgOk)
      ensures timeout == TIME_INFINITE ==> stop.Finished? || stop == Interrupted(MsgReset)
      ensures stop == DeadlinePassed ==> clk.ticks - start > timeout && es == []
      ensures stop == Interrupted(MsgTimeout) ==> TimedOut(ws) && clk.ticks - start >= timeout
      ensures stop == Interrupted(MsgReset) ==> S.Reset in es
      ensures timeout == TIME_IMMEDIATE && stop != Finished ==> IsEmptyI()
    {
      hide Valid, S.Trace, TimedOut, AllFirst, Within, Whole, SystimeSub, Deadline;
      ghost var entry := clk.ticks;
      var msg;
      if timeout == TIME_INFINITE || timeout == TIME_IMMEDIATE {
        msg, es, ws := GetFullBufferTimeoutS(timeout, clk, drv);
        WholeIsWithin(ws, entry, start, timeout);
      } else {
        var now := clk.GetSystemTimeX();
        ghost var time := clk.ticks;
        var nextTimeout := SystimeSub(deadline, now);
        DeadlinePass(start, timeout, clk.ticks - start);
        if nextTimeout > timeout {
          S.TraceNothing(st);
          NoWaits(start, timeout);
          return DeadlinePassed, [], [];
        }
        msg, es, ws := GetFullBufferTimeoutS(nextTimeout, clk, drv);
        WholeOfRest(ws, start, timeout, time, nextTimeout);
      }
      stop := if msg == MsgOk then Finished else Interrupted(msg);
    }

    /** Copies `size` bytes out of the current buffer, and releases the buffer when that finishes it. */
    method Deliver(bp: array<u8>, r: nat, size: nat)
      requires Valid() && bp != mem && ptr.Some? && ptr.value + size <= top && r + size <= bp.Length
      modifies this, bp
      ensures Valid() && S.Enabled(old(st), S.Take(size)) && st == S.Step(old(st), S.Take(size))
      ensures bp[..r] == old(bp[..r]) && bp[r + size..] == old(bp[..])[r + size..]
      ensures bp[r..r + size] == S.Output(old(st), S.Take(size)) && Taken(old(st), st, bp[r..r + size])
      ensures ptr.Some? ==> old(ptr.value) + size < old(top)
    {
      hide Taken, Offset, S.Held, S.Inv, Ring, Consistent, S.Step, S.Output, S.Enabled;
      AtPtr(size);
      ghost var bp0, out := bp[..], mem[ptr.value..ptr.value + size];
      CopyOut(bp, r, ptr.value, size);
      Assembled(bp[..], bp0, r, out);
      Consume(size);
      if ptr.Some? {
        Ahead();
      }
    }

    /** One pass of `ibqReadTimeout`, from lock to unlock: a buffer if need be, then one chunk. */
    method ReadPass(bp: array<u8>, n: nat, r: nat, timeout: nat, deadline: nat, ghost start: nat,
                    clk: SystemTimer, drv: Driver)
      returns (done: nat, ghost es: seq<S.Event>, ghost ws: seq<Wait>, stop: Stop)
      requires Valid() && bp != mem && r <= n <= bp.Length && timeout <= TIME_INFINITE && start <= clk.ticks
      requires deadline == Deadline(start, timeout)
      modifies this, mem, words, bp, clk, drv
      ensures Valid() && start <= clk.ticks && r <= done <= n && done <= r + 64
      ensures S.Trace(old(st), es, st, bp[r..done])
      ensures bp[..r] == old(bp[..r]) && bp[done..] == old(bp[..])[done..]
      ensures if stop == Finished then r < n ==> r < done else done == r
      ensures stop == Finished && done < n && done < r + 64 ==> ptr.None?
      ensures Within(ws, start, timeout) && (S.Reset !in es ==> AllFirst(ws))
      ensures stop != Interrupted(MsgOk)
      ensures timeout == TIME_INFINITE ==> stop.Finished? || stop == Interrupted(MsgReset)
      ensures stop == DeadlinePassed ==> clk.ticks - start > timeout
      ensures stop == Interrupted(MsgTimeout) ==> TimedOut(ws) && clk.ticks - start >= timeout
      ensures stop == Interrupted(MsgReset) ==> S.Reset in es
      ensures timeout == TIME_IMMEDIATE && stop != Finished ==> IsEmptyI()
    {
      hide S.Trace, Valid, S.Step, S.Output, S.Enabled, Taken, Within, TimedOut, AllFirst;
      es, ws, stop, done := [], [], Finished, r;
      NoWaits(start, timeout);
      S.TraceNothing(st);
      assert bp[r..r] == [];
      if ptr == None {
        stop, es, ws := AcquireWithin(timeout, deadline, start, clk, drv);
        if stop != Finished {
          return;
        }
      }
      Ahead();
      var size := top - ptr.value;
      if size > n - r {
        size := n - r;
      }
      if size > 64 {
        size := 64;
      }
      ghost var before, e := st, S.Take(size);
      Deliver(bp, r, size);
      S.TraceStep(before, e);
      S.TraceChain(old(st), es, before, [], [e], st, bp[r..r + size]);
      assert [] + bp[r..r + size] == bp[r..r + size];
      es, done := es + [e], r + size;
    }

    /** `ibqReadTimeout`: the lock is open between the passes. */
    method ReadTimeout(bp: array<u8>, n: nat, timeout: nat, clk: SystemTimer, drv: Driver)
      returns (r: nat, ghost es: seq<S.Event>, ghost start: nat, ghost ws: seq<Wait>, ghost stop: Stop)
      requires Valid() && bp != mem && n <= bp.Length && timeout <= TIME_INFINITE
      modifies this, mem, words, bp, clk, drv
      ensures Valid() && r <= n
      ensures S.Trace(old(st), es, st, bp[..r])
      ensures S.Reset !in es ==> st.delivered == old(st).delivered + bp[..r]
      ensures bp[r..] == old(bp[..])[r..]
      ensures r < n ==> S.Reset in es || (timeout != TIME_INFINITE && clk.ticks - old(clk.ticks) >= timeout)
      ensures old(clk.ticks) <= start <= clk.ticks && Within(ws, start, timeout)
      ensures S.Reset !in es && TIME_IMMEDIATE < timeout < TIME_INFINITE ==> EndsAtDeadline(ws, start, timeout)
      ensures stop != Interrupted(MsgOk)
      ensures stop == Finished ==> r == n
      ensures timeout == TIME_INFINITE ==> stop.Finished? || stop == Interrupted(MsgReset)
      ensures stop == DeadlinePassed ==> clk.ticks - old(clk.ticks) > timeout
      ensures stop == Interrupted(MsgTimeout) ==> TimedOut(ws) && clk.ticks - old(clk.ticks) >= timeout
      ensures stop == Interrupted(MsgReset) ==> S.Reset in es
      ensures timeout == TIME_IMMEDIATE && stop != Finished ==> IsEmptyI()
    {
      hide Offset, S.Held, S.Trace, S.Inv, Consistent, Within, TimedOut, AllFirst, EndsAtDeadline;
      r, es, ws, stop := 0, [], [], Finished;
      S.TraceNothing(st);
      assert bp[..0] == [];
      var now := clk.GetSystemTimeX();
      start := clk.ticks;
      NoWaits(start, timeout);
      var deadline := (now + timeout) % SYSTIME_RANGE;
      while true
        invariant Valid() && r <= n && (r < n || n == 0)
        invariant old(clk.ticks) <= start <= clk.ticks && stop == Finished
        invariant S.Trace(old(st), es, st, bp[..r])
        invariant bp[r..] == old(bp[..])[r..]
        invariant Within(ws, start, timeout) && (S.Reset !in es ==> AllFirst(ws))
        decreases n - r
      {
        ghost var before, front, cells := st, bp[..r], bp[..];
        var done, more, waits, outcome := ReadPass(bp, n, r, timeout, deadline, start, clk, drv);
        S.TraceChain(old(st), es, before, front, more, st, bp[r..done]);
        FrontGrows(bp[..], r, done);
        SameFrom(cells, old(bp[..]), r, done);
        WithinJoins(ws, waits, start, timeout);
        LastOfJoined(ws, waits);
        es, ws, r, stop := es + more, ws + waits, done, outcome;
        if outcome != Finished || r >= n {
          break;
        }
        before, front := st, bp[..r];
        more := Interference(clk, drv);
        S.TraceQuiet(old(st), es, before, front, more, st);
        es := es + more;
      }
      assert stop.Interrupted? ==> stop.msg.MsgOk? || stop.msg.MsgTimeout? || stop.msg.MsgReset?;
      if S.Reset !in es {
        S.TraceDelivers(old(st), es, st, bp[..r]);
        if TIME_IMMEDIATE < timeout < TIME_INFINITE {
          WithinEndsAtDeadline(ws, start, timeout);
        }
      }
    }
  }

  lemma Assembled(s: seq<u8>, before: seq<u8>, r: nat, out: seq<u8>)
    requires r + |out| <= |before| && s == before[..r] + out + before[r + |out|..]
    ensures |s| == |before| && s[..r] == before[..r] && s[r..r + |out|] == out
    ensures s[r + |out|..] == before[r + |out|..]
  {
  }
}
