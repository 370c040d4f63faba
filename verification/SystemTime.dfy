/** The 16-bit system clock and the deadline arithmetic of the blocking calls. */
module SystemTime {

  const TIME_IMMEDIATE: nat := 0
  const TIME_INFINITE: nat := 0xFFFF
  const SYSTIME_RANGE: nat := 0x10000

  /** `systime_t` subtraction. */
  function SystimeSub(a: int, b: int): nat {
    (a - b) % SYSTIME_RANGE
  }

  function Deadline(start: nat, timeout: nat): nat {
    (start + timeout) % SYSTIME_RANGE
  }

  /**
   What a pass of the read and write loops computes `elapsed` ticks after the loop began: it gives up
   exactly when the elapsed time, as far as 16 bits show it, is past the timeout; otherwise the next
   wait is exactly the rest of the timeout and is never mistaken for an infinite one.
   */
  lemma DeadlinePass(start: nat, timeout: nat, elapsed: nat)
    requires TIME_IMMEDIATE < timeout < TIME_INFINITE
    ensures var next := SystimeSub(Deadline(start, timeout), (start + elapsed) % SYSTIME_RANGE);
            && (next > timeout <==> elapsed % SYSTIME_RANGE > timeout)
            && (next <= timeout ==> next == timeout - elapsed % SYSTIME_RANGE && next != TIME_INFINITE)
  {
    var q, e := elapsed / SYSTIME_RANGE, elapsed % SYSTIME_RANGE;
    var d, t := Deadline(start, timeout), (start + elapsed) % SYSTIME_RANGE;
    var m := (start + timeout) / SYSTIME_RANGE - (start + elapsed) / SYSTIME_RANGE;
    assert d - t == timeout - e - (m + q) * SYSTIME_RANGE;
    assert -1 <= m + q <= 1;
  }

  /** Within one turn of the clock the two notions of elapsed time agree. */
  lemma DeadlineWithinOneTurn(start: nat, timeout: nat, elapsed: nat)
    requires TIME_IMMEDIATE < timeout < TIME_INFINITE && elapsed < SYSTIME_RANGE
    ensures var next := SystimeSub(Deadline(start, timeout), (start + elapsed) % SYSTIME_RANGE);
            && (next > timeout <==> elapsed > timeout)
            && (elapsed <= timeout ==> next == timeout - elapsed < TIME_INFINITE)
  {
    DeadlinePass(start, timeout, elapsed);
  }

  /** A timeout is missed exactly when the clock has turned over since and shows too little. */
  lemma ExpiryMissedIff(start: nat, timeout: nat, elapsed: nat)
    requires TIME_IMMEDIATE < timeout < TIME_INFINITE && elapsed > timeout
    ensures SystimeSub(Deadline(start, timeout), (start + elapsed) % SYSTIME_RANGE) <= timeout
        <==> elapsed >= SYSTIME_RANGE && elapsed % SYSTIME_RANGE <= timeout
  {
    DeadlinePass(start, timeout, elapsed);
  }

  /**
   A wait with a finite timeout: it begins at `from`, the timeout would end it at `until`, and something,
   the timeout perhaps, ends it at `woken`.  `first` is false for a wait that is entered again because a
   reset emptied the queue between the wake-up and the thread's running.
   */
  datatype Wait = Wait(from: nat, until: nat, woken: nat, first: bool)

  /** The waits of one call that asks for the whole `timeout`, begun at `start`. */
  predicate Whole(ws: seq<Wait>, start: nat, timeout: nat) {
    && (timeout == TIME_INFINITE ==> ws == [])
    && forall w | w in ws ::
         && start <= w.from <= w.woken <= w.until == w.from + timeout
         && (w.first ==> w.from == start)
  }

  /** The waits of a block transfer begun at `start`: each asks for what is left of the timeout. */
  predicate Within(ws: seq<Wait>, start: nat, timeout: nat) {
    && (timeout == TIME_INFINITE ==> ws == [])
    && forall w | w in ws ::
         && start <= w.from <= w.woken <= w.until
         && (timeout == TIME_IMMEDIATE ==> w.until == w.from)
         && (w.first && timeout > TIME_IMMEDIATE ==> w.until - w.from == timeout - (w.from - start) % SYSTIME_RANGE)
  }

  predicate AllFirst(ws: seq<Wait>) {
    forall w | w in ws :: w.first
  }

  /** Every wait entered within one turn of the clock ends at the deadline at the latest. */
  predicate EndsAtDeadline(ws: seq<Wait>, start: nat, timeout: nat) {
    forall w | w in ws && w.from - start < SYSTIME_RANGE :: w.woken <= w.until == start + timeout
  }

  lemma WithinEndsAtDeadline(ws: seq<Wait>, start: nat, timeout: nat)
    requires Within(ws, start, timeout) && TIME_IMMEDIATE < timeout < TIME_INFINITE
    requires AllFirst(ws)
    ensures EndsAtDeadline(ws, start, timeout)
  {
  }

  lemma WithinJoins(ws: seq<Wait>, vs: seq<Wait>, start: nat, timeout: nat)
    requires Within(ws, start, timeout) && Within(vs, start, timeout)
    ensures Within(ws + vs, start, timeout)
    ensures AllFirst(ws) && AllFirst(vs) ==> AllFirst(ws + vs)
  {
  }

  /** A wait for the whole of a timeout ends on time exactly if it is entered when the call begins. */
  lemma EndsOnTimeIff(ws: seq<Wait>, start: nat, timeout: nat, w: Wait)
    requires Whole(ws, start, timeout) && w in ws
    ensures w.until == start + timeout <==> w.from == start
    ensures w.until >= start + timeout
  {
  }

  /** So a wait entered again, after a reset has emptied the queue meanwhile, lasts beyond the timeout. */
  lemma SecondWaitOverruns()
    ensures var ws := [Wait(0, 10, 9, true), Wait(9, 19, 19, false)];
            Whole(ws, 0, 10) && TimedOut(ws) && !EndsAtDeadline(ws, 0, 10)
  {
    var ws := [Wait(0, 10, 9, true), Wait(9, 19, 19, false)];
    assert ws[1] in ws && ws[1].until != 10;
  }

  /** A call that asks for the rest of the timeout at `now`. */
  lemma WholeOfRest(ws: seq<Wait>, start: nat, timeout: nat, now: nat, rest: nat)
    requires TIME_IMMEDIATE < timeout < TIME_INFINITE && start <= now && rest <= timeout
    requires rest == timeout - (now - start) % SYSTIME_RANGE && Whole(ws, now, rest)
    ensures Within(ws, start, timeout)
  {
  }

  /** The last wait, if it was ended by its timeout. */
  predicate TimedOut(ws: seq<Wait>) {
    ws != [] && ws[|ws| - 1].woken == ws[|ws| - 1].until
  }

  lemma WholeIsWithin(ws: seq<Wait>, now: nat, start: nat, timeout: nat)
    requires Whole(ws, now, timeout) && start <= now && (timeout == TIME_IMMEDIATE || timeout == TIME_INFINITE)
    ensures Within(ws, start, timeout)
  {
  }

  lemma NoWaits(start: nat, timeout: nat)
    ensures Within([], start, timeout) && AllFirst([])
  {
  }

  lemma LastOfJoined(ws: seq<Wait>, vs: seq<Wait>)
    ensures TimedOut(vs) ==> TimedOut(ws + vs)
  {
  }

  /** The clock: `ticks` counts for ever, the register shows its low 16 bits. */
  class SystemTimer {
    var ticks: nat

    constructor ()
      ensures ticks == 0
    {
      ticks := 0;
    }

    /** Time passes. */
    method Advance()
      modifies this
      ensures ticks >= old(ticks)
    {
      var more: int :| more >= 0;
      ticks := ticks + more;
    }

    /** A sleep with a timeout, which ends it unless something else does earlier. */
    method Sleep(timeout: nat) returns (expires: bool)
      modifies this
      ensures ticks >= old(ticks) && (timeout != TIME_INFINITE ==> ticks <= old(ticks) + timeout)
      ensures expires ==> timeout != TIME_INFINITE && ticks == old(ticks) + timeout
    {
      var slept: nat :| timeout != TIME_INFINITE ==> 0 <= slept <= timeout;
      var choice: bool := *;
      expires := choice && timeout != TIME_INFINITE;
      ticks := ticks + if expires then timeout else slept;
    }

    /** `osalOsGetSystemTimeX`; some time may have passed since the last look. */
    method GetSystemTimeX() returns (now: nat)
      modifies this
      ensures ticks >= old(ticks) && now == ticks % SYSTIME_RANGE
    {
      Advance();
      now := ticks % SYSTIME_RANGE;
    }
  }
}
