/** The polling task of the keys, and the record of what it signals. */
module Keys {
  import opened KeyTrace

  /** One call of `chEvtSignalI` for the application thread. */
  datatype Sent = Sent(key: nat, what: What, mask: nat)

  function Calls(i: nat, c: KeyData, ws: seq<What>): seq<Sent> {
    if ws == [] then [] else Calls(i, c, ws[..|ws| - 1]) + [Sent(i, ws[|ws| - 1], Mask(c, ws[|ws| - 1]))]
  }

  /** What key `i` signalled. */
  function OfKey(sent: seq<Sent>, i: nat): seq<What> {
    if sent == [] then []
    else
      var last := sent[|sent| - 1];
      OfKey(sent[..|sent| - 1], i) + if last.key == i then [last.what] else []
  }

  lemma OfKeySnoc(sent: seq<Sent>, k: nat, e: Sent)
    ensures OfKey(sent + [e], k) == OfKey(sent, k) + if e.key == k then [e.what] else []
  {
    var all := sent + [e];
    assert all[..|all| - 1] == sent;
  }

  lemma {:induction false} OfKeyAfterCalls(sent: seq<Sent>, k: nat, i: nat, c: KeyData, ws: seq<What>)
    ensures OfKey(sent + Calls(i, c, ws), k) == if k == i then OfKey(sent, k) + ws else OfKey(sent, k)
  {
    hide OfKey;
    if ws == [] {
      assert sent + Calls(i, c, ws) == sent;
      assert OfKey(sent, k) + ws == OfKey(sent, k);
    } else {
      var front, last := ws[..|ws| - 1], ws[|ws| - 1];
      var e := Sent(i, last, Mask(c, last));
      OfKeyAfterCalls(sent, k, i, c, front);
      OfKeySnoc(sent + Calls(i, c, front), k, e);
      assert sent + Calls(i, c, ws) == sent + Calls(i, c, front) + [e];
      if k == i {
        assert OfKey(sent, k) + front + [last] == OfKey(sent, k) + ws;
      } else {
        assert OfKey(sent, k) + [] == OfKey(sent, k);
      }
    }
  }

  lemma {:induction false} CallsAppend(i: nat, c: KeyData, a: seq<What>, b: seq<What>)
    ensures Calls(i, c, a + b) == Calls(i, c, a) + Calls(i, c, b)
    decreases |b|
  {
    if b == [] {
      assert a + b == a;
    } else {
      CallsAppend(i, c, a, b[..|b| - 1]);
      assert (a + b)[..|a + b| - 1] == a + b[..|b| - 1];
    }
  }

  lemma {:induction false} CallsAreOfKey(i: nat, c: KeyData, ws: seq<What>)
    ensures forall e :: e in Calls(i, c, ws) ==> e == Sent(i, e.what, Mask(c, e.what))
  {
    if ws != [] {
      CallsAreOfKey(i, c, ws[..|ws| - 1]);
    }
  }

  /** Everything a key reports agrees with the history of its polls. */
  predicate Agrees(c: KeyData, k: Key, h: seq<Poll>, reported: seq<What>, now: nat) {
    && InOrder(h) && (h != [] ==> h[|h| - 1].later <= now)
    && k == After(c, h, |h|) && reported == Signals(c, h, |h|)
  }

  lemma AgreesAfterPoll(c: KeyData, k: Key, h: seq<Poll>, reported: seq<What>, now: nat, p: Poll)
    requires Agrees(c, k, h, reported, now) && now <= p.at <= p.later
    ensures Agrees(c, Step(c, k, p).0, h + [p], reported + Step(c, k, p).1, p.later)
  {
    hide Step;
    var g := h + [p];
    PollsToCome(c, h, p, |h|);
    assert g[..|h|] == h && g[|h|] == p;
  }

  /** The event flags raised are those the key's data has for what happened. */
  predicate HasItsMask(c: KeyData, e: Sent) {
    && (e.what == Press ==> e.mask == c.press)
    && (e.what == Release ==> e.mask == c.release)
    && (e.what == Repeat ==> e.mask == c.repeat)
    && (e.what == LongPress ==> e.mask == c.longPress)
  }

  lemma CallsHaveTheirMasks(i: nat, c: KeyData, ws: seq<What>)
    ensures forall e :: e in Calls(i, c, ws) ==> e.key == i && HasItsMask(c, e)
  {
    hide Calls;
    CallsAreOfKey(i, c, ws);
  }

  predicate AllAgree(cs: seq<KeyData>, ks: seq<Key>, hs: seq<seq<Poll>>, sent: seq<Sent>, now: nat) {
    && |cs| == |ks| == |hs|
    && (forall i :: 0 <= i < |cs| ==> Agrees(cs[i], ks[i], hs[i], OfKey(sent, i), now))
    && forall e :: e in sent ==> e.key < |cs| && HasItsMask(cs[e.key], e)
  }

  lemma AllAgreeAfterPoll(cs: seq<KeyData>, ks: seq<Key>, hs: seq<seq<Poll>>, sent: seq<Sent>, now: nat, i: nat, p: Poll)
    requires AllAgree(cs, ks, hs, sent, now) && i < |cs| && now <= p.at <= p.later
    ensures var s := Step(cs[i], ks[i], p);
            AllAgree(cs, ks[i := s.0], hs[i := hs[i] + [p]], sent + Calls(i, cs[i], s.1), p.later)
  {
    hide Step, OfKey, After, Signals, InOrder, Mask, Calls, HasItsMask;
    var ws := Step(cs[i], ks[i], p).1;
    AgreesAfterPoll(cs[i], ks[i], hs[i], OfKey(sent, i), now, p);
    CallsHaveTheirMasks(i, cs[i], ws);
    forall k | 0 <= k < |cs|
      ensures OfKey(sent + Calls(i, cs[i], ws), k) == if k == i then OfKey(sent, k) + ws else OfKey(sent, k)
    {
      OfKeyAfterCalls(sent, k, i, cs[i], ws);
    }
  }

  /** `h'` is `h` and one poll more, which read `down` at `since` or later. */
  predicate OnePollMore(h: seq<Poll>, h': seq<Poll>, down: bool, since: nat) {
    h' != [] && h'[..|h'| - 1] == h && h'[|h'| - 1].down == down && h'[|h'| - 1].at >= since
  }

  lemma OneMore(h: seq<Poll>, p: Poll, since: nat)
    requires p.at >= since
    ensures OnePollMore(h, h + [p], p.down, since)
  {
    assert (h + [p])[..|h|] == h;
  }

  /** The system clock: `ticks` is the true time, of which `Now` shows the low 32 bits. */
  class Clock {
    var ticks: nat

    constructor ()
    {
      ticks := 0;
    }

    method Now() returns (t: nat)
      ensures t == ticks % TURN
    {
      return ticks % TURN;
    }

    /** Any time passes. */
    method Run()
      modifies this
      ensures ticks >= old(ticks)
    {
      var n: int :| n >= 0;
      ticks := ticks + n;
    }
  }

  /** A 32-bit timer set at time `t`. */
  predicate Shows(timer: nat, t: nat) {
    timer == t % TURN
  }

  class KeysTask {
    const keyData: seq<KeyData>
    const Key: array<Key>
    const clock: Clock
    ghost var polls: seq<seq<Poll>>  // of each key
    ghost var sent: seq<Sent>

    ghost predicate Shape()
      reads this
    {
      |keyData| == Key.Length == |polls|
    }

    ghost predicate Valid()
      reads this, Key, clock
    {
      Shape() && AllAgree(keyData, Key[..], polls, sent, clock.ticks)
    }

    constructor (data: seq<KeyData>, clock: Clock)
      ensures Valid() && keyData == data && this.clock == clock && fresh(Key)
      ensures sent == [] && polls == seq(|data|, _ => [])
    {
      keyData := data;
      Key := new Key[|data|](_ => Untouched);
      this.clock := clock;
      polls := seq(|data|, _ => []);
      sent := [];
    }

    method SignalI(i: nat, what: What)
      requires i < |keyData|
      modifies this`sent
      ensures sent == old(sent) + [Sent(i, what, Mask(keyData[i], what))]
    {
      sent := sent + [Sent(i, what, Mask(keyData[i], what))];
    }

    /**
     `TimeElapsed`, for a timer that was set at some time `t0` and shows its low 32 bits.  It never reports a
     delay that has not truly passed since, misses one only if the clock has turned over, and leaves the timer
     showing the time of its latest report, or `t0` still.
     */
    method TimeElapsed(since: nat, delay: nat) returns (elapsed: bool, timer: nat)
      ensures forall t0: nat | t0 <= clock.ticks && Shows(since, t0) ::
                && (elapsed ==> clock.ticks - t0 > delay)
                && (!elapsed ==> clock.ticks - t0 <= delay || clock.ticks - t0 >= TURN)
                && Shows(timer, if elapsed then clock.ticks else t0)
      ensures elapsed == Elapsed(since, clock.ticks, delay)
      ensures timer == if elapsed then clock.ticks % TURN else since
    {
      var now := clock.Now();
      elapsed := (now - since) % TURN > delay;
      timer := if elapsed then now else since;
      forall t0: nat | t0 <= clock.ticks && Shows(since, t0)
        ensures elapsed ==> clock.ticks - t0 > delay
        ensures !elapsed ==> clock.ticks - t0 <= delay || clock.ticks - t0 >= TURN
      {
        ElapsedIsTrueTime(t0, clock.ticks, delay);
      }
    }

    method JustPressed(i: nat)
      requires Shape() && i < |keyData| && !Key[i].isPressed
      modifies this`sent, Key
      ensures Key[..] == old(Key[..])[i := Step(keyData[i], old(Key[i]), Poll(true, clock.ticks, clock.ticks)).0]
      ensures sent == old(sent) + Calls(i, keyData[i], [Press])
    {
      var now := clock.Now();
      Key[i] := Key[i].(isPressed := true, isLongPress := false, isRepeating := false);
      SignalI(i, Press);
      Key[i] := Key[i].(repeatTimer := now, longPressTimer := now);
      assert Calls(i, keyData[i], [Press]) == [Sent(i, Press, Mask(keyData[i], Press))];
    }

    method JustReleased(i: nat)
      requires Shape() && i < |keyData| && Key[i].isPressed
      modifies this`sent, Key
      ensures var s := Step(keyData[i], old(Key[i]), Poll(false, clock.ticks, clock.ticks));
              Key[..] == old(Key[..])[i := s.0] && sent == old(sent) + Calls(i, keyData[i], s.1)
    {
      Key[i] := Key[i].(isPressed := false);
      if !Key[i].isLongPress {
        SignalI(i, Release);
        assert Calls(i, keyData[i], [Release]) == [Sent(i, Release, Mask(keyData[i], Release))];
      }
    }

    method CheckLongPress(i: nat)
      requires Shape() && i < |keyData|
      modifies this`sent, Key
      ensures var s := AskLongPress(keyData[i], old(Key[i]), clock.ticks);
              Key[..] == old(Key[..])[i := s.0] && sent == old(sent) + Calls(i, keyData[i], s.1)
    {
      if !Key[i].isLongPress && keyData[i].longPress != EVTMSK_NOTHING {
        var elapsed, timer := TimeElapsed(Key[i].longPressTimer, LONGPRESS);
        Key[i] := Key[i].(longPressTimer := timer);
        if elapsed {
          Key[i] := Key[i].(isLongPress := true);
          SignalI(i, LongPress);
          assert Calls(i, keyData[i], [LongPress]) == [Sent(i, LongPress, Mask(keyData[i], LongPress))];
        }
      }
    }

    method CheckRepeat(i: nat)
      requires Shape() && i < |keyData|
      modifies this`sent, Key
      ensures var s := AskRepeat(keyData[i], old(Key[i]), clock.ticks);
              Key[..] == old(Key[..])[i := s.0] && sent == old(sent) + Calls(i, keyData[i], s.1)
    {
      if keyData[i].repeat != EVTMSK_NOTHING {
        var elapsed, timer;
        if !Key[i].isRepeating {
          elapsed, timer := TimeElapsed(Key[i].repeatTimer, BEFORE_REPEAT);
          Key[i] := Key[i].(repeatTimer := timer);
          if elapsed {
            Key[i] := Key[i].(isRepeating := true);
            SignalI(i, Repeat);
          }
        } else {
          elapsed, timer := TimeElapsed(Key[i].repeatTimer, REPEAT_PERIOD);
          Key[i] := Key[i].(repeatTimer := timer);
          if elapsed {
            SignalI(i, Repeat);
          }
        }
        assert Calls(i, keyData[i], [Repeat]) == [Sent(i, Repeat, Mask(keyData[i], Repeat))];
      }
    }

    /** The branch of a key that is still down: time may pass between the two locked looks at the clock. */
    method StillDown(i: nat) returns (ghost p: Poll)
      requires Shape() && i < |keyData| && Key[i].isPressed
      modifies this`sent, Key, clock
      ensures p.down && old(clock.ticks) == p.at <= p.later == clock.ticks
      ensures Key[..] == old(Key[..])[i := Step(keyData[i], old(Key[i]), p).0]
      ensures sent == old(sent) + Calls(i, keyData[i], Step(keyData[i], old(Key[i]), p).1)
    {
      hide AskLongPress, AskRepeat, Calls;
      ghost var c, k, heard := keyData[i], Key[i], sent;
      p := Poll(true, clock.ticks, clock.ticks);
      ghost var long := AskLongPress(c, k, p.at);
      CheckLongPress(i);
      clock.Run();
      p := p.(later := clock.ticks);
      ghost var again := AskRepeat(c, long.0, p.later);
      CheckRepeat(i);
      CallsAppend(i, c, long.1, again.1);
      assert heard + Calls(i, c, long.1) + Calls(i, c, again.1) == heard + Calls(i, c, long.1 + again.1);
    }

    /** One turn of the loop over the keys; time may pass between the two locked looks at the clock. */
    method Visit(i: nat, down: bool) returns (ghost p: Poll)
      requires Shape() && i < |keyData|
      modifies this`sent, Key, clock
      ensures p.down == down && old(clock.ticks) <= p.at <= p.later == clock.ticks
      ensures Key[..] == old(Key[..])[i := Step(keyData[i], old(Key[i]), p).0]
      ensures sent == old(sent) + Calls(i, keyData[i], Step(keyData[i], old(Key[i]), p).1)
    {
      hide AskLongPress, AskRepeat, Mask;
      clock.Run();
      p := Poll(down, clock.ticks, clock.ticks);
      if down && !Key[i].isPressed {
        JustPressed(i);
      } else if !down && Key[i].isPressed {
        JustReleased(i);
      } else if down && Key[i].isPressed {
        p := StillDown(i);
      }
    }

    /** A visit, put on record. */
    method PollKey(i: nat, down: bool) returns (ghost p: Poll)
      requires Valid() && i < |keyData|
      modifies this`sent, this`polls, Key, clock
      ensures Valid() && p.down == down && old(clock.ticks) <= p.at <= p.later == clock.ticks
      ensures polls == old(polls)[i := old(polls)[i] + [p]] && old(sent) <= sent
    {
      hide AllAgree, Step;
      ghost var was, heard, time := Key[..], sent, clock.ticks;
      p := Visit(i, down);
      AllAgreeAfterPoll(keyData, was, polls, heard, time, i, p);
      polls := polls[i := polls[i] + [p]];
    }

    /** The flags raised so far are the right ones. */
    lemma MasksAreRight()
      requires Valid()
      ensures forall e | e in sent :: e.key < |keyData| && HasItsMask(keyData[e.key], e)
    {
      hide Agrees;
    }

    /** `ITask` past its sleep, the pins being read as `down`. */
    method ITask(appReady: bool, down: seq<bool>)
      requires Valid() && |down| == |keyData|
      modifies this`sent, this`polls, Key, clock
      ensures Valid() && clock.ticks >= old(clock.ticks) && old(sent) <= sent
      ensures forall e | e in sent :: e.key < |keyData| && HasItsMask(keyData[e.key], e)
      ensures !appReady ==> polls == old(polls) && sent == old(sent)
      ensures appReady ==> forall i :: 0 <= i < |keyData| ==> OnePollMore(old(polls)[i], polls[i], down[i], old(clock.ticks))
    {
      hide AllAgree, HasItsMask, OnePollMore;
      MasksAreRight();
      if !appReady {
        return;
      }
      var i := 0;
      while i < |keyData|
        invariant 0 <= i <= |keyData| && Valid() && clock.ticks >= old(clock.ticks) && old(sent) <= sent
        invariant forall k :: 0 <= k < i ==> OnePollMore(old(polls)[k], polls[k], down[k], old(clock.ticks))
        invariant forall k :: i <= k < |keyData| ==> polls[k] == old(polls)[k]
      {
        ghost var before := polls;
        ghost var p := PollKey(i, down[i]);
        OneMore(before[i], p, old(clock.ticks));
        i := i + 1;
      }
      MasksAreRight();
    }
  }
}
