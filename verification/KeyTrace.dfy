/** What one polled key reports, as a function of the history of its polls. */
module KeyTrace {
  const TURN: nat := 0x1_0000_0000  // of the 32-bit systime_t
  const BEFORE_REPEAT: nat := 999
  const REPEAT_PERIOD: nat := 504
  const LONGPRESS: nat := 3006
  const EVTMSK_NOTHING: nat := 0

  datatype What = Press | Release | LongPress | Repeat
  datatype KeyData = KeyData(press: nat, release: nat, repeat: nat, longPress: nat)
  datatype Key = Key(isPressed: bool, isRepeating: bool, isLongPress: bool, repeatTimer: nat, longPressTimer: nat)

  /** One visit to a key: the level read, and the true times of the two looks at the clock it may take. */
  datatype Poll = Poll(down: bool, at: nat, later: nat)

  const Untouched := Key(false, false, false, 0, 0)

  function Mask(c: KeyData, w: What): nat {
    match w
    case Press => c.press
    case Release => c.release
    case LongPress => c.longPress
    case Repeat => c.repeat
  }

  /** `TimeElapsed`'s test on the wrapping clock, for clock value `since` and true time `now`. */
  predicate Elapsed(since: nat, now: nat, delay: nat) {
    (now % TURN - since) % TURN > delay
  }

  function AskLongPress(c: KeyData, k: Key, now: nat): (Key, seq<What>) {
    if !k.isLongPress && c.longPress != EVTMSK_NOTHING && Elapsed(k.longPressTimer, now, LONGPRESS)
    then (k.(isLongPress := true, longPressTimer := now % TURN), [LongPress])
    else (k, [])
  }

  function RepeatDelay(repeating: bool): nat { if repeating then REPEAT_PERIOD else BEFORE_REPEAT }

  function AskRepeat(c: KeyData, k: Key, now: nat): (Key, seq<What>) {
    if c.repeat != EVTMSK_NOTHING && Elapsed(k.repeatTimer, now, RepeatDelay(k.isRepeating))
    then (k.(isRepeating := true, repeatTimer := now % TURN), [Repeat])
    else (k, [])
  }

  function Step(c: KeyData, k: Key, p: Poll): (Key, seq<What>) {
    if p.down && !k.isPressed then (Key(true, false, false, p.at % TURN, p.at % TURN), [Press])
    else if !p.down && k.isPressed then (k.(isPressed := false), if k.isLongPress then [] else [Release])
    else if p.down then
      var long := AskLongPress(c, k, p.at);
      var again := AskRepeat(c, long.0, p.later);
      (again.0, long.1 + again.1)
    else (k, [])
  }

  /** The key after the first `n` polls of `h`. */
  function After(c: KeyData, h: seq<Poll>, n: nat): Key
    requires n <= |h|
  {
    if n == 0 then Untouched else Step(c, After(c, h, n - 1), h[n - 1]).0
  }

  /** What poll `i` of `h` signals. */
  function Out(c: KeyData, h: seq<Poll>, i: nat): seq<What>
    requires i < |h|
  {
    Step(c, After(c, h, i), h[i]).1
  }

  function Signals(c: KeyData, h: seq<Poll>, n: nat): seq<What>
    requires n <= |h|
  {
    if n == 0 then [] else Signals(c, h, n - 1) + Out(c, h, n - 1)
  }

  lemma {:induction false} PollsToCome(c: KeyData, h: seq<Poll>, p: Poll, n: nat)
    requires n <= |h|
    ensures After(c, h + [p], n) == After(c, h, n) && Signals(c, h + [p], n) == Signals(c, h, n)
  {
    if n > 0 {
      PollsToCome(c, h, p, n - 1);
    }
  }

  predicate InOrder(h: seq<Poll>) {
    && (forall i :: 0 <= i < |h| ==> h[i].at <= h[i].later)
    && (forall i, j :: 0 <= i < j < |h| ==> h[i].later <= h[j].at)
  }

  predicate Begins(h: seq<Poll>, s: nat) {
    s < |h| && h[s].down && (s == 0 || !h[s - 1].down)
  }

  /** Polls `s` to `i` are one hold so far, `s` being the poll that found the key pressed. */
  predicate Hold(h: seq<Poll>, s: nat, i: nat) {
    && Begins(h, s) && s <= i < |h|
    && (forall k :: s <= k <= i ==> h[k].down)
  }

  predicate Gave(c: KeyData, h: seq<Poll>, s: nat, i: nat, w: What)
    requires i < |h|
  {
    exists j :: s < j <= i && w in Out(c, h, j)
  }

  /** The time of the hold's latest repeat, or of its press. */
  function LastBeat(c: KeyData, h: seq<Poll>, s: nat, i: nat): nat
    requires s <= i < |h|
  {
    if i == s then h[s].at else if Repeat in Out(c, h, i) then h[i].later else LastBeat(c, h, s, i - 1)
  }

  // ---- the state read back from the history

  lemma {:induction false} PressedIsLevel(c: KeyData, h: seq<Poll>, n: nat)
    requires n <= |h|
    ensures After(c, h, n).isPressed <==> n > 0 && h[n - 1].down
  {
    if n > 0 {
      PressedIsLevel(c, h, n - 1);
    }
  }

  lemma OneMoreGave(c: KeyData, h: seq<Poll>, s: nat, i: nat, w: What)
    requires s < i < |h|
    ensures Gave(c, h, s, i, w) <==> Gave(c, h, s, i - 1, w) || w in Out(c, h, i)
  {
  }

  /** The flags and timers of a key that is held are facts about its hold alone. */
  lemma {:induction false} StateOfHold(c: KeyData, h: seq<Poll>, s: nat, i: nat)
    requires Hold(h, s, i)
    ensures var k := After(c, h, i + 1);
            && k.isPressed
            && (k.isLongPress <==> Gave(c, h, s, i, LongPress))
            && (k.isRepeating <==> Gave(c, h, s, i, Repeat))
            && (!k.isLongPress ==> k.longPressTimer == h[s].at % TURN)
            && k.repeatTimer == LastBeat(c, h, s, i) % TURN
    decreases i
  {
    PressedIsLevel(c, h, i);
    if i > s {
      StateOfHold(c, h, s, i - 1);
      OneMoreGave(c, h, s, i, LongPress);
      OneMoreGave(c, h, s, i, Repeat);
    }
  }

  lemma ElapsedIsTrueTime(since: nat, now: nat, delay: nat)
    requires since <= now
    ensures Elapsed(since % TURN, now, delay) <==> (now - since) % TURN > delay
    ensures Elapsed(since % TURN, now, delay) ==> now - since > delay
    ensures now - since < TURN ==> (Elapsed(since % TURN, now, delay) <==> now - since > delay)
  {
    assert (now % TURN - since % TURN) % TURN == (now - since) % TURN;
  }

  // ---- presses and releases

  lemma PressIsRisingEdge(c: KeyData, h: seq<Poll>, i: nat)
    requires i < |h|
    ensures Press in Out(c, h, i) <==> Begins(h, i)
    ensures Begins(h, i) ==> Out(c, h, i) == [Press]
  {
    PressedIsLevel(c, h, i);
  }

  /** The hold a pressed poll belongs to. */
  lemma {:induction false} HoldOf(h: seq<Poll>, i: nat) returns (s: nat)
    requires i < |h| && h[i].down
    ensures Hold(h, s, i)
  {
    if Begins(h, i) {
      s := i;
    } else {
      s := HoldOf(h, i - 1);
    }
  }

  /** The poll that ends a hold signals the release exactly if the hold gave no long press. */
  lemma ReleaseUnlessLongPress(c: KeyData, h: seq<Poll>, s: nat, i: nat)
    requires Hold(h, s, i) && i + 1 < |h| && !h[i + 1].down
    ensures Out(c, h, i + 1) == if Gave(c, h, s, i, LongPress) then [] else [Release]
  {
    StateOfHold(c, h, s, i);
  }

  /** Nothing is signalled by a key that is up and stays up, and a release only ends a hold. */
  lemma QuietWhenUp(c: KeyData, h: seq<Poll>, i: nat)
    requires i < |h| && !h[i].down
    ensures i == 0 || !h[i - 1].down ==> Out(c, h, i) == []
    ensures forall w :: w in Out(c, h, i) ==> w == Release
  {
    PressedIsLevel(c, h, i);
  }

  /** Presses and releases alternate: between two presses lies the poll that detects the first's release. */
  lemma {:induction false} EdgesAlternate(h: seq<Poll>, s: nat, t: nat) returns (e: nat)
    requires Begins(h, s) && Begins(h, t) && s < t
    ensures s < e < t && !h[e].down && Hold(h, s, e - 1)
    decreases t - s
  {
    e := s + 1;
    while h[e].down
      invariant s < e < t && Hold(h, s, e - 1)
      decreases t - e
    {
      e := e + 1;
    }
  }

  /** A whole hold, from the poll that finds the press to the one that finds the release. */
  lemma HoldSignals(c: KeyData, h: seq<Poll>, s: nat, i: nat)
    requires Hold(h, s, i)
    ensures Out(c, h, s) == [Press]
    ensures forall j :: s < j <= i ==> OnceEach(Out(c, h, j))
    ensures i + 1 < |h| && !h[i + 1].down ==>
              (Out(c, h, i + 1) == [Release] <==> forall j :: s < j <= i ==> LongPress !in Out(c, h, j))
  {
    PressIsRisingEdge(c, h, s);
    forall j | s < j <= i
      ensures OnceEach(Out(c, h, j))
    {
      PressedIsLevel(c, h, j);
      StillPressed(c, After(c, h, j), h[j]);
    }
    if i + 1 < |h| && !h[i + 1].down {
      ReleaseUnlessLongPress(c, h, s, i);
    }
  }

  /** What a poll that finds the key still pressed signals. */
  lemma StillPressed(c: KeyData, k: Key, p: Poll)
    requires k.isPressed && p.down
    ensures LongPress in Step(c, k, p).1 <==>
              c.longPress != EVTMSK_NOTHING && !k.isLongPress && Elapsed(k.longPressTimer, p.at, LONGPRESS)
    ensures Repeat in Step(c, k, p).1 <==>
              c.repeat != EVTMSK_NOTHING && Elapsed(k.repeatTimer, p.later, RepeatDelay(k.isRepeating))
    ensures OnceEach(Step(c, k, p).1)
  {
    hide Elapsed;
  }

  /** A long press at most once, and then a repeat at most once. */
  predicate OnceEach(ws: seq<What>) {
    ws == [] || ws == [LongPress] || ws == [Repeat] || ws == [LongPress, Repeat]
  }

  // ---- long presses

  lemma LongPressAt(c: KeyData, h: seq<Poll>, s: nat, i: nat)
    requires Hold(h, s, i) && s < i && InOrder(h)
    ensures LongPress in Out(c, h, i) <==>
              && c.longPress != EVTMSK_NOTHING && !Gave(c, h, s, i - 1, LongPress)
              && (h[i].at - h[s].at) % TURN > LONGPRESS
  {
    hide Step, Elapsed, LastBeat;
    StateOfHold(c, h, s, i - 1);
    StillPressed(c, After(c, h, i), h[i]);
    ElapsedIsTrueTime(h[s].at, h[i].at, LONGPRESS);
  }

  /** A hold gives at most one long press, never before its time. */
  lemma AtMostOneLongPress(c: KeyData, h: seq<Poll>, s: nat, i: nat, j: nat)
    requires Hold(h, s, j) && s <= i <= j && InOrder(h)
    requires LongPress in Out(c, h, i) && LongPress in Out(c, h, j)
    ensures i == j && s < i && c.longPress != EVTMSK_NOTHING && h[i].at - h[s].at > LONGPRESS
  {
    PressIsRisingEdge(c, h, s);
    LongPressAt(c, h, s, j);
    ElapsedIsTrueTime(h[s].at, h[j].at, LONGPRESS);
  }

  /** A hold gives a long press as soon as one of its polls sees the wrapped time pass the delay. */
  lemma {:induction false} LongPressIff(c: KeyData, h: seq<Poll>, s: nat, i: nat)
    requires Hold(h, s, i) && InOrder(h)
    ensures Gave(c, h, s, i, LongPress) <==>
              c.longPress != EVTMSK_NOTHING && exists j :: s < j <= i && (h[j].at - h[s].at) % TURN > LONGPRESS
    decreases i
  {
    if i > s {
      LongPressIff(c, h, s, i - 1);
      LongPressAt(c, h, s, i);
      OneMoreGave(c, h, s, i, LongPress);
    }
  }

  /** No two polls in a row are as far apart as a turn of the clock less the longest delay. */
  predicate PolledOften(h: seq<Poll>) {
    forall i :: 0 < i < |h| ==> h[i].later - h[i - 1].at < TURN - LONGPRESS
  }

  /** Polled often enough, a hold gives a long press exactly if it is truly longer than the delay at some poll. */
  lemma {:induction false} LongPressInTrueTime(c: KeyData, h: seq<Poll>, s: nat, i: nat)
    requires Hold(h, s, i) && InOrder(h) && PolledOften(h)
    ensures Gave(c, h, s, i, LongPress) <==> c.longPress != EVTMSK_NOTHING && h[i].at - h[s].at > LONGPRESS
    decreases i
  {
    if i > s {
      LongPressInTrueTime(c, h, s, i - 1);
      LongPressAt(c, h, s, i);
      OneMoreGave(c, h, s, i, LongPress);
      ElapsedIsTrueTime(h[s].at, h[i].at, LONGPRESS);
    }
  }

  /** Unless polled often enough: a key held for a whole turn of the clock between two polls is just pressed. */
  lemma LongPressMissedAfterATurn(c: KeyData)
    ensures var h := [Poll(true, 0, 0), Poll(true, TURN, TURN)];
            Hold(h, 0, 1) && InOrder(h) && !Gave(c, h, 0, 1, LongPress) && h[1].at - h[0].at > LONGPRESS
  {
    var h := [Poll(true, 0, 0), Poll(true, TURN, TURN)];
    LongPressIff(c, h, 0, 1);
  }

  // ---- repeats

  lemma RepeatAt(c: KeyData, h: seq<Poll>, s: nat, i: nat)
    requires Hold(h, s, i) && s < i && InOrder(h)
    ensures LastBeat(c, h, s, i - 1) <= h[i].later
    ensures Repeat in Out(c, h, i) <==>
              && c.repeat != EVTMSK_NOTHING
              && Elapsed(LastBeat(c, h, s, i - 1) % TURN, h[i].later, RepeatDelay(Gave(c, h, s, i - 1, Repeat)))
  {
    hide Step, Elapsed, LastBeat;
    StateOfHold(c, h, s, i - 1);
    StillPressed(c, After(c, h, i), h[i]);
    LastBeatBounds(c, h, s, i - 1);
  }

  /** The latest repeat is no earlier than any of them, and is the press when there is none. */
  lemma {:induction false} LastBeatBounds(c: KeyData, h: seq<Poll>, s: nat, i: nat)
    requires s <= i < |h| && InOrder(h)
    ensures h[s].at <= LastBeat(c, h, s, i) <= h[i].later
    ensures !Gave(c, h, s, i, Repeat) ==> LastBeat(c, h, s, i) == h[s].at
    ensures forall j :: s < j <= i && Repeat in Out(c, h, j) ==> h[j].later <= LastBeat(c, h, s, i)
    decreases i
  {
    hide Out, Gave;
    if i > s {
      LastBeatBounds(c, h, s, i - 1);
      OneMoreGave(c, h, s, i, Repeat);
    }
  }

  lemma RepeatIsInAHold(c: KeyData, h: seq<Poll>, i: nat) returns (s: nat)
    requires i < |h| && Repeat in Out(c, h, i)
    ensures Hold(h, s, i) && s < i
  {
    PressedIsLevel(c, h, i);
    s := HoldOf(h, i);
    PressIsRisingEdge(c, h, s);
  }

  /** A hold's first repeat keeps its distance from the press, a later one from every repeat before it. */
  lemma RepeatsAreApart(c: KeyData, h: seq<Poll>, i: nat) returns (s: nat)
    requires i < |h| && InOrder(h) && Repeat in Out(c, h, i)
    ensures Hold(h, s, i) && s < i && c.repeat != EVTMSK_NOTHING
    ensures !Gave(c, h, s, i - 1, Repeat) ==> h[i].later - h[s].at > BEFORE_REPEAT
    ensures forall j :: s < j < i && Repeat in Out(c, h, j) ==> h[i].later - h[j].later > REPEAT_PERIOD
  {
    hide Out, Elapsed, LastBeat;
    s := RepeatIsInAHold(c, h, i);
    RepeatAt(c, h, s, i);
    LastBeatBounds(c, h, s, i - 1);
    ElapsedIsTrueTime(LastBeat(c, h, s, i - 1), h[i].later, RepeatDelay(Gave(c, h, s, i - 1, Repeat)));
  }

  /** Polled often enough, the latest beat of a key that repeats is never older than the longer delay. */
  lemma {:induction false} BeatIsFresh(c: KeyData, h: seq<Poll>, s: nat, i: nat)
    requires Hold(h, s, i) && InOrder(h) && PolledOften(h) && c.repeat != EVTMSK_NOTHING
    ensures h[i].at - LastBeat(c, h, s, i) <= BEFORE_REPEAT
    decreases i
  {
    hide Out, Elapsed;
    if i > s {
      BeatIsFresh(c, h, s, i - 1);
      RepeatAt(c, h, s, i);
      ElapsedIsTrueTime(LastBeat(c, h, s, i - 1), h[i].later, RepeatDelay(Gave(c, h, s, i - 1, Repeat)));
    }
  }

  /** Polled often enough, a poll repeats exactly if the delay since the latest beat has truly passed. */
  lemma RepeatInTrueTime(c: KeyData, h: seq<Poll>, s: nat, i: nat)
    requires Hold(h, s, i) && s < i && InOrder(h) && PolledOften(h)
    ensures Repeat in Out(c, h, i) <==>
              && c.repeat != EVTMSK_NOTHING
              && h[i].later - LastBeat(c, h, s, i - 1) > RepeatDelay(Gave(c, h, s, i - 1, Repeat))
  {
    hide Out, Elapsed, LastBeat;
    RepeatAt(c, h, s, i);
    if c.repeat != EVTMSK_NOTHING {
      BeatIsFresh(c, h, s, i - 1);
      ElapsedIsTrueTime(LastBeat(c, h, s, i - 1), h[i].later, RepeatDelay(Gave(c, h, s, i - 1, Repeat)));
    }
  }
}
