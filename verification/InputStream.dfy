/**
 An input buffers queue seen as a list of packets, and its runs.

 The interrupt side posts filled buffers; a reader takes bytes from the first one, which leaves the
 queue when its last byte is taken.  `posted` and `delivered` record what went in and out since the
 last reset.
 */
module InputStream {
  import opened Common

  datatype State = State(
    n: nat,                   // number of buffers
    cap: nat,                 // payload bytes per buffer
    queued: seq<seq<u8>>,     // posted, not yet used up
    cur: Option<nat>,         // bytes already taken from the first buffer, once it is acquired
    posted: seq<seq<u8>>,
    delivered: seq<u8>)

  datatype Event =
    | Post(packet: seq<u8>)
    | Acquire
    | Take(count: nat)
    | Reset

  function Init(n: nat, cap: nat): State {
    State(n, cap, [], None, [], [])
  }

  predicate Shape(s: State) {
    && |s.queued| <= s.n
    && (forall k | 0 <= k < |s.queued| :: 0 < |s.queued[k]| <= s.cap)
    && (s.cur.Some? ==> s.queued != [] && s.cur.value < |s.queued[0]|)
  }

  /** The bytes still to be read, in order. */
  function Held(s: State): seq<u8>
    requires Shape(s)
  {
    if s.cur.Some? then s.queued[0][s.cur.value..] + Flatten(s.queued[1..]) else Flatten(s.queued)
  }

  predicate Inv(s: State) {
    Shape(s) && s.delivered + Held(s) == Flatten(s.posted)
  }

  predicate Enabled(s: State, e: Event) {
    match e
    case Post(p) => |s.queued| < s.n && 0 < |p| <= s.cap
    case Acquire => s.cur.None? && s.queued != []
    case Take(count) => s.cur.Some? && s.queued != [] && s.cur.value + count <= |s.queued[0]|
    case Reset => true
  }

  function Step(s: State, e: Event): State
    requires Enabled(s, e)
  {
    match e
    case Post(p) => s.(queued := s.queued + [p], posted := s.posted + [p])
    case Acquire => s.(cur := Some(0))
    case Take(count) =>
      var t := s.(delivered := s.delivered + Output(s, e), cur := Some(s.cur.value + count));
      if t.cur.value == |s.queued[0]| then t.(queued := s.queued[1..], cur := None) else t
    case Reset => Init(s.n, s.cap)
  }

  /** The bytes an event hands to the reader. */
  function Output(s: State, e: Event): seq<u8>
    requires Enabled(s, e)
  {
    if e.Take? then s.queued[0][s.cur.value..s.cur.value + e.count] else []
  }

  predicate Legal(s: State, es: seq<Event>)
    decreases |es|
  {
    es == [] || (Enabled(s, es[0]) && Legal(Step(s, es[0]), es[1..]))
  }

  function Run(s: State, es: seq<Event>): State
    requires Legal(s, es)
    decreases |es|
  {
    if es == [] then s else Run(Step(s, es[0]), es[1..])
  }

  /** All the bytes handed to the reader during a run. */
  function Outputs(s: State, es: seq<Event>): seq<u8>
    requires Legal(s, es)
    decreases |es|
  {
    if es == [] then [] else Output(s, es[0]) + Outputs(Step(s, es[0]), es[1..])
  }

  /** The packets posted since the last reset, given `before` already posted. */
  function Posted(es: seq<Event>, before: seq<seq<u8>>): seq<seq<u8>> {
    if es == [] then before
    else if es[0].Post? then Posted(es[1..], before + [es[0].packet])
    else if es[0].Reset? then Posted(es[1..], [])
    else Posted(es[1..], before)
  }

  predicate IsrOnly(es: seq<Event>) {
    forall e | e in es :: e.Post? || e.Reset?
  }

  /** `es` leads from `s` to `t` and hands `data` to the reader on the way. */
  predicate Trace(s: State, es: seq<Event>, t: State, data: seq<u8>) {
    Legal(s, es) && Run(s, es) == t && Outputs(s, es) == data
  }

  lemma InitHasInv(n: nat, cap: nat)
    ensures Inv(Init(n, cap)) && Shape(Init(n, cap))
  {
  }

  lemma HeldAfterPost(s: State, p: seq<u8>)
    requires Shape(s) && Enabled(s, Post(p))
    ensures Shape(Step(s, Post(p))) && Held(Step(s, Post(p))) == Held(s) + p
  {
    var t := Step(s, Post(p));
    if s.cur.Some? {
      var first := s.queued[0][s.cur.value..];
      assert t.queued[1..] == s.queued[1..] + [p] && t.queued[0] == s.queued[0];
      FlattenSnoc(s.queued[1..], p);
      Regroup(first, Flatten(s.queued[1..]), p);
    } else {
      FlattenSnoc(s.queued, p);
    }
  }

  lemma PostKeepsInv(s: State, p: seq<u8>)
    requires Inv(s) && Enabled(s, Post(p))
    ensures Inv(Step(s, Post(p)))
  {
    hide Shape, Held;
    HeldAfterPost(s, p);
    FlattenSnoc(s.posted, p);
    Regroup(s.delivered, Held(s), p);
  }

  lemma ShapeAfterTake(s: State, count: nat)
    requires Shape(s) && Enabled(s, Take(count))
    ensures Shape(Step(s, Take(count))) && s.cur.value < |s.queued[0]|
  {
  }

  lemma HeldIs(s: State)
    requires Shape(s)
    ensures s.cur.Some? ==>
              && s.queued != [] && s.cur.value <= |s.queued[0]|
              && Held(s) == s.queued[0][s.cur.value..] + Flatten(s.queued[1..])
    ensures s.cur.None? ==> Held(s) == Flatten(s.queued)
  {
  }

  lemma TakenAndLeft(first: seq<u8>, k: nat, count: nat, rest: seq<u8>)
    requires k + count <= |first|
    ensures first[k..] + rest == first[k..k + count] + (first[k + count..] + rest)
    ensures k + count == |first| ==> first[k + count..] + rest == rest
  {
    CutInTwo(first, k, count);
    Regroup(first[k..k + count], first[k + count..], rest);
  }

  lemma StepOnTake(s: State, count: nat)
    requires Enabled(s, Take(count))
    ensures Output(s, Take(count)) == s.queued[0][s.cur.value..s.cur.value + count]
    ensures var t := Step(s, Take(count));
            if s.cur.value + count == |s.queued[0]| then t.cur == None && t.queued == s.queued[1..]
            else t.cur == Some(s.cur.value + count) && t.queued == s.queued
  {
  }

  lemma HeldAfterTake(s: State, count: nat)
    requires Shape(s) && Enabled(s, Take(count))
    ensures Shape(Step(s, Take(count)))
    ensures Held(s) == Output(s, Take(count)) + Held(Step(s, Take(count)))
  {
    hide Flatten, Shape, Held, Step, Output;
    StepOnTake(s, count);
    ShapeAfterTake(s, count);
    HeldIs(s);
    HeldIs(Step(s, Take(count)));
    TakenAndLeft(s.queued[0], s.cur.value, count, Flatten(s.queued[1..]));
  }

  lemma TakeKeepsInv(s: State, count: nat)
    requires Inv(s) && Enabled(s, Take(count)) && s.n >= 1
    ensures Inv(Step(s, Take(count)))
  {
    hide Shape, Held, Output;
    HeldAfterTake(s, count);
    Regroup(s.delivered, Output(s, Take(count)), Held(Step(s, Take(count))));
  }

  lemma StepKeepsInv(s: State, e: Event)
    requires Inv(s) && Enabled(s, e) && s.n >= 1 && s.cap >= 1
    ensures Inv(Step(s, e)) && Shape(Step(s, e))
    ensures Step(s, e).n == s.n && Step(s, e).cap == s.cap
  {
    match e
    case Post(p) => PostKeepsInv(s, p);
    case Acquire => assert s.queued[0][0..] == s.queued[0];
    case Take(count) => TakeKeepsInv(s, count);
    case Reset =>
  }

  /** Every reachable state satisfies the invariant, and `posted` is what the interrupt side posted. */
  lemma {:induction false} RunKeepsInv(s: State, es: seq<Event>)
    requires Inv(s) && Legal(s, es) && s.n >= 1 && s.cap >= 1
    ensures Inv(Run(s, es))
    ensures Run(s, es).posted == Posted(es, s.posted)
    decreases |es|
  {
    hide Inv;
    if es != [] {
      StepKeepsInv(s, es[0]);
      RunKeepsInv(Step(s, es[0]), es[1..]);
    }
  }

  /** Without a reset, the history of deliveries grows by exactly what the run hands over. */
  lemma {:induction false} RunDelivers(s: State, es: seq<Event>)
    requires Legal(s, es) && Reset !in es
    ensures Run(s, es).delivered == s.delivered + Outputs(s, es)
    decreases |es|
  {
    if es == [] {
      assert s.delivered + [] == s.delivered;
    } else {
      var t, first := Step(s, es[0]), Output(s, es[0]);
      assert es[0] in es;
      assert t.delivered == s.delivered + first;
      RunDelivers(t, es[1..]);
      assert (s.delivered + first) + Outputs(t, es[1..]) == s.delivered + (first + Outputs(t, es[1..]));
    }
  }

  /**
   The input queue is one byte stream: after any legal run from an empty queue, what was delivered
   since the last reset followed by what is still held is the concatenation of the posted payloads;
   and without a reset, what was delivered is what the reader was handed, call after call.
   */
  lemma OneByteStream(n: nat, cap: nat, es: seq<Event>)
    requires n >= 1 && cap >= 1 && Legal(Init(n, cap), es)
    ensures var t := Run(Init(n, cap), es);
            && Shape(t)
            && t.delivered + Held(t) == Flatten(Posted(es, []))
            && (Reset !in es ==> Outputs(Init(n, cap), es) + Held(t) == Flatten(Posted(es, [])))
  {
    RunKeepsInv(Init(n, cap), es);
    if Reset !in es {
      RunDelivers(Init(n, cap), es);
      assert [] + Outputs(Init(n, cap), es) == Outputs(Init(n, cap), es);
    }
  }

  /** `ibqGetFullBufferTimeout` on a buffer already in use: it starts again from its first byte. */
  function Rewind(s: State): State {
    s.(cur := Some(0))
  }

  /** Mixing that call into the byte stream is harmless exactly when nothing of the buffer was taken. */
  lemma RewindKeepsStreamIffNothingTaken(s: State)
    requires Inv(s) && s.queued != []
    ensures Inv(Rewind(s)) <==> s.cur.None? || s.cur.value == 0
  {
    assert s.queued[0][0..] == s.queued[0];
    assert |s.delivered + Held(s)| == |s.delivered| + |Held(s)|;
    assert |s.delivered + Held(Rewind(s))| == |s.delivered| + |Held(Rewind(s))|;
  }

  /** What is unread of the first buffer. */
  function Unread(s: State): seq<u8>
    requires Shape(s) && s.queued != []
  {
    if s.cur.Some? then s.queued[0][s.cur.value..] else s.queued[0]
  }

  /** `ibqReleaseEmptyBuffer`: the first buffer goes as it is, `taken` of it having been read in place. */
  function ReleasedAsIs(s: State, taken: seq<u8>): State
    requires s.queued != []
  {
    s.(queued := s.queued[1..], cur := None, delivered := s.delivered + taken)
  }

  /**
   Mixing that call in keeps the stream exactly when all that was unread of the buffer was read in place;
   that is never nothing, so a release on its own always loses bytes.
   */
  lemma ReleaseKeepsStreamIff(s: State, taken: seq<u8>)
    requires Inv(s) && s.queued != []
    ensures Inv(ReleasedAsIs(s, taken)) <==> taken == Unread(s)
    ensures !Inv(ReleasedAsIs(s, []))
  {
    var rest := Flatten(s.queued[1..]);
    Regroup(s.delivered, Unread(s), rest);
    Regroup(s.delivered, taken, rest);
    assert s.delivered + Held(s) == s.delivered + (Unread(s) + rest);
    SameMiddle(s.delivered, taken, Unread(s), rest);
    SameMiddle(s.delivered, [], Unread(s), rest);
    Regroup(s.delivered, [], rest);
    assert Unread(s) != [];
  }

  lemma {:induction false} TraceChain(s: State, es: seq<Event>, t: State, data: seq<u8>,
                                      fs: seq<Event>, u: State, more: seq<u8>)
    requires Trace(s, es, t, data) && Trace(t, fs, u, more)
    ensures Trace(s, es + fs, u, data + more)
    decreases |es|
  {
    hide Enabled, Output, Step;
    var whole := es + fs;
    if es == [] {
      assert whole == fs && data + more == more;
    } else {
      var s1, first := Step(s, es[0]), Output(s, es[0]);
      var rest := Outputs(s1, es[1..]);
      TraceChain(s1, es[1..], t, rest, fs, u, more);
      assert whole[0] == es[0] && whole[1..] == es[1..] + fs;
      Regroup(first, rest, more);
    }
  }

  /** A trace, and one in which nothing moves. */
  lemma TraceQuiet(s: State, es: seq<Event>, t: State, data: seq<u8>, fs: seq<Event>, u: State)
    requires Trace(s, es, t, data) && Trace(t, fs, u, [])
    ensures Trace(s, es + fs, u, data)
  {
    hide Trace;
    TraceChain(s, es, t, data, fs, u, []);
    assert data + [] == data;
  }

  lemma TraceNothing(s: State)
    ensures Trace(s, [], s, [])
  {
  }

  lemma TraceStep(s: State, e: Event)
    requires Enabled(s, e)
    ensures Trace(s, [e], Step(s, e), Output(s, e))
  {
    assert [e][1..] == [] && Legal(Step(s, e), []);
  }

  /** What a trace without a reset means for the history: exactly its data was delivered. */
  lemma TraceDelivers(s: State, es: seq<Event>, t: State, data: seq<u8>)
    requires Trace(s, es, t, data) && Reset !in es
    ensures t.delivered == s.delivered + data
  {
    RunDelivers(s, es);
  }
}
