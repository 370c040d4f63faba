/**
 An output buffers queue seen as a list of packets, and its runs.

 A writer appends bytes to a current buffer, which is posted when it is full or flushed; the
 interrupt side releases posted buffers.  `accepted` and `sent` record what went in and out since
 the last reset.
 */
module OutputStream {
  import opened Common

  datatype State = State(
    n: nat,                   // number of buffers
    cap: nat,                 // payload bytes per buffer
    queued: seq<seq<u8>>,     // posted, not yet released
    cur: Option<seq<u8>>,     // the buffer being filled
    accepted: seq<u8>,        // bytes taken from the writers
    sent: seq<seq<u8>>)       // payloads released by the interrupt side

  datatype Event =
    | Acquire
    | Append(data: seq<u8>)
    | Flush
    | TryFlush
    | Release
    | Reset

  function Init(n: nat, cap: nat): State {
    State(n, cap, [], None, [], [])
  }

  predicate Shape(s: State) {
    && |s.queued| <= s.n
    && (forall k | 0 <= k < |s.queued| :: 0 < |s.queued[k]| <= s.cap)
    && (s.cur.Some? ==> |s.queued| < s.n && |s.cur.value| < s.cap)
  }

  /** What the queue has sent, holds posted, and is filling, in order. */
  function Stream(s: State): seq<u8> {
    Flatten(s.sent) + Flatten(s.queued) + Part(s.cur)
  }

  predicate Inv(s: State) {
    Shape(s) && Stream(s) == s.accepted
  }

  predicate Enabled(s: State, e: Event) {
    match e
    case Acquire => s.cur.None? && |s.queued| < s.n
    case Append(data) => s.cur.Some? && |s.cur.value| + |data| <= s.cap
    case Flush => true
    case TryFlush => true
    case Release => s.queued != []
    case Reset => true
  }

  function Post(s: State): State
    requires s.cur.Some?
  {
    s.(queued := s.queued + [s.cur.value], cur := None)
  }

  function Step(s: State, e: Event): State
    requires Enabled(s, e)
  {
    match e
    case Acquire => s.(cur := Some([]))
    case Append(data) =>
      var t := s.(cur := Some(s.cur.value + data), accepted := s.accepted + data);
      if |t.cur.value| == s.cap then Post(t) else t
    case Flush => if s.cur.Some? && |s.cur.value| > 0 then Post(s) else s
    case TryFlush => if s.queued == [] && s.cur.Some? && |s.cur.value| > 0 then Post(s) else s
    case Release => s.(queued := s.queued[1..], sent := s.sent + [s.queued[0]])
    case Reset => Init(s.n, s.cap)
  }

  predicate Legal(s: State, es: seq<Event>)
    decreases |es|
  {
    es == [] || (Enabled(s, es[0]) && Legal(Step(s, es[0]), es[1..]))
  }

  function Run(s: State, es: seq<Event>): State
    requires Legal(s, es)
    decreases |es|
  {
    if es == [] then s else Run(Step(s, es[0]), es[1..])
  }

  /** The bytes the writers handed over since the last reset, given `before` already handed over. */
  function Written(es: seq<Event>, before: seq<u8>): seq<u8> {
    if es == [] then before
    else if es[0].Append? then Written(es[1..], before + es[0].data)
    else if es[0].Reset? then Written(es[1..], [])
    else Written(es[1..], before)
  }

  /** The payloads released in a run since the last reset, after `before`: the oldest packet each time. */
  function Released(s: State, es: seq<Event>, before: seq<seq<u8>>): seq<seq<u8>>
    requires Legal(s, es)
    decreases |es|
  {
    if es == [] then before
    else Released(Step(s, es[0]), es[1..],
                  if es[0].Reset? then [] else if es[0].Release? then before + [s.queued[0]] else before)
  }

  /** All the data written during a run. */
  function Data(es: seq<Event>): seq<u8> {
    if es == [] then [] else (if es[0].Append? then es[0].data else []) + Data(es[1..])
  }

  /** The run is made of interrupt-side events only. */
  predicate IsrOnly(es: seq<Event>) {
    forall e | e in es :: e.TryFlush? || e.Release? || e.Reset?
  }

  /** `es` leads from `s` to `t`, writes `data` on the way, and holds no flush from a thread. */
  predicate Trace(s: State, es: seq<Event>, t: State, data: seq<u8>) {
    Legal(s, es) && Run(s, es) == t && Data(es) == data && Flush !in es
  }

  lemma InitHasInv(n: nat, cap: nat)
    ensures Inv(Init(n, cap)) && Shape(Init(n, cap))
  {
  }

  lemma PostKeepsInv(s: State)
    requires Shape(s.(cur := None)) && Stream(s) == s.accepted
    requires s.cur.Some? && 0 < |s.cur.value| <= s.cap && |s.queued| < s.n
    ensures Inv(Post(s))
    ensures Stream(Post(s)) == Stream(s)
  {
    FlattenSnoc(s.queued, s.cur.value);
  }

  lemma AppendKeepsInv(s: State, data: seq<u8>)
    requires Inv(s) && Enabled(s, Append(data)) && s.cap >= 1
    ensures Inv(Step(s, Append(data)))
  {
    var t := s.(cur := Some(s.cur.value + data), accepted := s.accepted + data);
    Regroup(Flatten(s.sent) + Flatten(s.queued), s.cur.value, data);
    if |t.cur.value| == s.cap {
      PostKeepsInv(t);
    }
  }

  lemma ReleaseKeepsInv(s: State)
    requires Inv(s) && s.queued != []
    ensures Inv(Step(s, Release))
  {
    var rest := Flatten(s.queued[1..]);
    FlattenSnoc(s.sent, s.queued[0]);
    Regroup(Flatten(s.sent), s.queued[0], rest);
  }

  lemma StepKeepsInv(s: State, e: Event)
    requires Inv(s) && Enabled(s, e) && s.n >= 1 && s.cap >= 1
    ensures Inv(Step(s, e))
    ensures Step(s, e).n == s.n && Step(s, e).cap == s.cap
  {
    hide Flatten;
    match e
    case Append(data) => AppendKeepsInv(s, data);
    case Flush =>
      if s.cur.Some? && |s.cur.value| > 0 {
        PostKeepsInv(s);
      }
    case TryFlush =>
      if s.queued == [] && s.cur.Some? && |s.cur.value| > 0 {
        PostKeepsInv(s);
      }
    case Release => ReleaseKeepsInv(s);
    case Reset => InitHasInv(s.n, s.cap);
    case Acquire =>
  }

  /** Every reachable state satisfies the invariant, and `accepted` is what the writers wrote. */
  lemma {:induction false} RunKeepsInv(s: State, es: seq<Event>)
    requires Inv(s) && Legal(s, es) && s.n >= 1 && s.cap >= 1
    ensures Inv(Run(s, es))
    ensures Run(s, es).accepted == Written(es, s.accepted)
    ensures Run(s, es).sent == Released(s, es, s.sent)
    ensures Run(s, es).n == s.n && Run(s, es).cap == s.cap
    decreases |es|
  {
    if es != [] {
      StepKeepsInv(s, es[0]);
      RunKeepsInv(Step(s, es[0]), es[1..]);
    }
  }

  /**
   The output queue is one byte stream: after any legal run from an empty queue, the released
   payloads, the posted ones and the partial buffer concatenate to what was written.
   */
  lemma OneByteStream(n: nat, cap: nat, es: seq<Event>)
    requires n >= 1 && cap >= 1 && Legal(Init(n, cap), es)
    ensures Stream(Run(Init(n, cap), es)) == Written(es, [])
    ensures var t := Run(Init(n, cap), es);
            Flatten(Released(Init(n, cap), es, [])) + Flatten(t.queued) + Part(t.cur) == Written(es, [])
  {
    RunKeepsInv(Init(n, cap), es);
  }

  /**
   Flush timing is invisible in the stream: two runs in which the writers write the same bytes,
   whatever flushes and releases happen when, agree on the stream; once both are drained they have
   sent the same bytes.
   */
  lemma FlushTimingIsInvisible(n: nat, cap: nat, es: seq<Event>, fs: seq<Event>)
    requires n >= 1 && cap >= 1 && Legal(Init(n, cap), es) && Legal(Init(n, cap), fs)
    requires Written(es, []) == Written(fs, [])
    ensures var a, b := Run(Init(n, cap), es), Run(Init(n, cap), fs);
            && Stream(a) == Stream(b)
            && (a.queued == b.queued == [] && Part(a.cur) == Part(b.cur) == [] ==>
                  Flatten(a.sent) == Flatten(b.sent))
  {
    OneByteStream(n, cap, es);
    OneByteStream(n, cap, fs);
    var a, b := Run(Init(n, cap), es), Run(Init(n, cap), fs);
    assert Flatten(a.sent) + [] + [] == Flatten(a.sent);
    assert Flatten(b.sent) + [] + [] == Flatten(b.sent);
  }

  /** What the interrupt side does on its own: releases what is posted, then flushes what is left. */
  function IsrTurn(s: State): Option<Event> {
    if s.queued != [] then Some(Release)
    else if Part(s.cur) != [] then Some(TryFlush)
    else None
  }

  /** How many turns of the interrupt side it takes to send everything. */
  function TurnsLeft(s: State): nat {
    |s.queued| + if Part(s.cur) != [] then 2 else 0
  }

  /** `k` turns of the interrupt side, as far as it has anything to do. */
  function Turns(s: State, k: nat): State
    decreases k
  {
    var e := IsrTurn(s);
    if k == 0 || e.None? then s else Turns(Step(s, e.value), k - 1)
  }

  /**
   Nothing is ever stuck: from any state that satisfies the invariant the interrupt side alone, without
   a flush by the writer, gets every accepted byte sent, in one turn for each posted packet and two for
   partial data.
   */
  lemma {:induction false} IsrSendsAll(s: State)
    requires Inv(s) && s.n >= 1 && s.cap >= 1
    ensures var t := Turns(s, TurnsLeft(s));
            && Flatten(t.sent) == t.accepted == s.accepted
            && t.queued == [] && Part(t.cur) == []
    decreases TurnsLeft(s)
  {
    var e := IsrTurn(s);
    if e.None? {
      assert Flatten(s.sent) + [] + [] == Flatten(s.sent);
    } else {
      StepKeepsInv(s, e.value);
      IsrSendsAll(Step(s, e.value));
    }
  }

  /** `obqGetEmptyBufferTimeout`: the current buffer is started again from its beginning. */
  function Rewind(s: State): State {
    s.(cur := Some([]))
  }

  /** Mixing that call into the byte stream is harmless exactly when no partial data is pending. */
  lemma RewindKeepsStreamIffNothingPartial(s: State)
    requires Inv(s) && |s.queued| < s.n && s.cap >= 1
    ensures Inv(Rewind(s)) <==> Part(s.cur) == []
  {
    assert |Stream(Rewind(s))| + |Part(s.cur)| == |Stream(s)|;
  }

  /** `obqPostFullBuffer`: the write slot is posted as it lies, `payload`; `added` of it is new. */
  function PostedAsIs(s: State, payload: seq<u8>, added: seq<u8>): State {
    s.(queued := s.queued + [payload], cur := None, accepted := s.accepted + added)
  }

  /** Mixing that call in keeps the stream exactly when it posts the partial data and then what is new. */
  lemma PostKeepsStreamIff(s: State, payload: seq<u8>, added: seq<u8>)
    requires Inv(s) && |s.queued| < s.n && 0 < |payload| <= s.cap
    ensures Inv(PostedAsIs(s, payload, added)) <==> payload == Part(s.cur) + added
  {
    var front := Flatten(s.sent) + Flatten(s.queued);
    FlattenSnoc(s.queued, payload);
    Regroup(Flatten(s.sent), Flatten(s.queued), payload);
    assert Stream(PostedAsIs(s, payload, added)) == front + payload;
    Regroup(front, Part(s.cur), added);
    SameTail(front, payload, Part(s.cur) + added);
  }

  lemma {:induction false} RunAppend(s: State, es: seq<Event>, fs: seq<Event>)
    requires Legal(s, es) && Legal(Run(s, es), fs)
    ensures Legal(s, es + fs) && Run(s, es + fs) == Run(Run(s, es), fs)
    decreases |es|
  {
    var whole := es + fs;
    if es == [] {
      assert whole == fs;
    } else {
      var t := Step(s, es[0]);
      assert Run(s, es) == Run(t, es[1..]);
      RunAppend(t, es[1..], fs);
      assert whole[0] == es[0] && whole[1..] == es[1..] + fs;
    }
  }

  lemma {:induction false} DataAppend(es: seq<Event>, fs: seq<Event>)
    ensures Data(es + fs) == Data(es) + Data(fs)
  {
    if es == [] {
      assert es + fs == fs;
    } else {
      assert (es + fs)[1..] == es[1..] + fs;
      DataAppend(es[1..], fs);
    }
  }

  /** A run without a reset accepts exactly its data, after what was accepted before. */
  lemma {:induction false} DataIsWritten(es: seq<Event>, before: seq<u8>)
    requires Reset !in es
    ensures Written(es, before) == before + Data(es)
  {
    if es == [] {
      assert before + [] == before;
    } else {
      assert Reset !in es[1..];
      DataIsWritten(es[1..], if es[0].Append? then before + es[0].data else before);
    }
  }

  /** A trace, and one in which nothing moves. */
  lemma TraceQuiet(s: State, es: seq<Event>, t: State, data: seq<u8>, fs: seq<Event>, u: State)
    requires Trace(s, es, t, data) && Trace(t, fs, u, [])
    ensures Trace(s, es + fs, u, data)
  {
    hide Trace;
    TraceChain(s, es, t, data, fs, u, []);
    assert data + [] == data;
  }

  lemma TraceNothing(s: State)
    ensures Trace(s, [], s, [])
  {
  }

  lemma TraceStep(s: State, e: Event)
    requires Enabled(s, e) && e != Flush
    ensures Trace(s, [e], Step(s, e), if e.Append? then e.data else [])
  {
    assert [e][1..] == [] && Legal(Step(s, e), []);
    assert Data([e]) == (if e.Append? then e.data else []) + Data([]);
  }

  lemma TraceChain(s: State, es: seq<Event>, t: State, data: seq<u8>, fs: seq<Event>, u: State, more: seq<u8>)
    requires Trace(s, es, t, data) && Trace(t, fs, u, more)
    ensures Trace(s, es + fs, u, data + more)
  {
    RunAppend(s, es, fs);
    DataAppend(es, fs);
  }

  /** What a trace without a reset means for the history: exactly its data was accepted. */
  lemma TraceAccepts(s: State, es: seq<Event>, t: State, data: seq<u8>)
    requires Inv(s) && s.n >= 1 && s.cap >= 1 && Trace(s, es, t, data) && Reset !in es
    ensures t.accepted == s.accepted + data && Inv(t)
  {
    RunKeepsInv(s, es);
    DataIsWritten(es, s.accepted);
  }
}
