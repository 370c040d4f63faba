/** The transmit ring of the UART and its DMA transactions, seen as a list of bytes. */
module TxStream {
  import opened Common
  import opened Ring
  import opened Arithmetic

  datatype State = State(
    size: nat,
    rd: nat,              // where the first buffered byte lies in the ring
    bytes: seq<u8>,       // buffered, those in flight first
    flight: nat,          // size of the last transaction
    idle: bool,           // no transaction is active
    accepted: seq<u8>,
    sent: seq<u8>)

  datatype Event =
    | Put(b: u8)
    | Start
    | Complete

  function Init(size: nat): State {
    State(size, 0, [], 0, true, [], [])
  }

  predicate Inv(s: State) {
    && s.rd < s.size && |s.bytes| <= s.size
    && s.rd == Rem(|s.sent|, s.size)
    && s.sent + s.bytes == s.accepted
    && (!s.idle ==> 0 < s.flight <= |s.bytes| && s.rd + s.flight <= s.size)
  }

  /** What can be sent in one piece: up to the end of the buffer. */
  function Piece(s: State): nat
    requires s.rd <= s.size
  {
    if |s.bytes| < s.size - s.rd then |s.bytes| else s.size - s.rd
  }

  function Send(s: State): State
    requires s.rd <= s.size
  {
    s.(flight := Piece(s), idle := s.idle && Piece(s) == 0)
  }

  predicate Enabled(s: State, e: Event) {
    && s.rd < s.size
    && (e.Complete? ==> !s.idle && s.flight <= |s.bytes| && s.rd + s.flight <= s.size)
  }

  function Step(s: State, e: Event): State
    requires Enabled(s, e)
  {
    match e
    case Put(b) => if |s.bytes| >= s.size then s else s.(bytes := s.bytes + [b], accepted := s.accepted + [b])
    case Start => if s.idle then Send(s) else s
    case Complete =>
      var t := Transmitted(s);
      if t.bytes == [] then t.(idle := true) else Send(t)
  }

  /** The transaction in flight is over. */
  function Transmitted(s: State): State
    requires Enabled(s, Complete)
  {
    s.(bytes := s.bytes[s.flight..], sent := s.sent + s.bytes[..s.flight], rd := Wrap(s.rd + s.flight, s.size))
  }

  lemma StepWhenFull(s: State, b: u8)
    requires Enabled(s, Put(b)) && |s.bytes| >= s.size
    ensures Step(s, Put(b)) == s
  {
  }

  lemma ActiveCanComplete(s: State)
    requires Inv(s) && !s.idle
    ensures Enabled(s, Complete)
  {
  }

  lemma StepOnPut(s: State, b: u8)
    requires Enabled(s, Put(b)) && |s.bytes| < s.size
    ensures Step(s, Put(b)) == s.(bytes := s.bytes + [b], accepted := s.accepted + [b])
  {
  }

  lemma StepOnComplete(s: State)
    requires Enabled(s, Complete)
    ensures Step(s, Complete) ==
            var t := Transmitted(s);
            if t.bytes == [] then t.(idle := true) else Send(t)
  {
  }

  predicate Legal(s: State, es: seq<Event>)
    decreases |es|
  {
    es == [] || (Enabled(s, es[0]) && Legal(Step(s, es[0]), es[1..]))
  }

  function Run(s: State, es: seq<Event>): State
    requires Legal(s, es)
    decreases |es|
  {
    if es == [] then s else Run(Step(s, es[0]), es[1..])
  }

  lemma StepKeepsInv(s: State, e: Event)
    requires Inv(s) && Enabled(s, e)
    ensures Inv(Step(s, e)) && Step(s, e).size == s.size
  {
    hide Rem;
    match e
    case Put(b) =>
      assert s.sent + (s.bytes + [b]) == s.sent + s.bytes + [b];
    case Start =>
    case Complete =>
      StepsAround(|s.sent|, s.flight, s.size);
      assert s.bytes == s.bytes[..s.flight] + s.bytes[s.flight..];
      assert s.sent + s.bytes == s.sent + s.bytes[..s.flight] + s.bytes[s.flight..];
  }

  lemma {:induction false} RunKeepsInv(s: State, es: seq<Event>)
    requires Inv(s) && Legal(s, es)
    ensures Inv(Run(s, es)) && Run(s, es).size == s.size
    decreases |es|
  {
    if es != [] {
      StepKeepsInv(s, es[0]);
      RunKeepsInv(Step(s, es[0]), es[1..]);
    }
  }

  /** The bytes a run accepts, after `before`: those put while there was room. */
  function Accepted(s: State, es: seq<Event>, before: seq<u8>): seq<u8>
    requires Legal(s, es)
    decreases |es|
  {
    if es == [] then before
    else Accepted(Step(s, es[0]), es[1..],
                  if es[0].Put? && |s.bytes| < s.size then before + [es[0].b] else before)
  }

  lemma {:induction false} RunAccepts(s: State, es: seq<Event>)
    requires Legal(s, es)
    ensures Run(s, es).accepted == Accepted(s, es, s.accepted)
    decreases |es|
  {
    if es != [] {
      RunAccepts(Step(s, es[0]), es[1..]);
    }
  }

  /** Over any run, the bytes sent, then the bytes buffered, are the bytes accepted. */
  lemma SentThenBuffered(size: nat, es: seq<Event>)
    requires size >= 1 && Legal(Init(size), es)
    ensures var s := Run(Init(size), es); s.sent + s.bytes == Accepted(Init(size), es, [])
  {
    RunKeepsInv(Init(size), es);
    RunAccepts(Init(size), es);
  }

  /** The cell an accepted put writes is not one of the transaction in flight. */
  lemma PutMissesFlight(s: State)
    requires Inv(s) && !s.idle && |s.bytes| < s.size
    ensures var w := Wrap(s.rd + |s.bytes|, s.size); w < s.rd || s.rd + s.flight <= w < s.size
  {
  }

  /** `k` completions in a row, as far as there is an active transaction. */
  function Completions(s: State, k: nat): State
    decreases k
  {
    if k == 0 || s.idle || !Enabled(s, Complete) then s else Completions(Step(s, Complete), k - 1)
  }

  lemma CompletionsStep(s: State, k: nat)
    requires Inv(s) && k > 0
    ensures Completions(s, k) == if s.idle then s else Completions(Step(s, Complete), k - 1)
  {
  }

  /** A completion leaves the ring idle and empty, or starts a piece as large as can be. */
  lemma AfterCompletion(s: State)
    requires Inv(s) && !s.idle
    ensures var t := Step(s, Complete);
            && Inv(t) && t.size == s.size && t.accepted == s.accepted
            && (if t.idle then t.bytes == [] else t.flight == Piece(t))
            && (s.flight == |s.bytes| ==> t.idle)
            && (s.flight == Piece(s) && !t.idle ==> t.flight == |t.bytes|)
  {
    hide Rem;
    StepKeepsInv(s, Complete);
  }

  /** With no further puts an active transfer empties the ring after at most three completions. */
  lemma DrainsInThree(s: State)
    requires Inv(s) && !s.idle
    ensures var t := Completions(s, 3); t.idle && t.bytes == [] && t.sent == s.accepted
  {
    hide Completions, Step, Piece, Rem;
    CompletionsStep(s, 3);
    AfterCompletion(s);
    var a := Step(s, Complete);
    CompletionsStep(a, 2);
    if !a.idle {
      AfterCompletion(a);
      var b := Step(a, Complete);
      CompletionsStep(b, 1);
      if !b.idle {
        AfterCompletion(b);
        NoCompletion(Step(b, Complete));
      }
    }
    var t := Completions(s, 3);
    assert t.sent + [] == t.sent;
  }

  lemma NoCompletion(s: State)
    ensures Completions(s, 0) == s
  {
  }

  /** A run from its first step. */
  lemma RunFrom(s: State, e: Event, t: State, es: seq<Event>)
    requires Enabled(s, e) && Step(s, e) == t && Legal(t, es)
    ensures Legal(s, [e] + es) && Run(s, [e] + es) == Run(t, es)
  {
    assert ([e] + es)[1..] == es;
  }

  /** A put while a piece is in flight, and two more that fill the ring around its end. */
  lemma FilledInFlight(s: State)
    requires s == State(3, 1, [], 1, true, [6], [6])
    ensures var es := [Put(7)] + ([Start] + ([Put(8)] + ([Put(9)] + [])));
            Legal(s, es) && Run(s, es) == State(3, 1, [7, 8, 9], 1, false, [6, 7, 8, 9], [6])
  {
    hide Legal, Run;
    var a := State(3, 1, [7], 1, true, [6, 7], [6]);
    var b := a.(idle := false);
    var c := b.(bytes := [7, 8], accepted := [6, 7, 8]);
    var d := c.(bytes := [7, 8, 9], accepted := [6, 7, 8, 9]);
    RunNothing(d);
    RunFrom(c, Put(9), d, []);
    RunFrom(b, Put(8), c, [Put(9)] + []);
    RunFrom(a, Start, b, [Put(8)] + ([Put(9)] + []));
    RunFrom(s, Put(7), a, [Start] + ([Put(8)] + ([Put(9)] + [])));
  }

  lemma RunNothing(s: State)
    ensures Legal(s, []) && Run(s, []) == s
  {
  }

  /** Three are needed when a piece in flight was started before the ring filled around it. */
  lemma ThreeAreNeeded()
    ensures exists es :: Legal(Init(3), es) && !Run(Init(3), es).idle && !Completions(Run(Init(3), es), 2).idle
  {
    hide Legal, Run;
    var a := State(3, 0, [6], 0, true, [6], []);
    var b := State(3, 0, [6], 1, false, [6], []);
    var c := State(3, 1, [], 1, true, [6], [6]);
    var d := State(3, 1, [7, 8, 9], 1, false, [6, 7, 8, 9], [6]);
    FilledInFlight(c);
    var rest := [Put(7)] + ([Start] + ([Put(8)] + ([Put(9)] + [])));
    RunFrom(b, Complete, c, rest);
    RunFrom(a, Start, b, [Complete] + rest);
    RunFrom(Init(3), Put(6), a, [Start] + ([Complete] + rest));
    TwoLeaveOne(d);
  }

  lemma TwoLeaveOne(s: State)
    requires s == State(3, 1, [7, 8, 9], 1, false, [6, 7, 8, 9], [6])
    ensures !Completions(s, 2).idle
  {
    var a := Step(s, Complete);
    assert a.bytes == [8, 9] && a.rd == 2 && a.flight == 1;
    var b := Step(a, Complete);
    assert b.bytes == [9] && !b.idle;
    assert Completions(s, 2) == Completions(a, 1) == Completions(b, 0) == b;
  }
}
