/** The receive task of the command UART: a byte machine that reads lines of three numbers. */
module CommandParser {
  import opened Common
  import opened Rendering
  import opened Ring
  import opened Sprintf

  datatype RcvState = RsNbr1 | RsNbr2 | RsNbr3 | RsWaitingEnd

  type Triple = (u8, u8, u8)

  datatype State = State(rx: RcvState, nbr: seq<u8>, indx: nat, calls: seq<Triple>)

  predicate Inv(s: State) {
    |s.nbr| == 3 && s.indx <= 2
  }

  /** `TryConvertToDigit`. */
  function ToDigit(b: u8): Option<u8> {
    if '0' as int <= b <= '9' as int then Some(b - '0' as int)
    else if 'A' as int <= b <= 'F' as int then Some(0x0A + b - 'A' as int)
    else None
  }

  predicate IsDelimiter(b: u8) {
    b == ',' as int || b == ' ' as int
  }

  predicate IsEnd(b: u8) {
    b == '\r' as int || b == '\n' as int
  }

  /** `IResetCmd`. */
  function Reset(s: State): State {
    s.(rx := RsNbr1, indx := 0)
  }

  /** A delimiter, or something that is neither digit nor delimiter. */
  function NotADigit(s: State, b: u8): State {
    if IsDelimiter(b) && s.indx != 2 then s.(indx := s.indx + 1, rx := RsNbr1) else Reset(s)
  }

  /** `n*10 + d` in a byte. */
  function Append(n: u8, d: u8): u8 {
    var wide: int := n * 10 + d;
    wide % 0x100
  }

  /** `IProcessByte`; `calls` is what `UartCmdCallback` was called with. */
  function Step(s: State, b: u8): (t: State)
    requires Inv(s)
    ensures Inv(t)
  {
    if IsEnd(b) then
      Reset(if s.indx == 2 then s.(calls := s.calls + [(s.nbr[0], s.nbr[1], s.nbr[2])]) else s)
    else
      match (s.rx, ToDigit(b))
      case (RsNbr1, Some(d)) => s.(nbr := s.nbr[s.indx := d], rx := RsNbr2)
      case (RsNbr2, Some(d)) => s.(nbr := s.nbr[s.indx := Append(s.nbr[s.indx], d)], rx := RsNbr3)
      case (RsNbr3, Some(d)) => s.(nbr := s.nbr[s.indx := Append(s.nbr[s.indx], d)], rx := if s.indx == 2 then RsWaitingEnd else RsNbr3)
      case (RsWaitingEnd, _) => Reset(s)
      case (_, None) => NotADigit(s, b)
  }

  /** The code of a character as it goes over the wire. */
  function Code(c: char): u8 {
    (c as int) % 0x100
  }

  function Codes(text: string): seq<u8> {
    seq(|text|, i requires 0 <= i < |text| => Code(text[i]))
  }

  /** The machine after a number of bytes. */
  function Process(s: State, bytes: seq<u8>): (t: State)
    requires Inv(s)
    ensures Inv(t)
    decreases |bytes|
  {
    if bytes == [] then s else Process(Step(s, bytes[0]), bytes[1..])
  }

  /** The machine after the characters of a text. */
  function Feed(s: State, text: string): (t: State)
    requires Inv(s)
    ensures Inv(t)
  {
    Process(s, Codes(text))
  }

  lemma {:induction false} ProcessAppend(s: State, a: seq<u8>, b: seq<u8>)
    requires Inv(s)
    ensures Process(s, a + b) == Process(Process(s, a), b)
    decreases |a|
  {
    if a == [] {
      assert a + b == b;
    } else {
      assert (a + b)[1..] == a[1..] + b;
      ProcessAppend(Step(s, a[0]), a[1..], b);
    }
  }

  lemma ProcessOne(s: State, b: u8)
    requires Inv(s)
    ensures Process(s, [b]) == Step(s, b)
  {
    hide Step;
    assert [b][1..] == [];
  }

  lemma FeedAppend(s: State, a: string, b: string)
    requires Inv(s)
    ensures Feed(s, a + b) == Feed(Feed(s, a), b)
  {
    hide Process, Code;
    assert Codes(a + b) == Codes(a) + Codes(b);
    ProcessAppend(s, Codes(a), Codes(b));
  }

  lemma FeedOne(s: State, c: char)
    requires Inv(s)
    ensures Feed(s, [c]) == Step(s, Code(c))
  {
    hide Process, Step, Code;
    assert Codes([c]) == [Code(c)];
    ProcessOne(s, Code(c));
  }

  lemma FeedNothing(s: State)
    requires Inv(s)
    ensures Feed(s, "") == s
  {
  }

  /** The one to three digits of a byte. */
  lemma ByteDigits(n: u8)
    ensures n < 10 ==> Digits(n, 10) == [Digit(n)]
    ensures 10 <= n < 100 ==> Digits(n, 10) == [Digit(n / 10)] + [Digit(n % 10)]
    ensures 100 <= n ==> Digits(n, 10) == [Digit(n / 100)] + [Digit(n / 10 % 10)] + [Digit(n % 10)]
  {
    assert n >= 10 ==> Digits(n, 10) == Digits(n / 10, 10) + [Digit(n % 10)];
    assert n >= 100 ==> Digits(n / 10, 10) == Digits(n / 100, 10) + [Digit(n / 10 % 10)];
  }

  lemma DigitIsRead(d: nat)
    requires d < 10
    ensures !IsEnd(Code(Digit(d))) && ToDigit(Code(Digit(d))) == Some(d)
  {
  }

  lemma StepOnDigit(s: State, b: u8, d: u8)
    requires Inv(s) && !IsEnd(b) && ToDigit(b) == Some(d)
    ensures s.rx == RsNbr1 ==> Step(s, b) == s.(nbr := s.nbr[s.indx := d], rx := RsNbr2)
    ensures s.rx == RsNbr2 || s.rx == RsNbr3 ==>
              Step(s, b) == s.(nbr := s.nbr[s.indx := Append(s.nbr[s.indx], d)],
                               rx := if s.rx == RsNbr3 && s.indx == 2 then RsWaitingEnd else RsNbr3)
  {
    hide Append;
  }

  lemma AppendFits(n: u8, d: u8)
    requires n * 10 + d < 0x100
    ensures Append(n, d) == n * 10 + d
  {
  }

  /** What a further digit does to the current number, as long as the number stays a byte. */
  lemma DigitStep(s: State, d: nat)
    requires Inv(s) && d < 10 && (s.rx == RsNbr2 || s.rx == RsNbr3) && s.nbr[s.indx] * 10 + d < 0x100
    ensures Feed(s, [Digit(d)]) ==
            s.(nbr := s.nbr[s.indx := s.nbr[s.indx] * 10 + d],
               rx := if s.rx == RsNbr3 && s.indx == 2 then RsWaitingEnd else RsNbr3)
  {
    hide Digit, Code, ToDigit, IsEnd, Step, Feed, Append;
    DigitIsRead(d);
    FeedOne(s, Digit(d));
    StepOnDigit(s, Code(Digit(d)), d);
    AppendFits(s.nbr[s.indx], d);
  }

  lemma FirstDigitStep(s: State, d: nat)
    requires Inv(s) && d < 10 && s.rx == RsNbr1
    ensures Feed(s, [Digit(d)]) == s.(nbr := s.nbr[s.indx := d], rx := RsNbr2)
  {
    hide Digit, Code, ToDigit, IsEnd, Step, Feed, Append;
    DigitIsRead(d);
    FeedOne(s, Digit(d));
    StepOnDigit(s, Code(Digit(d)), d);
  }

  lemma DigitsAreRead(s: State, text: string, t: State, d: nat)
    requires Inv(s) && d < 10 && Feed(s, text) == t && (t.rx == RsNbr2 || t.rx == RsNbr3)
    requires t.nbr[t.indx] * 10 + d < 0x100
    ensures Feed(s, text + [Digit(d)]) ==
            t.(nbr := t.nbr[t.indx := t.nbr[t.indx] * 10 + d],
               rx := if t.rx == RsNbr3 && t.indx == 2 then RsWaitingEnd else RsNbr3)
  {
    hide Feed, Digit, Step;
    FeedAppend(s, text, [Digit(d)]);
    DigitStep(t, d);
  }

  /** After the digits of a byte the current number is that byte, without overflow on the way. */
  lemma NumberIsRead(s: State, n: u8)
    requires Inv(s) && s.rx == RsNbr1
    ensures var t := Feed(s, Digits(n, 10));
            && t.(rx := RsNbr1) == s.(nbr := s.nbr[s.indx := n])
            && t.rx != RsNbr1 && (s.indx < 2 ==> t.rx != RsWaitingEnd)
  {
    hide Digits, Feed, Digit, Step;
    ByteDigits(n);
    if n < 10 {
      FirstDigitStep(s, n);
    } else if n < 100 {
      FirstDigitStep(s, n / 10);
      DigitsAreRead(s, [Digit(n / 10)], s.(nbr := s.nbr[s.indx := n / 10], rx := RsNbr2), n % 10);
      assert s.nbr[s.indx := n / 10][s.indx := n] == s.nbr[s.indx := n];
    } else {
      var a, b := s.nbr[s.indx := n / 100], s.nbr[s.indx := n / 10];
      FirstDigitStep(s, n / 100);
      DigitsAreRead(s, [Digit(n / 100)], s.(nbr := a, rx := RsNbr2), n / 10 % 10);
      assert a[s.indx := n / 10] == b;
      DigitsAreRead(s, [Digit(n / 100)] + [Digit(n / 10 % 10)], s.(nbr := b, rx := RsNbr3), n % 10);
      assert b[s.indx := n] == s.nbr[s.indx := n];
    }
  }

  /** The printed form of a triple. */
  function Line(t: Triple): string {
    Digits(t.0, 10) + ("," + (Digits(t.1, 10) + ("," + (Digits(t.2, 10) + "\r"))))
  }

  predicate Ready(s: State) {
    Inv(s) && s.rx == RsNbr1 && s.indx == 0
  }

  lemma FieldIsRead(s: State, n: u8)
    requires Inv(s) && s.rx == RsNbr1 && s.indx < 2
    ensures Feed(s, Digits(n, 10) + ",") == s.(nbr := s.nbr[s.indx := n], indx := s.indx + 1)
  {
    hide Digits, Feed;
    NumberIsRead(s, n);
    FeedAppend(s, Digits(n, 10), ",");
    FeedOne(Feed(s, Digits(n, 10)), ',');
  }

  lemma LastFieldIsRead(s: State, n: u8)
    requires Inv(s) && s.rx == RsNbr1 && s.indx == 2
    ensures Feed(s, Digits(n, 10) + "\r") == Reset(s.(nbr := s.nbr[2 := n], calls := s.calls + [(s.nbr[0], s.nbr[1], n)]))
  {
    hide Digits, Feed;
    NumberIsRead(s, n);
    FeedAppend(s, Digits(n, 10), "\r");
    FeedOne(Feed(s, Digits(n, 10)), '\r');
  }

  lemma LineFields(d0: string, d1: string, c: string)
    ensures d0 + ("," + (d1 + ("," + c))) == ((d0 + ",") + (d1 + ",")) + c
  {
    Regroup(d0, ",", d1 + ("," + c));
    Regroup(d1, ",", c);
    Regroup(d0 + ",", d1 + ",", c);
  }

  /** A printed line fires the callback once, with the printed numbers, and leaves the machine ready. */
  lemma LineIsRead(s: State, t: Triple)
    requires Ready(s)
    ensures Ready(Feed(s, Line(t))) && Feed(s, Line(t)).calls == s.calls + [t]
  {
    hide Digits, Feed, Step;
    var a, b, c := Digits(t.0, 10) + ",", Digits(t.1, 10) + ",", Digits(t.2, 10) + "\r";
    LineFields(Digits(t.0, 10), Digits(t.1, 10), c);
    var s1 := s.(nbr := s.nbr[0 := t.0], indx := 1);
    var s2 := s1.(nbr := s1.nbr[1 := t.1], indx := 2);
    FieldIsRead(s, t.0);
    FieldIsRead(s1, t.1);
    LastFieldIsRead(s2, t.2);
    FeedAppend(s, a, b);
    FeedAppend(s, a + b, c);
  }

  function Lines(ts: seq<Triple>): string {
    if ts == [] then "" else Line(ts[0]) + Lines(ts[1..])
  }

  lemma {:induction false} LinesAreRead(s: State, ts: seq<Triple>)
    requires Ready(s)
    ensures Ready(Feed(s, Lines(ts))) && Feed(s, Lines(ts)).calls == s.calls + ts
    decreases |ts|
  {
    if ts == [] {
      FeedNothing(s);
      assert s.calls + [] == s.calls;
    } else {
      LineIsRead(s, ts[0]);
      var s1 := Feed(s, Line(ts[0]));
      LinesAreRead(s1, ts[1..]);
      FeedAppend(s, Line(ts[0]), Lines(ts[1..]));
      Regroup(s.calls, [ts[0]], ts[1..]);
      assert [ts[0]] + ts[1..] == ts;
    }
  }

  const FORMAT: CString := "%u,%u,%u\r"

  function Arguments(t: Triple): seq<Arg> {
    [Word(t.0), Word(t.1), Word(t.2)]
  }

  lemma NumberConversion(n: u8, args: seq<Arg>)
    ensures Conversion('u', 0, false, [Word(n)] + args) == Some(([Number("", Digits(n, 10))], args))
  {
    assert ([Word(n)] + args)[1..] == args;
    assert Padding(|Digits(n, 10)|, 0, false) == "";
  }

  /** An unpadded number between other text. */
  lemma PlanNumber(f: string, n: u8, args: seq<Arg>)
    requires Plan(f, args).Some?
    ensures Plan("%u" + f, [Word(n)] + args) == Some([Number("", Digits(n, 10))] + Plan(f, args).value)
  {
    hide Digits, Conversion, Width, Plan;
    var whole, tail := "%u" + f, "u" + f;
    assert whole[1..] == tail && tail[1..] == f;
    NoWidth(tail);
    NumberConversion(n, args);
    PlanAtConversion(whole, [Word(n)] + args);
  }

  lemma PlanAtConversion(f: string, args: seq<Arg>)
    requires f != "" && f[0] == '%'
    ensures var (width, zero, tail) := Width(f[1..], 0, false);
            tail != "" && Conversion(tail[0], width, zero, args).Some? ==>
              var (ps, left) := Conversion(tail[0], width, zero, args).value;
              Plan(tail[1..], left).Some? ==> Plan(f, args) == Some(ps + Plan(tail[1..], left).value)
  {
    hide Conversion;
  }

  lemma NoWidth(tail: string)
    requires tail != "" && !IsDigit(tail[0])
    ensures Width(tail, 0, false) == (0, false, tail)
  {
  }

  lemma PlanCharacter(c: char, f: string, args: seq<Arg>)
    requires Plan(f, args).Some? && c != '%'
    ensures Plan([c] + f, args) == Some([Text([c])] + Plan(f, args).value)
  {
    assert ([c] + f)[1..] == f;
  }

  function LinePieces(t: Triple): seq<Piece> {
    [Number("", Digits(t.0, 10))] + ([Text(",")] + ([Number("", Digits(t.1, 10))] + ([Text(",")] +
    ([Number("", Digits(t.2, 10))] + [Text("\r")]))))
  }

  lemma PlanOfLine(t: Triple)
    ensures Plan(FORMAT, Arguments(t)) == Some(LinePieces(t))
  {
    hide Plan, Digits;
    var f5 := "%u" + "\r";
    var f4 := [','] + f5;
    var f3 := "%u" + f4;
    var f2 := [','] + f3;
    var a2 := [Word(t.2)] + [];
    var a1 := [Word(t.1)] + a2;
    PlanOfNothing();
    PlanCharacter('\r', "", []);
    assert ['\r'] + "" == "\r" && [Text(['\r'])] + [] == [Text("\r")];
    PlanNumber("\r", t.2, []);
    PlanCharacter(',', f5, a2);
    PlanNumber(f4, t.1, a2);
    PlanCharacter(',', f3, a1);
    PlanNumber(f2, t.0, a1);
    assert FORMAT == "%u" + f2;
    assert Arguments(t) == [Word(t.0)] + a1;
  }

  lemma PlanOfNothing()
    ensures Plan("", []) == Some([])
  {
  }

  lemma RenderFirst(p: Piece, ps: seq<Piece>)
    ensures Render([p] + ps) == Full(p) + Render(ps)
  {
    assert ([p] + ps)[1..] == ps;
  }

  lemma RenderOfLine(t: Triple)
    ensures Render(LinePieces(t)) == Line(t)
  {
    hide Digits, Render;
    var d0, d1, d2 := Number("", Digits(t.0, 10)), Number("", Digits(t.1, 10)), Number("", Digits(t.2, 10));
    var p4 := [d2] + [Text("\r")];
    var p3 := [Text(",")] + p4;
    var p2 := [d1] + p3;
    var p1 := [Text(",")] + p2;
    RenderLast(Text("\r"));
    RenderFirst(d2, [Text("\r")]);
    RenderFirst(Text(","), p4);
    RenderFirst(d1, p3);
    RenderFirst(Text(","), p2);
    RenderFirst(d0, p1);
    assert "" + Digits(t.0, 10) == Digits(t.0, 10);
    assert "" + Digits(t.1, 10) == Digits(t.1, 10);
    assert "" + Digits(t.2, 10) == Digits(t.2, 10);
  }

  lemma RenderLast(p: Piece)
    ensures Render([p]) == Full(p)
  {
    assert [p][1..] == [];
    assert Full(p) + "" == Full(p);
  }

  lemma LineIsShort(t: Triple)
    ensures |Line(t)| <= 12
  {
    hide Digits;
    ByteDigits(t.0);
    ByteDigits(t.1);
    ByteDigits(t.2);
  }

  /** What the formatter prints for a triple when it may print twelve characters or more. */
  lemma PrintedLine(t: Triple, maxLength: nat)
    requires maxLength >= 12
    ensures Plan(FORMAT, Arguments(t)).Some?
    ensures Clip(Plan(FORMAT, Arguments(t)).value, maxLength) == Line(t)
  {
    PlanOfLine(t);
    RenderOfLine(t);
    LineIsShort(t);
    ClipWhole(LinePieces(t), maxLength);
  }

  /** Everything printed for a list of triples, one call of the formatter for each. */
  function Printed(ts: seq<Triple>, maxLength: nat): string {
    if ts == [] then "" else
    var plan := Plan(FORMAT, Arguments(ts[0]));
    (if plan.Some? then Clip(plan.value, maxLength) else "") + Printed(ts[1..], maxLength)
  }

  lemma {:induction false} PrintedLines(ts: seq<Triple>, maxLength: nat)
    requires maxLength >= 12
    ensures Printed(ts, maxLength) == Lines(ts)
  {
    if ts != [] {
      PrintedLine(ts[0], maxLength);
      PrintedLines(ts[1..], maxLength);
    }
  }

  /**
   Printing and reading back: whatever byte triples are formatted, with room for twelve characters each,
   the machine calls back with exactly those triples, in order, and is ready again.
   */
  lemma PrintParseRoundTrip(s: State, ts: seq<Triple>, maxLength: nat)
    requires Ready(s) && maxLength >= 12
    ensures var t := Feed(s, Printed(ts, maxLength)); Ready(t) && t.calls == s.calls + ts
  {
    PrintedLines(ts, maxLength);
    LinesAreRead(s, ts);
  }

  /** The receiving part of `CmdUart_t`. */
  class CmdUart {
    const IRxBuf: array<u8>
    const Nbr: array<u8>
    var CNDTR: nat
    var SzOld: nat
    var RIndx: nat
    var RxState: RcvState
    var NbrIndx: nat

    ghost var calls: seq<Triple>
    ghost var pending: seq<u8>    // received and not yet processed

    ghost function Machine(): State
      reads this, Nbr
    {
      State(RxState, Nbr[..], NbrIndx, calls)
    }

    ghost predicate Valid()
      reads this, IRxBuf, Nbr
    {
      && IRxBuf != Nbr && Nbr.Length == 3 && NbrIndx <= 2
      && RIndx < IRxBuf.Length && 1 <= CNDTR <= IRxBuf.Length && SzOld == RIndx
      && |pending| < IRxBuf.Length
      && IRxBuf.Length - CNDTR == Wrap(RIndx + |pending|, IRxBuf.Length)
      && Contents(IRxBuf[..], RIndx, |pending|) == pending
    }

    constructor (size: nat)
      requires size >= 1
      ensures Valid() && fresh(IRxBuf) && fresh(Nbr) && pending == [] && calls == [] && Ready(Machine())
    {
      IRxBuf := new u8[size](_ => 0);
      Nbr := new u8[3](_ => 0);
      CNDTR, SzOld, RIndx, RxState, NbrIndx := size, 0, 0, RsNbr1, 0;
      calls, pending := [], [];
    }

    /** The DMA stores a byte; fewer bytes are pending than there are cells. */
    method DmaReceive(b: u8)
      requires Valid() && |pending| + 1 < IRxBuf.Length
      modifies this`CNDTR, this`pending, IRxBuf
      ensures Valid() && pending == old(pending) + [b] && Machine() == old(Machine())
    {
      hide Contents;
      ghost var cells, w := IRxBuf[..], IRxBuf.Length - CNDTR;
      PutOne(cells, RIndx, |pending|, b);
      IRxBuf[IRxBuf.Length - CNDTR] := b;
      assert IRxBuf[..] == cells[w := b];
      CNDTR := CNDTR - 1;
      if CNDTR == 0 {
        CNDTR := IRxBuf.Length;
      }
      pending := pending + [b];
    }

    method IResetCmd()
      modifies this`RxState, this`NbrIndx
      ensures RxState == RsNbr1 && NbrIndx == 0
    {
      RxState := RsNbr1;
      NbrIndx := 0;
    }

    /** The branch of a byte that is no digit. */
    method NextNumber(b: u8)
      modifies this`RxState, this`NbrIndx
      ensures Machine() == NotADigit(old(Machine()), b)
    {
      if IsDelimiter(b) {
        if NbrIndx == 2 {
          IResetCmd();
        } else {
          NbrIndx := NbrIndx + 1;
          RxState := RsNbr1;
        }
      } else {
        IResetCmd();
      }
    }

    /** `IProcessByte`. */
    method IProcessByte(b: u8)
      requires Nbr.Length == 3 && NbrIndx <= 2
      modifies this`RxState, this`NbrIndx, this`calls, Nbr
      ensures NbrIndx <= 2 && Machine() == Step(old(Machine()), b)
    {
      if IsEnd(b) {
        if NbrIndx == 2 {
          calls := calls + [(Nbr[0], Nbr[1], Nbr[2])];
        }
        IResetCmd();
        return;
      }
      var d := ToDigit(b);
      match RxState {
        case RsNbr1 =>
          if d.Some? {
            Nbr[NbrIndx] := d.value;
            RxState := RsNbr2;
          } else {
            NextNumber(b);
          }
        case RsNbr2 =>
          if d.Some? {
            Nbr[NbrIndx] := Append(Nbr[NbrIndx], d.value);
            RxState := RsNbr3;
          } else {
            NextNumber(b);
          }
        case RsNbr3 =>
          if d.Some? {
            Nbr[NbrIndx] := Append(Nbr[NbrIndx], d.value);
            if NbrIndx == 2 {
              RxState := RsWaitingEnd;
            }
          } else {
            NextNumber(b);
          }
        case RsWaitingEnd =>
          IResetCmd();
      }
    }

    /** One turn of the loop of `IRxTask`. */
    method ProcessNext()
      requires IRxBuf != Nbr && Nbr.Length == 3 && NbrIndx <= 2
      requires RIndx < IRxBuf.Length && 0 < |pending| <= IRxBuf.Length
      requires Contents(IRxBuf[..], RIndx, |pending|) == pending
      modifies this`RxState, this`NbrIndx, this`calls, this`RIndx, this`pending, Nbr
      ensures NbrIndx <= 2 && Machine() == Step(old(Machine()), old(pending)[0])
      ensures pending == old(pending)[1..] && RIndx == Wrap(old(RIndx) + 1, IRxBuf.Length) < IRxBuf.Length
      ensures Contents(IRxBuf[..], RIndx, |pending|) == pending
    {
      hide Contents, Step;
      GetOne(IRxBuf[..], RIndx, |pending|);
      IProcessByte(IRxBuf[RIndx]);
      RIndx := RIndx + 1;
      if RIndx >= IRxBuf.Length {
        RIndx := 0;
      }
      pending := pending[1..];
    }

    /** `IRxTask` after its sleep: the bytes received since the last time go through the machine in order. */
    method IRxTask()
      requires Valid()
      modifies this, Nbr
      ensures Valid() && pending == []
      ensures Machine() == Process(old(Machine()), old(pending))
    {
      hide Contents, Step;
      var Sz := IRxBuf.Length - CNDTR;
      if Sz != SzOld {
        var ByteCnt: int := Sz - SzOld;
        if ByteCnt < 0 {
          ByteCnt := ByteCnt + IRxBuf.Length;
        }
        SzOld := Sz;
        var i := 0;
        ghost var all, m0 := pending, Machine();
        assert all[..0] == [] && all[0..] == all;
        while i < ByteCnt
          invariant 0 <= i <= ByteCnt == |all| < IRxBuf.Length && pending == all[i..]
          invariant RIndx < IRxBuf.Length && Wrap(RIndx + |pending|, IRxBuf.Length) == Sz == SzOld
          invariant Contents(IRxBuf[..], RIndx, |pending|) == pending
          invariant NbrIndx <= 2 && Machine() == Process(m0, all[..i])
          invariant CNDTR == old(CNDTR)
        {
          ProcessAppend(m0, all[..i], [all[i]]);
          ProcessOne(Process(m0, all[..i]), all[i]);
          assert all[..i] + [all[i]] == all[..i + 1];
          ProcessNext();
          i := i + 1;
        }
        assert all[..i] == all;
      }
    }

    /**
     Bytes coming in while the task polls: at any moments, but always before the received bytes overrun the
     buffer, and once in the end.
     */
    method ReceiveAll(bytes: seq<u8>)
      requires Valid() && pending == [] && IRxBuf.Length >= 2
      modifies this, IRxBuf, Nbr
      ensures Valid() && pending == []
      ensures Machine() == Process(old(Machine()), bytes)
    {
      hide Contents, Step;
      ghost var m0 := Machine();
      var i, waiting := 0, 0;
      assert bytes[..0] + [] == [] && Process(m0, []) == m0;
      while i < |bytes|
        invariant 0 <= i <= |bytes| && Valid() && waiting == |pending|
        invariant Process(Machine(), pending) == Process(m0, bytes[..i])
      {
        var polled: bool := *;
        if polled || waiting + 1 >= IRxBuf.Length {
          IRxTask();
          waiting := 0;
        }
        ProcessAppend(Machine(), pending, [bytes[i]]);
        ProcessAppend(m0, bytes[..i], [bytes[i]]);
        assert bytes[..i] + [bytes[i]] == bytes[..i + 1];
        DmaReceive(bytes[i]);
        i, waiting := i + 1, waiting + 1;
      }
      IRxTask();
      assert bytes[..i] == bytes;
    }

    /**
     From the formatter to the callbacks: what `kl_vsprintf` prints for a list of triples, received over any
     polls, makes exactly the calls with those triples.
     */
    method ReceivePrinted(ts: seq<Triple>, maxLength: u32)
      requires Valid() && pending == [] && IRxBuf.Length >= 2 && Ready(Machine())
      requires 12 <= maxLength < 0xFFFF_FFFF
      modifies this, IRxBuf, Nbr
      ensures Valid() && pending == [] && Ready(Machine())
      ensures calls == old(calls) + ts
    {
      hide Contents, Step, Process, Printed, Codes;
      var text := PrintAll(ts, maxLength);
      PrintParseRoundTrip(Machine(), ts, maxLength);
      ReceiveAll(Codes(text));
    }
  }

  /** The text of a list of triples, each printed by a call of the formatter. */
  method PrintAll(ts: seq<Triple>, maxLength: u32) returns (text: string)
    requires 12 <= maxLength < 0xFFFF_FFFF
    ensures text == Printed(ts, maxLength)
  {
    hide Clip, Plan;
    text := "";
    var i := 0;
    while i < |ts|
      invariant 0 <= i <= |ts| && text + Printed(ts[i..], maxLength) == Printed(ts, maxLength)
    {
      PrintedLine(ts[i], maxLength);
      var printer := new Printer(maxLength);
      var _ := printer.Vsprintf(FORMAT, Arguments(ts[i]));
      Regroup(text, printer.out, Printed(ts[i + 1..], maxLength));
      text := text + printer.out;
      i := i + 1;
    }
    assert text + "" == text;
  }
}
