/** What the byte machine of the command UART makes of any line. */
module CommandLines {
  import opened Common
  import opened Numerals
  import opened CommandParser

  predicate Delimits(c: char) {
    c == ',' || c == ' '
  }

  predicate Ends(c: char) {
    c == '\r' || c == '\n'
  }

  /** A row of digits up to F in decimal places. */
  function Decimal(f: string): int
    requires AllDigitsOf(f, 16)
  {
    if f == "" then 0 else Decimal(f[..|f| - 1]) * 10 + HexValue(f[|f| - 1]).value
  }

  /** What a byte keeps of a number. */
  function Low8(x: int): u8 {
    x % 0x100
  }

  /** The number a field stands for: its value in a byte, or, if it is empty, the one from before. */
  function NumberOf(f: string, before: u8): u8
    requires AllDigitsOf(f, 16)
  {
    if f == "" then before else Low8(Decimal(f))
  }

  lemma Low8Ten(v: int, d: int)
    ensures Low8(Low8(v) * 10 + d) == Low8(v * 10 + d)
  {
    var q, w := v / 0x100, v % 0x100;
    assert v * 10 + d == (w * 10 + d) + q * 10 * 0x100;
  }

  lemma AppendKeepsLow8(n: u8, d: u8)
    ensures Append(n, d) == Low8(n * 10 + d)
  {
  }

  lemma DigitCode(c: char)
    requires IsDigitOf(c, 16)
    ensures !IsEnd(Code(c)) && ToDigit(Code(c)) == Some(HexValue(c).value)
  {
  }

  /** The state within a number after `k` of its digits. */
  function StateAfter(k: nat, indx: nat): RcvState {
    if k == 0 then RsNbr1
    else if k == 1 then RsNbr2
    else if k >= 3 && indx == 2 then RsWaitingEnd
    else RsNbr3
  }

  /** A field of any number of digits, up to three for the last number. */
  lemma {:induction false} FieldRead(s: State, f: string)
    requires Inv(s) && s.rx == RsNbr1 && AllDigitsOf(f, 16) && (s.indx == 2 ==> |f| <= 3)
    ensures Feed(s, f) == s.(nbr := s.nbr[s.indx := NumberOf(f, s.nbr[s.indx])], rx := StateAfter(|f|, s.indx))
    decreases |f|
  {
    hide Feed, Step, Append, Low8, HexValue, ToDigit, IsEnd, Code, Decimal;
    if f == "" {
      FeedNothing(s);
      assert s.nbr[s.indx := s.nbr[s.indx]] == s.nbr;
    } else {
      var front, c := f[..|f| - 1], f[|f| - 1];
      assert f == front + [c];
      var t, d := Feed(s, front), HexValue(c).value;
      FieldRead(s, front);
      FeedAppend(s, front, [c]);
      FeedOne(t, c);
      DigitCode(c);
      StepOnDigit(t, Code(c), d);
      DecimalStep(f);
      AppendKeepsLow8(t.nbr[t.indx], d);
      Low8Ten(Decimal(front), d);
      Low8OfDigit(c);
      SetTwice(s.nbr, s.indx, NumberOf(front, s.nbr[s.indx]), NumberOf(f, s.nbr[s.indx]));
    }
  }

  lemma DecimalStep(f: string)
    requires AllDigitsOf(f, 16) && f != ""
    ensures AllDigitsOf(f[..|f| - 1], 16) && IsDigitOf(f[|f| - 1], 16)
    ensures Decimal(f) == Decimal(f[..|f| - 1]) * 10 + HexValue(f[|f| - 1]).value
    ensures Decimal("") == 0
  {
  }

  lemma Low8OfDigit(c: char)
    requires IsDigitOf(c, 16)
    ensures Low8(HexValue(c).value) == HexValue(c).value
  {
  }

  lemma SetTwice(nbr: seq<u8>, i: nat, a: u8, b: u8)
    requires i < |nbr|
    ensures nbr[i := a][i := b] == nbr[i := b]
  {
  }

  /** A delimiter moves on to the next number. */
  lemma DelimiterRead(s: State, d: char)
    requires Inv(s) && Delimits(d) && s.indx < 2 && s.rx != RsWaitingEnd
    ensures Feed(s, [d]) == s.(indx := s.indx + 1, rx := RsNbr1)
  {
    FeedOne(s, d);
  }

  /** The end of a line makes the call if there are three numbers, and the machine is ready for the next. */
  lemma EndRead(s: State, e: char)
    requires Inv(s) && Ends(e)
    ensures Ready(Feed(s, [e])) && Feed(s, [e]).nbr == s.nbr
    ensures Feed(s, [e]).calls == if s.indx == 2 then s.calls + [(s.nbr[0], s.nbr[1], s.nbr[2])] else s.calls
  {
    FeedOne(s, e);
  }

  /** A first field, and a second one, with their delimiters. */
  lemma FieldThenDelimiter(s: State, f: string, d: char)
    requires Inv(s) && s.rx == RsNbr1 && s.indx < 2 && AllDigitsOf(f, 16) && Delimits(d)
    ensures Feed(s, f + [d]) == s.(nbr := s.nbr[s.indx := NumberOf(f, s.nbr[s.indx])], indx := s.indx + 1)
  {
    hide Feed, NumberOf, Delimits;
    FieldRead(s, f);
    FeedAppend(s, f, [d]);
    DelimiterRead(Feed(s, f), d);
  }

  lemma FieldThenEnd(s: State, f: string, e: char)
    requires Inv(s) && s.rx == RsNbr1 && AllDigitsOf(f, 16) && Ends(e) && (s.indx == 2 ==> |f| <= 3)
    ensures var nbr := s.nbr[s.indx := NumberOf(f, s.nbr[s.indx])];
            var t := Feed(s, f + [e]);
            && Ready(t) && t.nbr == nbr
            && t.calls == if s.indx == 2 then s.calls + [(nbr[0], nbr[1], nbr[2])] else s.calls
  {
    hide Feed, NumberOf, Ends;
    FieldRead(s, f);
    FeedAppend(s, f, [e]);
    EndRead(Feed(s, f), e);
  }

  /**
   Three fields between delimiters, commas or spaces, in digits 0 to 9 and A to F: whichever end follows, the
   call is made with the three numbers, each in a byte.
   */
  lemma ThreeFields(s: State, f0: string, d0: char, f1: string, d1: char, f2: string, e: char)
    requires Ready(s) && AllDigitsOf(f0, 16) && AllDigitsOf(f1, 16) && AllDigitsOf(f2, 16) && |f2| <= 3
    requires Delimits(d0) && Delimits(d1) && Ends(e)
    ensures var t := Feed(s, (f0 + [d0]) + ((f1 + [d1]) + (f2 + [e])));
            && Ready(t)
            && t.calls == s.calls + [(NumberOf(f0, s.nbr[0]), NumberOf(f1, s.nbr[1]), NumberOf(f2, s.nbr[2]))]
  {
    hide Feed, NumberOf, AllDigitsOf;
    var s1 := Feed(s, f0 + [d0]);
    var s2 := Feed(s1, f1 + [d1]);
    FieldThenDelimiter(s, f0, d0);
    FieldThenDelimiter(s1, f1, d1);
    FieldThenEnd(s2, f2, e);
    FeedAppend(s1, f1 + [d1], f2 + [e]);
    FeedAppend(s, f0 + [d0], (f1 + [d1]) + (f2 + [e]));
  }

  /** A line of one or two fields makes no call. */
  lemma FewerFields(s: State, f0: string, d0: char, f1: string, e: char)
    requires Ready(s) && AllDigitsOf(f0, 16) && AllDigitsOf(f1, 16) && Delimits(d0) && Ends(e)
    ensures Ready(Feed(s, f0 + [e])) && Feed(s, f0 + [e]).calls == s.calls
    ensures var t := Feed(s, (f0 + [d0]) + (f1 + [e])); Ready(t) && t.calls == s.calls
  {
    hide Feed, NumberOf, AllDigitsOf;
    FieldThenEnd(s, f0, e);
    FieldThenDelimiter(s, f0, d0);
    FieldThenEnd(Feed(s, f0 + [d0]), f1, e);
    FeedAppend(s, f0 + [d0], f1 + [e]);
  }

  /**
   What makes the machine forget the line so far, and start again behind it: a character that is neither
   digit nor delimiter nor end, a third delimiter, or anything but the end after three digits of the third
   number.
   */
  lemma StartsAgain(s: State, c: char)
    requires Inv(s) && c as int < 0x100 && !Ends(c)
    requires (!IsDigitOf(c, 16) && !Delimits(c)) || (Delimits(c) && s.indx == 2) || s.rx == RsWaitingEnd
    ensures Ready(Feed(s, [c])) && Feed(s, [c]).calls == s.calls && Feed(s, [c]).nbr == s.nbr
  {
    FeedOne(s, c);
  }
}
