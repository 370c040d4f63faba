/** What the printed text of each conversion means, read by the digits people read. */
module Numerals {
  import opened Common
  import opened Rendering
  import opened Arithmetic

  /** The value of a decimal or upper-case hexadecimal digit. */
  function HexValue(c: char): Option<nat> {
    if '0' <= c <= '9' then Some(c as nat - '0' as nat)
    else if 'A' <= c <= 'F' then Some(c as nat - 'A' as nat + 10)
    else None
  }

  predicate IsDigitOf(c: char, base: nat) {
    HexValue(c).Some? && HexValue(c).value < base
  }

  predicate AllDigitsOf(s: string, base: nat) {
    forall i | 0 <= i < |s| :: IsDigitOf(s[i], base)
  }

  /** A row of digits read in a base. */
  function ReadBack(s: string, base: nat): nat
    requires AllDigitsOf(s, base)
  {
    if s == "" then 0 else ReadBack(s[..|s| - 1], base) * base + HexValue(s[|s| - 1]).value
  }

  /** `s` is how the number is written: digits of the base, no zero in front. */
  predicate Denotes(s: string, n: nat, base: nat) {
    && s != "" && AllDigitsOf(s, base) && ReadBack(s, base) == n
    && (if n == 0 then s == "0" else s[0] != '0')
  }

  /** Padding in front of `len` characters: up to the width, in zeros or in spaces. */
  predicate IsPadding(pad: string, len: nat, width: nat, zero: bool) {
    && |pad| == (if len < width then width - len else 0)
    && forall i | 0 <= i < |pad| :: pad[i] == if zero then '0' else ' '
  }

  /** The text is the number in front of which the sign and the padding stand. */
  ghost predicate IsNumber(text: string, sign: string, n: nat, base: nat, width: nat, zero: bool) {
    exists pad, digits :: text == sign + (pad + digits) && IsPadding(pad, |digits|, width, zero) && Denotes(digits, n, base)
  }

  lemma DigitIsDigit(d: nat, base: nat)
    requires d < base <= 16
    ensures IsDigitOf(Digit(d), base) && HexValue(Digit(d)).value == d && (Digit(d) == '0' <==> d == 0)
  {
  }

  lemma OneDigitMore(s: string, c: char, base: nat)
    requires AllDigitsOf(s, base) && IsDigitOf(c, base)
    ensures AllDigitsOf(s + [c], base) && ReadBack(s + [c], base) == ReadBack(s, base) * base + HexValue(c).value
  {
    var all := s + [c];
    assert all[..|all| - 1] == s;
  }

  /** The digits placed for a number are its numeral. */
  lemma {:induction false} DigitsDenote(n: nat, base: nat)
    requires 2 <= base <= 16
    ensures Denotes(Digits(n, base), n, base)
    decreases n
  {
    hide Digit, HexValue, ReadBack, IsDigitOf;
    DivideAndRest(n, base);
    DigitIsDigit(n % base, base);
    if n < base {
      NothingRead(base);
      OneDigitMore("", Digit(n), base);
      assert "" + [Digit(n)] == Digits(n, base);
    } else {
      DigitsDenote(n / base, base);
      OneDigitMore(Digits(n / base, base), Digit(n % base), base);
    }
  }

  lemma NothingRead(base: nat)
    ensures AllDigitsOf("", base) && ReadBack("", base) == 0 && 0 * base == 0
  {
  }

  lemma {:induction false} ReadInTwo(a: string, b: string, base: nat)
    requires AllDigitsOf(a, base) && AllDigitsOf(b, base) && base > 0
    ensures AllDigitsOf(a + b, base) && ReadBack(a + b, base) == ReadBack(a, base) * Pow(base, |b|) + ReadBack(b, base)
    ensures ReadBack(b, base) < Pow(base, |b|)
    decreases |b|
  {
    hide HexValue, ReadBack;
    if b == "" {
      NothingRead(base);
      assert a + b == a;
    } else {
      var front, c := b[..|b| - 1], b[|b| - 1];
      ReadInTwo(a, front, base);
      assert b == front + [c] && a + b == (a + front) + [c];
      OneDigitMore(front, c, base);
      OneDigitMore(a + front, c, base);
      Shifted(ReadBack(a, base), Pow(base, |front|), ReadBack(front, base), base, HexValue(c).value);
    }
  }

  function Pow(base: nat, k: nat): nat {
    if k == 0 then 1 else Pow(base, k - 1) * base
  }

  lemma Shifted(x: nat, p: nat, y: nat, base: nat, d: nat)
    requires y < p && d < base
    ensures (x * p + y) * base + d == x * (p * base) + (y * base + d) && y * base + d < p * base
  {
    MulMonotone(y + 1, p, base);
    OneTimeMore(y, base);
    Regrouped(x, p, base);
  }

  /** What is left of a number cut in front: its value modulo a power of the base. */
  lemma LowOrderDigits(s: string, n: nat, base: nat, k: nat)
    requires Denotes(s, n, base) && k <= |s| && base > 0 && Pow(base, k) > 0
    ensures AllDigitsOf(s[|s| - k..], base) && ReadBack(s[|s| - k..], base) == Rem(n, Pow(base, k))
  {
    hide HexValue, ReadBack, Pow, Div, Rem;
    var a, b := s[..|s| - k], s[|s| - k..];
    assert a + b == s;
    ReadInTwo(a, b, base);
    DivUnique(n, Pow(base, k), ReadBack(a, base), ReadBack(b, base));
  }

  lemma PaddingIsPadding(len: nat, width: nat, zero: bool)
    ensures IsPadding(Padding(len, width, zero), len, width, zero)
  {
  }

  lemma NumberPieceIsNumber(n: nat, base: nat, width: nat, zero: bool)
    requires 2 <= base <= 16
    ensures var p := NumberPiece(n, base, width, zero);
            && IsPadding(p.pad, |p.digits|, width, zero) && Denotes(p.digits, n, base)
            && IsNumber(Full(p), "", n, base, width, zero)
  {
    hide Denotes, Digits, IsPadding;
    DigitsDenote(n, base);
    PaddingIsPadding(|Digits(n, base)|, width, zero);
    var p := NumberPiece(n, base, width, zero);
    assert Full(p) == "" + (p.pad + p.digits);
  }

  // ---- the conversions

  lemma RenderOne(p: Piece)
    ensures Render([p]) == Full(p)
  {
    assert [p][1..] == [];
    assert Full(p) + "" == Full(p);
  }

  /** %u and %X. */
  lemma UnsignedConversion(c: char, width: u32, zero: bool, w: u32, args: seq<Arg>)
    requires c == 'u' || c == 'X'
    ensures var r := Conversion(c, width, zero, [Word(w)] + args);
            && r.Some? && r.value.1 == args
            && IsNumber(Render(r.value.0), "", w, if c == 'u' then 10 else 16, width, zero)
  {
    hide Denotes, Digits, IsPadding, IsNumber, Render, Full, NumberPiece;
    assert ([Word(w)] + args)[1..] == args;
    var base := if c == 'u' then 10 else 16;
    NumberPieceIsNumber(w, base, width, zero);
    RenderOne(NumberPiece(w, base, width, zero));
  }

  /** %d: of a word that is the two's complement of `n`. */
  lemma SignedConversion(width: u32, zero: bool, n: int, args: seq<Arg>)
    requires -0x8000_0000 <= n < 0x8000_0000
    ensures var r := Conversion('d', width, zero, [Word(n % 0x1_0000_0000)] + args);
            && r.Some? && r.value.1 == args
            && IsNumber(Render(r.value.0), if n < 0 then "-" else "", if n < 0 then -n else n, 10, width, zero)
  {
    hide Digits, Full, Render, IsPadding, Denotes, NumberPiece;
    var w: u32 := n % 0x1_0000_0000;
    var p := NumberPiece(if n < 0 then -n else n, 10, width, zero);
    SignedOfWord(n);
    assert ([Word(w)] + args)[1..] == args;
    NumberPieceIsNumber(if n < 0 then -n else n, 10, width, zero);
    RenderOne(p);
    if n < 0 {
      FullText("-");
      RenderFront(Text("-"), [p]);
      assert [Text("-")] + [p] == [Text("-"), p];
      SignInFront(Full(p), "-", -n, 10, width, zero);
    }
  }

  lemma SignedOfWord(n: int)
    requires -0x8000_0000 <= n < 0x8000_0000
    ensures Signed(n % 0x1_0000_0000) == n
  {
  }

  lemma SignInFront(text: string, sign: string, n: nat, base: nat, width: nat, zero: bool)
    requires IsNumber(text, "", n, base, width, zero)
    ensures IsNumber(sign + text, sign, n, base, width, zero)
  {
    hide IsPadding, Denotes;
    var pad, digits :| text == "" + (pad + digits) && IsPadding(pad, |digits|, width, zero) && Denotes(digits, n, base);
    assert "" + (pad + digits) == pad + digits;
  }

  lemma StringConversion(c: char, width: u32, zero: bool, s: CString, args: seq<Arg>)
    requires c == 's' || c == 'S'
    ensures var r := Conversion(c, width, zero, [Str(s)] + args);
            r.Some? && r.value.1 == args && Render(r.value.0) == s
  {
    assert ([Str(s)] + args)[1..] == args;
    RenderOne(Chars(s));
  }

  lemma CharConversion(width: u32, zero: bool, c: char, args: seq<Arg>)
    requires c as int < 0x100
    ensures var r := Conversion('c', width, zero, [Word(c as int)] + args);
            r.Some? && r.value.1 == args && Render(r.value.0) == [c]
  {
    assert ([Word(c as int)] + args)[1..] == args;
    RenderOne(Text([c]));
  }

  /** Two digits at `k` are a byte in hexadecimal. */
  predicate ByteAt(text: string, k: nat, b: u8) {
    && k + 2 <= |text| && AllDigitsOf(text[k..k + 2], 16) && ReadBack(text[k..k + 2], 16) == b
  }

  lemma ByteText(b: u8)
    ensures var t := Full(NumberPiece(b, 16, 2, true)); |t| == 2 && AllDigitsOf(t, 16) && ReadBack(t, 16) == b
  {
    hide Digit, ReadBack, HexValue;
    var hi, lo := b / 16, b % 16;
    DigitIsDigit(hi, 16);
    DigitIsDigit(lo, 16);
    NothingRead(16);
    OneDigitMore("", Digit(hi), 16);
    OneDigitMore("" + [Digit(hi)], Digit(lo), 16);
    var t := Full(NumberPiece(b, 16, 2, true));
    if b < 16 {
      assert t == "0" + [Digit(lo)];
      ZeroDigit();
      assert t == "" + [Digit(hi)] + [Digit(lo)];
    } else {
      assert Digits(b, 16) == Digits(hi, 16) + [Digit(lo)];
      assert t == "" + [Digit(hi)] + [Digit(lo)];
    }
  }

  lemma ZeroDigit()
    ensures Digit(0) == '0'
  {
  }

  lemma ByteAtFront(t: string, rest: string, b: u8)
    requires |t| == 2 && AllDigitsOf(t, 16) && ReadBack(t, 16) == b
    ensures ByteAt(t + rest, 0, b)
  {
    assert (t + rest)[0..2] == t;
  }

  lemma ByteAtLater(front: string, rest: string, k: nat, b: u8)
    requires ByteAt(rest, k, b)
    ensures ByteAt(front + rest, |front| + k, b)
  {
    assert (front + rest)[|front| + k..|front| + k + 2] == rest[k..k + 2];
  }

  /** %A without a delimiter: two digits for each byte, and nothing else. */
  lemma {:induction false} PlainArrayText(b: seq<u8>, i: nat, n: nat)
    requires i <= n <= |b|
    ensures var t := Render(ArrayPieces(b, i, n, 0));
            |t| == 2 * (n - i) && forall j | i <= j < n :: ByteAt(t, 2 * (j - i), b[j])
    decreases n - i
  {
    hide ByteAt, AllDigitsOf, ReadBack, NumberPiece, Full;
    if i < n {
      var p, ps := NumberPiece(b[i], 16, 2, true), ArrayPieces(b, i + 1, n, 0);
      var front, rest := Full(p), Render(ps);
      ByteText(b[i]);
      ByteAtFront(front, rest, b[i]);
      PlainArrayText(b, i + 1, n);
      assert ArrayPieces(b, i, n, 0) == [p] + ps && ([p] + ps)[1..] == ps;
      assert Render([p] + ps) == front + rest;
      forall j | i < j < n
        ensures ByteAt(front + rest, 2 * (j - i), b[j])
      {
        ByteAtLater(front, rest, 2 * (j - i - 1), b[j]);
      }
    }
  }

  /** A delimiter at `k` and two digits after it. */
  predicate DelimitedAt(text: string, k: nat, d: u32, b: u8) {
    k < |text| && text[k] == Character(d) && ByteAt(text, k + 1, b)
  }

  lemma DelimitedAtFront(t: string, rest: string, d: u32, b: u8)
    requires |t| == 2 && AllDigitsOf(t, 16) && ReadBack(t, 16) == b
    ensures DelimitedAt(([Character(d)] + t) + rest, 0, d, b)
  {
    hide AllDigitsOf, ReadBack, ByteAt, Character;
    ByteAtFront(t, rest, b);
    ByteAtLater([Character(d)], t + rest, 0, b);
    Regroup([Character(d)], t, rest);
  }

  lemma DelimitedAtLater(front: string, rest: string, k: nat, m: nat, d: u32, b: u8)
    requires DelimitedAt(rest, k, d, b) && m == |front| + k
    ensures DelimitedAt(front + rest, m, d, b)
  {
    hide ByteAt, Character;
    ByteAtLater(front, rest, k + 1, b);
  }

  /** The text is the bytes, each behind a delimiter. */
  predicate AllDelimited(text: string, d: u32, b: seq<u8>) {
    |text| == 3 * |b| && forall j | 0 <= j < |b| :: DelimitedAt(text, 3 * j, d, b[j])
  }

  lemma OneMoreDelimited(front: string, rest: string, d: u32, b: u8, bs: seq<u8>)
    requires |front| == 3 && DelimitedAt(front + rest, 0, d, b) && AllDelimited(rest, d, bs)
    ensures AllDelimited(front + rest, d, [b] + bs)
  {
    hide DelimitedAt;
    var all := [b] + bs;
    forall j | 0 <= j < |all|
      ensures DelimitedAt(front + rest, 3 * j, d, all[j])
    {
      if j > 0 {
        DelimitedAtLater(front, rest, 3 * (j - 1), 3 * j, d, bs[j - 1]);
      }
    }
  }

  lemma FirstOfSlice<T>(s: seq<T>, i: nat, n: nat)
    requires i < n <= |s|
    ensures s[i..n] == [s[i]] + s[i + 1..n]
  {
  }

  /** %A with a delimiter, from the byte after the first on: the delimiter and two digits for each byte. */
  lemma {:induction false} DelimitedArrayText(b: seq<u8>, i: nat, n: nat, d: u32)
    requires 0 < i <= n <= |b| && d != 0
    ensures AllDelimited(Render(ArrayPieces(b, i, n, d)), d, b[i..n])
    decreases n - i
  {
    hide DelimitedAt, AllDigitsOf, ReadBack, NumberPiece, Full, Character, Render, ArrayPieces;
    DelimitedStep(b, i, n, d);
    if i < n {
      hide AllDelimited;
      var two, rest := Full(NumberPiece(b[i], 16, 2, true)), Render(ArrayPieces(b, i + 1, n, d));
      ByteText(b[i]);
      DelimitedAtFront(two, rest, d, b[i]);
      DelimitedArrayText(b, i + 1, n, d);
      OneMoreDelimited([Character(d)] + two, rest, d, b[i], b[i + 1..n]);
      FirstOfSlice(b, i, n);
    }
  }

  lemma DelimitedStep(b: seq<u8>, i: nat, n: nat, d: u32)
    requires 0 < i <= n <= |b| && d != 0
    ensures Render(ArrayPieces(b, i, n, d)) ==
            if i == n then ""
            else [Character(d)] + Full(NumberPiece(b[i], 16, 2, true)) + Render(ArrayPieces(b, i + 1, n, d))
  {
    hide NumberPiece, Full, Character, Render;
    if i < n {
      var p, ps := NumberPiece(b[i], 16, 2, true), ArrayPieces(b, i + 1, n, d);
      var text := Text([Character(d)]);
      assert ArrayPieces(b, i, n, d) == [text] + ([p] + ps);
      FullText([Character(d)]);
      RenderTwo(text, p, ps);
      Regroup([Character(d)], Full(p), Render(ps));
    } else {
      RenderNothing();
    }
  }

  lemma RenderNothing()
    ensures Render([]) == ""
  {
  }

  lemma FullText(s: string)
    ensures Full(Text(s)) == s
  {
  }

  lemma RenderFront(p: Piece, ps: seq<Piece>)
    ensures Render([p] + ps) == Full(p) + Render(ps)
  {
    assert ([p] + ps)[1..] == ps;
  }

  lemma RenderTwo(p: Piece, q: Piece, ps: seq<Piece>)
    ensures Render([p] + ([q] + ps)) == Full(p) + (Full(q) + Render(ps))
  {
    RenderFront(q, ps);
    RenderFront(p, [q] + ps);
  }

  /** %A of `n` bytes, with a delimiter between them or, for zero, none. */
  lemma ArrayConversion(width: u32, zero: bool, b: seq<u8>, n: u32, d: u32, args: seq<Arg>)
    requires n <= |b| && n < 0x8000_0000
    ensures var r := Conversion('A', width, zero, [Bytes(b), Word(n), Word(d)] + args);
            && r.Some? && r.value.1 == args
            && var t := Render(r.value.0);
            && (d == 0 ==> |t| == 2 * n && forall j | 0 <= j < n :: ByteAt(t, 2 * j, b[j]))
            && (d != 0 && n > 0 ==>
                  |t| >= 2 && ByteAt(t, 0, b[0]) && AllDelimited(t[2..], d, b[1..n]))
            && (n == 0 ==> t == "")
  {
    hide ByteAt, AllDelimited, AllDigitsOf, ReadBack, NumberPiece, Full, Character, Render;
    RenderNothing();
    assert ([Bytes(b), Word(n), Word(d)] + args)[3..] == args;
    if d == 0 {
      PlainArrayText(b, 0, n);
    } else if n > 0 {
      var p, ps := NumberPiece(b[0], 16, 2, true), ArrayPieces(b, 1, n, d);
      var front, rest := Full(p), Render(ps);
      ByteText(b[0]);
      ByteAtFront(front, rest, b[0]);
      DelimitedArrayText(b, 1, n, d);
      assert ArrayPieces(b, 0, n, d) == [p] + ps;
      RenderFront(p, ps);
      assert (front + rest)[2..] == rest;
    }
  }

  /** Any other character after the width prints nothing and takes no argument. */
  lemma OtherConversion(c: char, width: u32, zero: bool, args: seq<Arg>)
    requires c !in "sScXudA"
    ensures Conversion(c, width, zero, args) == Some(([], args))
  {
    assert "sScXudA" == ['s', 'S', 'c', 'X', 'u', 'd', 'A'];
  }

  // ---- formats

  /** Text without a percent sign is printed as it is. */
  lemma {:induction false} TextAsItIs(f: string, args: seq<Arg>)
    requires '%' !in f
    ensures Plan(f, args).Some? && Render(Plan(f, args).value) == f
  {
    if f != "" {
      assert f[0] in f;
      TextAsItIs(f[1..], args);
      RenderFront(Text([f[0]]), Plan(f[1..], args).value);
      assert [f[0]] + f[1..] == f;
    }
  }

  /**
   A format that begins with a conversion: digits `w` for the width, then `c`.  It prints what the
   conversion prints, by the decimal width and the zero flag, and then what the rest of the format prints.
   */
  lemma ConversionFirst(w: string, c: char, rest: string, args: seq<Arg>)
    requires AllDigits(w) && !IsDigit(c)
    ensures var conv := Conversion(c, Low32(Value(w, 10)), SomeZero(w, 0, |w|), args);
            conv.Some? && Plan(rest, conv.value.1).Some? ==>
              && var plan := Plan("%" + (w + ([c] + rest)), args);
              && plan.Some?
              && Render(plan.value) == Render(conv.value.0) + Render(Plan(rest, conv.value.1).value)
  {
    hide Conversion, Value, Low32, SomeZero, ReadAsWidth, Width, Render, Plan;
    var tail := w + ([c] + rest);
    var f := "%" + tail;
    assert f[1..] == tail;
    WidthOf(w, c, rest);
    PlanStep(f, args);
    assert ([c] + rest)[1..] == rest;
    var conv := Conversion(c, Low32(Value(w, 10)), SomeZero(w, 0, |w|), args);
    if conv.Some? && Plan(rest, conv.value.1).Some? {
      RenderAppend(conv.value.0, Plan(rest, conv.value.1).value);
    }
  }

  lemma PlanStep(f: string, args: seq<Arg>)
    requires f != "" && f[0] == '%'
    ensures var (width, zero, tail) := Width(f[1..], 0, false);
            tail != "" && Conversion(tail[0], width, zero, args).Some? ==>
              var (ps, left) := Conversion(tail[0], width, zero, args).value;
              Plan(tail[1..], left).Some? ==> Plan(f, args) == Some(ps + Plan(tail[1..], left).value)
  {
    hide Conversion;
  }

  lemma WidthOf(w: string, c: char, rest: string)
    requires AllDigits(w) && !IsDigit(c)
    ensures Width(w + ([c] + rest), 0, false) == (Low32(Value(w, 10)), SomeZero(w, 0, |w|), [c] + rest)
  {
    hide Value, Low32, SomeZero, Width, AllDigits, IsDigit;
    var tail := w + ([c] + rest);
    WidthIsDecimal(tail);
    WhereDigitsEnd(tail, w, c, rest, |tail| - |Width(tail, 0, false).2|);
    SameZeros(tail, w);
  }

  lemma WhereDigitsEnd(tail: string, w: string, c: char, rest: string, n: nat)
    requires tail == w + ([c] + rest) && AllDigits(w) && !IsDigit(c)
    requires n <= |tail| && AllDigits(tail[..n]) && (n < |tail| ==> !IsDigit(tail[n]))
    ensures n == |w| && tail[..n] == w && tail[n..] == [c] + rest
  {
    hide IsDigit;
    assert tail[|w|] == c;
    DigitsOf(tail, n);
    assert forall i | 0 <= i < |w| :: IsDigit(w[i]) && tail[i] == w[i];
  }

  lemma DigitsOf(s: string, n: nat)
    requires n <= |s| && AllDigits(s[..n])
    ensures forall i | 0 <= i < n :: IsDigit(s[i])
  {
    hide IsDigit;
    assert forall i | 0 <= i < n :: IsDigit(s[..n][i]) && s[..n][i] == s[i];
  }

  lemma SameZeros(tail: string, w: string)
    requires w <= tail
    ensures SomeZero(tail, 0, |w|) <==> SomeZero(w, 0, |w|)
  {
    hide Value, Low32;
    forall i | 0 <= i < |w|
      ensures ZeroAt(tail, i) <==> ZeroAt(w, i)
    {
      assert tail[..i] == w[..i];
    }
  }

  lemma {:induction false} RenderAppend(ps: seq<Piece>, qs: seq<Piece>)
    ensures Render(ps + qs) == Render(ps) + Render(qs)
  {
    if ps == [] {
      assert ps + qs == qs;
    } else {
      assert (ps + qs)[1..] == ps[1..] + qs;
      RenderAppend(ps[1..], qs);
      Regroup(Full(ps[0]), Render(ps[1..]), Render(qs));
    }
  }

  /** For widths of up to nine digits the zero flag is a zero in front. */
  lemma ZeroFlagIsLeadingZero(w: string)
    requires AllDigits(w) && |w| <= 9
    ensures SomeZero(w, 0, |w|) <==> w != "" && w[0] == '0'
  {
    if w != "" {
      assert w[..0] == "";
      if w[0] == '0' {
        assert ZeroAt(w, 0);
      } else {
        forall i | 0 <= i < |w|
          ensures !ZeroAt(w, i)
        {
          if i > 0 {
            NotZeroYet(w[..i]);
          }
        }
      }
    }
  }

  function Power(k: nat): nat {
    if k == 0 then 1 else 10 * Power(k - 1)
  }

  lemma {:induction false} NotZeroYet(s: string)
    requires AllDigits(s) && s != "" && s[0] != '0' && |s| <= 9
    ensures 0 < Value(s, 10) < 0x1_0000_0000
  {
    ValueBound(s);
    assert Power(9) == 1000000000;
    PowerMonotone(|s|, 9);
  }

  lemma {:induction false} PowerMonotone(a: nat, b: nat)
    requires a <= b
    ensures Power(a) <= Power(b)
    decreases b
  {
    if a < b {
      PowerMonotone(a, b - 1);
    }
  }

  lemma {:induction false} ValueBound(s: string)
    requires AllDigits(s)
    ensures 0 <= Value(s, 10) < Power(|s|)
    ensures s != "" && s[0] != '0' ==> Value(s, 10) > 0
  {
    if s != "" {
      ValueBound(s[..|s| - 1]);
      assert IsDigit(s[|s| - 1]);
    }
  }

  /** The whole way for a number alone: %X read in base 16, %u and %d in base 10, give the argument back. */
  lemma NumberAlone(c: char, w: string, n: int)
    requires AllDigits(w)
    requires if c == 'd' then -0x8000_0000 <= n < 0x8000_0000 else (c == 'u' || c == 'X') && 0 <= n < 0x1_0000_0000
    ensures var plan := Plan("%" + (w + ([c] + "")), [Word(n % 0x1_0000_0000)]);
            && plan.Some?
            && IsNumber(Render(plan.value), if n < 0 then "-" else "", if n < 0 then -n else n,
                        if c == 'X' then 16 else 10, Low32(Value(w, 10)), SomeZero(w, 0, |w|))
  {
    hide Conversion, Value, Low32, SomeZero, Render, Plan, IsNumber;
    var width, zero := Low32(Value(w, 10)), SomeZero(w, 0, |w|);
    var arg: u32 := n % 0x1_0000_0000;
    assert [Word(arg)] + [] == [Word(arg)];
    if c == 'd' {
      SignedConversion(width, zero, n, []);
    } else {
      UnsignedConversion(c, width, zero, arg, []);
    }
    EndOfFormat();
    ConversionFirst(w, c, "", [Word(arg)]);
    var text := Render(Conversion(c, width, zero, [Word(arg)]).value.0);
    assert text + "" == text;
  }

  lemma EndOfFormat()
    ensures Plan("", []) == Some([]) && Render([]) == ""
  {
  }
}
