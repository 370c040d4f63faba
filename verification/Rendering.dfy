/**
 What the formatter is to print: a format and its arguments rendered in full, and what of that fits in a
 bounded output.
 */
module Rendering {
  import opened Common

  /** What `va_arg` finds: a word, a string without its terminator, or a byte array. */
  datatype Arg = Word(w: u32) | Str(s: CString) | Bytes(b: seq<u8>)

  /** A run of characters that is cut, when it does not fit, in its own way. */
  datatype Piece = Text(s: string) | Chars(s: string) | Number(pad: string, digits: string)

  function Full(p: Piece): string {
    match p
    case Text(s) => s
    case Chars(s) => s
    case Number(pad, digits) => pad + digits
  }

  function Render(ps: seq<Piece>): string {
    if ps == [] then "" else Full(ps[0]) + Render(ps[1..])
  }

  function Min(a: nat, b: nat): nat {
    if a < b then a else b
  }

  /** What of a piece fits in `room`: its beginning, but of a number's digits the low-order ones. */
  function Cut(p: Piece, room: nat): string {
    match p
    case Text(s) => s[..Min(|s|, room)]
    case Chars(s) => s[..Min(|s|, room)]
    case Number(pad, digits) =>
      if |pad| >= room then pad[..room]
      else pad + digits[|digits| - Min(|digits|, room - |pad|)..]
  }

  /** What is printed of the pieces when there is room for `room` characters. */
  function Clip(ps: seq<Piece>, room: nat): string
    decreases |ps|
  {
    if ps == [] then "" else
    var first := Cut(ps[0], room);
    CutLength(ps[0], room);
    first + Clip(ps[1..], room - |first|)
  }

  /** The room ends inside a string argument. */
  predicate EndsInChars(ps: seq<Piece>, room: nat)
    decreases |ps|
  {
    ps != [] && room > 0 &&
    ((ps[0].Chars? && |ps[0].s| > room) ||
     (CutLength(ps[0], room); EndsInChars(ps[1..], room - |Cut(ps[0], room)|)))
  }

  lemma CutLength(p: Piece, room: nat)
    ensures |Cut(p, room)| == Min(|Full(p)|, room)
  {
  }

  lemma CutWhole(p: Piece, room: nat)
    requires |Full(p)| <= room
    ensures Cut(p, room) == Full(p)
  {
  }

  lemma RenderStep(ps: seq<Piece>)
    requires ps != []
    ensures Render(ps) == Full(ps[0]) + Render(ps[1..])
  {
  }

  /** The first piece, and the rest in the room that is left. */
  lemma ClipStep(ps: seq<Piece>, room: nat)
    requires ps != []
    ensures |Cut(ps[0], room)| == Min(|Full(ps[0])|, room)
    ensures Clip(ps, room) == Cut(ps[0], room) + Clip(ps[1..], room - |Cut(ps[0], room)|)
    ensures EndsInChars(ps, room) <==>
            room > 0 && ((ps[0].Chars? && |ps[0].s| > room) || EndsInChars(ps[1..], room - |Cut(ps[0], room)|))
  {
    CutLength(ps[0], room);
  }

  lemma ClipNothing(room: nat)
    ensures Clip([], room) == "" && !EndsInChars([], room)
  {
  }

  /** Exactly as many characters as the full rendering has, or as there is room for. */
  lemma {:induction false} ClipLength(ps: seq<Piece>, room: nat)
    ensures |Clip(ps, room)| == Min(|Render(ps)|, room)
    decreases |ps|
  {
    hide Cut, Full;
    if ps != [] {
      hide Clip, Render;
      ClipStep(ps, room);
      RenderStep(ps);
      ClipLength(ps[1..], room - |Cut(ps[0], room)|);
    }
  }

  /** Without numbers, what is printed is the beginning of the full rendering. */
  lemma {:induction false} ClipIsPrefix(ps: seq<Piece>, room: nat)
    requires forall i | 0 <= i < |ps| :: !ps[i].Number?
    ensures Clip(ps, room) == Render(ps)[..Min(|Render(ps)|, room)]
    decreases |ps|
  {
    if ps == [] {
      ClipNothing(room);
    } else {
      hide Clip, Render, EndsInChars;
      var first := Full(ps[0]);
      RenderStep(ps);
      ClipStep(ps, room);
      ClipIsPrefix(ps[1..], room - |Cut(ps[0], room)|);
      PrefixOfTwo(first, Render(ps[1..]), room);
    }
  }

  lemma PrefixOfTwo(a: string, b: string, room: nat)
    ensures var n, k := Min(|a| + |b|, room), Min(|a|, room);
            (a + b)[..n] == a[..k] + b[..Min(|b|, room - k)]
  {
  }

  /** When the full rendering fits it is what is printed. */
  lemma {:induction false} ClipWhole(ps: seq<Piece>, room: nat)
    requires |Render(ps)| <= room
    ensures Clip(ps, room) == Render(ps) && !EndsInChars(ps, room)
    decreases |ps|
  {
    hide Cut;
    if ps != [] {
      hide Clip, Render, EndsInChars;
      RenderStep(ps);
      ClipStep(ps, room);
      CutWhole(ps[0], room);
      ClipWhole(ps[1..], room - |Full(ps[0])|);
    }
  }

  lemma {:induction false} ClipAppend(ps: seq<Piece>, qs: seq<Piece>, room: nat)
    ensures |Clip(ps, room)| <= room
    ensures Clip(ps + qs, room) == Clip(ps, room) + Clip(qs, room - |Clip(ps, room)|)
    decreases |ps|
  {
    hide Cut, Clip, Render, Full;
    ClipLength(ps, room);
    if ps == [] {
      ClipNothing(room);
      assert ps + qs == qs;
    } else {
      ClipStep(ps, room);
      ClipStep(ps + qs, room);
      var first := Cut(ps[0], room);
      assert (ps + qs)[0] == ps[0] && (ps + qs)[1..] == ps[1..] + qs;
      ClipAppend(ps[1..], qs, room - |first|);
      var middle := Clip(ps[1..], room - |first|);
      Regroup(first, middle, Clip(qs, room - |first| - |middle|));
    }
  }

  lemma {:induction false} EndsInCharsAppend(ps: seq<Piece>, qs: seq<Piece>, room: nat)
    ensures |Clip(ps, room)| <= room
    ensures EndsInChars(ps + qs, room) <==>
            EndsInChars(ps, room) || EndsInChars(qs, room - |Clip(ps, room)|)
    decreases |ps|
  {
    hide Cut, Clip, Render, Full, EndsInChars;
    ClipLength(ps, room);
    if ps == [] {
      ClipNothing(room);
      assert ps + qs == qs;
    } else {
      ClipStep(ps, room);
      ClipStep(ps + qs, room);
      assert (ps + qs)[0] == ps[0] && (ps + qs)[1..] == ps[1..] + qs;
      EndsInCharsAppend(ps[1..], qs, room - |Cut(ps[0], room)|);
      if room == 0 {
        NoRoom(qs);
      }
    }
  }

  lemma NoRoom(ps: seq<Piece>)
    ensures !EndsInChars(ps, 0)
  {
  }

  function Digit(d: nat): char
    requires d < 16
  {
    if d < 10 then ('0' as int + d) as char else ('A' as int + d - 10) as char
  }

  /** The digits of `n`, most significant first. */
  function Digits(n: nat, base: nat): (s: string)
    requires 2 <= base <= 16
    ensures s != ""
  {
    if n < base then [Digit(n)] else Digits(n / base, base) + [Digit(n % base)]
  }

  /** The decimal digit a character stands for. */
  function DigitValue(c: char): int {
    c as int - '0' as int
  }

  /** A row of digits as a number. */
  function Value(s: string, base: nat): int {
    if s == "" then 0 else Value(s[..|s| - 1], base) * base + DigitValue(s[|s| - 1])
  }

  lemma DivideAndRest(n: nat, base: nat)
    requires base >= 2
    ensures n == (n / base) * base + n % base && n % base < base
    ensures n >= base ==> n / base < n
  {
  }

  lemma ValueOfOneMore(s: string, c: char, base: nat)
    ensures Value(s + [c], base) == Value(s, base) * base + DigitValue(c)
  {
    var all := s + [c];
    assert all[..|all| - 1] == s;
  }

  /** Padding in front of `len` characters up to `width`. */
  function Padding(len: nat, width: nat, zero: bool): string {
    seq(if len < width then width - len else 0, _ => if zero then '0' else ' ')
  }

  function NumberPiece(n: nat, base: nat, width: nat, zero: bool): (p: Piece)
    requires 2 <= base <= 16
    ensures p.Number?
  {
    var digits := Digits(n, base);
    Number(Padding(|digits|, width, zero), digits)
  }

  predicate IsDigit(c: char) {
    '0' <= c <= '9'
  }

  /** What 32 bits keep of a number. */
  function Low32(x: int): u32 {
    x % 0x1_0000_0000
  }

  /** One more digit of a width, in 32 bits. */
  function NextWidth(width: u32, c: char): u32
    requires IsDigit(c)
  {
    Low32(Low32(width * 10) + (c as int - '0' as int))
  }

  /** The width in front of a conversion: its value, the zero flag, and the format from the conversion on. */
  function Width(f: string, width: u32, zero: bool): (r: (u32, bool, string))
    ensures |r.2| <= |f|
  {
    if f == "" || !IsDigit(f[0]) then (width, zero, f)
    else
      Width(f[1..], NextWidth(width, f[0]), zero || (width == 0 && f[0] == '0'))
  }

  lemma Low32Ten(v: int, d: int)
    ensures Low32(Low32(Low32(v) * 10) + d) == Low32(v * 10 + d)
  {
    var q, w := v / 0x1_0000_0000, v % 0x1_0000_0000;
    var p := (w * 10) / 0x1_0000_0000;
    assert v * 10 + d == (w * 10 - p * 0x1_0000_0000 + d) + (q * 10 + p) * 0x1_0000_0000;
  }

  lemma NextWidthIsValue(done: string, c: char, width: u32)
    requires IsDigit(c) && width == Low32(Value(done, 10))
    ensures NextWidth(width, c) == Low32(Value(done + [c], 10))
  {
    hide Low32, Value;
    ValueOfOneMore(done, c, 10);
    assert DigitValue(c) == c as int - '0' as int;
    Low32Ten(Value(done, 10), DigitValue(c));
  }

  predicate AllDigits(s: string) {
    forall i | 0 <= i < |s| :: IsDigit(s[i])
  }

  /** A zero digit where the width read so far shows as zero: at the start, or past a multiple of 2^32. */
  predicate ZeroAt(f: string, i: nat)
    requires i < |f|
  {
    f[i] == '0' && Low32(Value(f[..i], 10)) == 0
  }

  predicate SomeZero(f: string, start: nat, n: nat)
    requires n <= |f|
  {
    exists i :: start <= i < n && ZeroAt(f, i)
  }

  lemma SomeZeroFrom(f: string, start: nat, n: nat)
    requires start < n <= |f|
    ensures SomeZero(f, start, n) <==> ZeroAt(f, start) || SomeZero(f, start + 1, n)
  {
    hide ZeroAt;
  }

  /**
   `n` characters of the format are what the width loop reads: the digits in front of the conversion, their
   decimal value in 32 bits, and whether one of them is a zero in front of which the width is zero.
   */
  predicate ReadAsWidth(f: string, n: nat, width: u32, zero: bool) {
    && n <= |f| && AllDigits(f[..n]) && (n < |f| ==> !IsDigit(f[n]))
    && width == Low32(Value(f[..n], 10))
    && (zero <==> SomeZero(f, 0, n))
  }

  /** Reading on after the digits before `start`, up to some `n`. */
  lemma {:induction false} WidthReadsOn(f: string, start: nat, width: u32, zero: bool) returns (n: nat)
    requires start <= |f| && AllDigits(f[..start]) && width == Low32(Value(f[..start], 10))
    ensures start <= n <= |f| && AllDigits(f[..n]) && (n < |f| ==> !IsDigit(f[n]))
    ensures Width(f[start..], width, zero) == (Low32(Value(f[..n], 10)), zero || SomeZero(f, start, n), f[n..])
    decreases |f| - start
  {
    hide NextWidth, Value, ZeroAt, Low32, IsDigit, Width, SomeZero, AllDigits;
    WidthFrom(f, start, width, zero);
    if start < |f| && IsDigit(f[start]) {
      OneDigitMore(f, start);
      NextWidthIsValue(f[..start], f[start], width);
      n := WidthReadsOn(f, start + 1, NextWidth(width, f[start]), zero || (width == 0 && f[start] == '0'));
      SomeZeroFrom(f, start, n);
      ZeroAtMeans(f, start);
    } else {
      n := start;
      NoZero(f, start);
    }
  }

  lemma ZeroAtMeans(f: string, i: nat)
    requires i < |f|
    ensures ZeroAt(f, i) <==> f[i] == '0' && Low32(Value(f[..i], 10)) == 0
  {
  }

  lemma OneDigitMore(f: string, start: nat)
    requires start < |f| && AllDigits(f[..start]) && IsDigit(f[start])
    ensures f[..start + 1] == f[..start] + [f[start]] && AllDigits(f[..start + 1])
  {
  }

  lemma WidthStep(f: string, width: u32, zero: bool)
    ensures Width(f, width, zero) ==
            if f == "" || !IsDigit(f[0]) then (width, zero, f)
            else Width(f[1..], NextWidth(width, f[0]), zero || (width == 0 && f[0] == '0'))
  {
  }

  lemma WidthFrom(f: string, start: nat, width: u32, zero: bool)
    requires start <= |f|
    ensures Width(f[start..], width, zero) ==
            if start == |f| || !IsDigit(f[start]) then (width, zero, f[start..])
            else Width(f[start + 1..], NextWidth(width, f[start]), zero || (width == 0 && f[start] == '0'))
  {
    hide Width, NextWidth;
    WidthStep(f[start..], width, zero);
    if start < |f| {
      assert f[start..][1..] == f[start + 1..];
    }
  }

  lemma NoZero(f: string, n: nat)
    requires n <= |f|
    ensures !SomeZero(f, n, n)
  {
  }

  lemma WidthIsDecimal(f: string)
    ensures var r := Width(f, 0, false);
            ReadAsWidth(f, |f| - |r.2|, r.0, r.1) && r.2 == f[|f| - |r.2|..]
  {
    assert f[..0] == "" && f[0..] == f;
    var _ := WidthReadsOn(f, 0, 0, false);
  }

  /** An array: two hexadecimal digits for each byte, delimiters in between. */
  function ArrayPieces(b: seq<u8>, i: nat, n: int, delimiter: u32): seq<Piece>
    requires n <= |b|
    decreases |b| - i
  {
    if i >= n then []
    else
      (if i > 0 && delimiter != 0 then [Text([Character(delimiter)])] else [])
      + [NumberPiece(b[i], 16, 2, true)]
      + ArrayPieces(b, i + 1, n, delimiter)
  }

  /** A word passed as a character. */
  function Character(w: u32): char {
    (w % 0x100) as char
  }

  /** A word as `int32_t`. */
  function Signed(w: u32): int {
    if w < 0x8000_0000 then w else w - 0x1_0000_0000
  }

  /** The sign is in front of the padding. */
  function SignedPieces(n: int, width: nat, zero: bool): seq<Piece> {
    if n < 0 then [Text("-"), NumberPiece(-n, 10, width, zero)] else [NumberPiece(n, 10, width, zero)]
  }

  /** One conversion: its pieces and the arguments it leaves; `None` if the arguments do not match. */
  function Conversion(c: char, width: u32, zero: bool, args: seq<Arg>): (r: Option<(seq<Piece>, seq<Arg>)>)
    ensures r.Some? ==> |r.value.1| <= |args|
  {
    if c == 's' || c == 'S' then
      if args != [] && args[0].Str? then Some(([Chars(args[0].s)], args[1..])) else None
    else if c == 'c' then
      if args != [] && args[0].Word? then Some(([Text([Character(args[0].w)])], args[1..])) else None
    else if c == 'X' then
      if args != [] && args[0].Word? then Some(([NumberPiece(args[0].w, 16, width, zero)], args[1..])) else None
    else if c == 'u' then
      if args != [] && args[0].Word? then Some(([NumberPiece(args[0].w, 10, width, zero)], args[1..])) else None
    else if c == 'd' then
      if args != [] && args[0].Word? then
        Some((SignedPieces(Signed(args[0].w), width, zero), args[1..]))
      else None
    else if c == 'A' then
      if |args| >= 3 && args[0].Bytes? && args[1].Word? && args[2].Word? && Signed(args[1].w) <= |args[0].b| then
        Some((ArrayPieces(args[0].b, 0, Signed(args[1].w), args[2].w), args[3..]))
      else None
    else Some(([], args))
  }

  /**
   The pieces a format asks for; `None` when it is not well formed: it ends inside a conversion, or the
   arguments do not match it.
   */
  function Plan(f: string, args: seq<Arg>): Option<seq<Piece>>
    decreases |f|
  {
    if f == "" then Some([])
    else if f[0] != '%' then
      var rest := Plan(f[1..], args);
      if rest.None? then None else Some([Text([f[0]])] + rest.value)
    else
      var (width, zero, tail) := Width(f[1..], 0, false);
      if tail == "" then None else
      var conv := Conversion(tail[0], width, zero, args);
      if conv.None? then None else
      var rest := Plan(tail[1..], conv.value.1);
      if rest.None? then None else Some(conv.value.0 + rest.value)
  }

  /** The room can only end inside a string once it is used up. */
  lemma {:induction false} EndsInCharsFull(ps: seq<Piece>, room: nat)
    requires EndsInChars(ps, room)
    ensures |Clip(ps, room)| == room
    decreases |ps|
  {
    hide Cut, Clip, Render;
    var first := Cut(ps[0], room);
    ClipStep(ps, room);
    ClipLength(ps, room);
    ClipLength(ps[1..], room - |first|);
    if !(ps[0].Chars? && |ps[0].s| > room) {
      EndsInCharsFull(ps[1..], room - |first|);
    }
  }

  predicate NoChars(ps: seq<Piece>) {
    forall i | 0 <= i < |ps| :: !ps[i].Chars?
  }

  lemma {:induction false} NoCharsNoEnd(ps: seq<Piece>, room: nat)
    requires NoChars(ps)
    ensures !EndsInChars(ps, room)
    decreases |ps|
  {
    if ps != [] {
      CutLength(ps[0], room);
      NoCharsNoEnd(ps[1..], room - |Cut(ps[0], room)|);
    }
  }

  lemma {:induction false} ArrayHasNoChars(b: seq<u8>, i: nat, n: int, delimiter: u32)
    requires n <= |b|
    ensures NoChars(ArrayPieces(b, i, n, delimiter))
    decreases |b| - i
  {
    if i < n {
      ArrayHasNoChars(b, i + 1, n, delimiter);
    }
  }
}
