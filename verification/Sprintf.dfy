/** `kl_vsprintf`, the bounded formatter. */
module Sprintf {
  import opened Common
  import opened Rendering
  import opened Numerals
  import opened Arithmetic

  function Reversed(s: string): (r: string)
    ensures |r| == |s|
  {
    if s == "" then "" else [s[|s| - 1]] + Reversed(s[..|s| - 1])
  }

  /** The first `k` characters are the last `k` once reversed. */
  lemma {:induction false} ReversedPrefix(s: string, k: nat)
    requires k <= |s|
    ensures Reversed(s[..k]) == Reversed(s)[|s| - k..]
  {
    if k == |s| {
      assert s[..k] == s;
    } else {
      var front := s[..|s| - 1];
      ReversedPrefix(front, k);
      assert front[..k] == s[..k];
    }
  }

  function Power10(k: nat): nat {
    if k == 0 then 1 else 10 * Power10(k - 1)
  }

  lemma ReversedEmpty()
    ensures Reversed("") == ""
  {
  }

  lemma TenDigits(n: u32)
    ensures n < Power10(10)
  {
    assert Power10(5) == 100000;
    assert Power10(10) == 10000000000;
  }

  /** Moving the last digit of `m` over to the placed ones. */
  lemma DigitPlaced(m: nat, base: nat, placed: string)
    requires base == 10 || base == 16
    ensures Rem(m, base) < 16 && (Div(m, base) > 0 ==> Div(m, base) < m)
    ensures var after := Reversed(placed + [Digit(Rem(m, base))]);
            Digits(m, base) + Reversed(placed) ==
            if Div(m, base) > 0 then Digits(Div(m, base), base) + after else after
  {
    hide Digit;
    var d := [Digit(m % base)];
    DivideAndRest(m, base);
    assert (placed + d)[..|placed|] == placed;
    assert Reversed(placed + d) == d + Reversed(placed);
    if m >= base {
      Regroup(Digits(m / base, base), d, Reversed(placed));
    }
  }

  /** A digit fewer is left after each division, and the cells do not run out. */
  lemma OneDigitLess(n: nat, base: nat, k: nat)
    requires (base == 10 || base == 16) && k > 0 && n < Power10(k)
    ensures Div(n, base) < Power10(k - 1) && (Div(n, base) > 0 ==> k > 1)
  {
    if base == 10 {
    } else {
    }
  }

  /** The variables of one call; `out` is what was passed to `PPutChar`. */
  class Printer {
    const maxLength: u32
    var CharCnt: nat
    var width: u32
    var zeroPadded: bool
    var out: string

    /** The bound leaves room for the overrun of the count by one, and for at least one character. */
    constructor (maxLength: u32)
      requires 1 <= maxLength < 0xFFFF_FFFF
      ensures this.maxLength == maxLength && CharCnt == 0 && out == ""
    {
      this.maxLength := maxLength;
      CharCnt, width, zeroPadded, out := 0, 0, false, "";
    }

    method PPutChar(c: char)
      modifies this`out
      ensures out == old(out) + [c]
    {
      out := out + [c];
    }

    /** The first loop of `IPutUint`: the digits, least significant first; ten cells are enough. */
    method PlaceDigits(n: u32, base: nat) returns (digits: array<char>, len: nat)
      requires base == 10 || base == 16
      ensures fresh(digits) && 0 < len <= digits.Length == 10
      ensures Reversed(digits[..len]) == Digits(n, base)
      ensures Denotes(Reversed(digits[..len]), n, base)
    {
      hide Digits, Power10, Reversed, Div, Rem, Digit, Denotes;
      digits := new char[10](_ => '0');
      len := 0;
      var m: nat := n;
      TenDigits(n);
      DigitsDenote(n, base);
      assert digits[..0] == "";
      ReversedEmpty();
      assert Digits(m, base) + "" == Digits(m, base);
      while true
        invariant len <= 9 && m < Power10(10 - len)
        invariant Digits(m, base) + Reversed(digits[..len]) == Digits(n, base)
        decreases m
      {
        ghost var placed := digits[..len];
        var digit := Rem(m, base);
        OneDigitLess(m, base, 10 - len);
        DigitPlaced(m, base, placed);
        m := Div(m, base);
        digits[len] := Digit(digit);
        len := len + 1;
        assert digits[..len] == placed + [Digit(digit)];
        if !(m > 0) {
          break;
        }
      }
    }

    /** The second loop: padding, up to the end of the room; true if there is room left. */
    method Pad(len: nat) returns (room: bool)
      requires CharCnt == |out| < maxLength
      modifies this`CharCnt, this`out
      ensures var pad := Padding(len, width, zeroPadded);
              && room == (|pad| < maxLength - |old(out)|)
              && out == old(out) + pad[..Min(|pad|, maxLength - |old(out)|)]
      ensures CharCnt == |out| <= maxLength
    {
      ghost var pad := Padding(len, width, zeroPadded);
      var i := len;
      assert out == old(out) + pad[..0];
      while i < width
        invariant len <= i && i - len <= |pad| && CharCnt == |out| < maxLength
        invariant |pad| == (if len < width then width - len else 0)
        invariant out == old(out) + pad[..i - len]
      {
        PPutChar(if zeroPadded then '0' else ' ');
        assert pad[..i - len] + [pad[i - len]] == pad[..i - len + 1];
        CharCnt := CharCnt + 1;
        i := i + 1;
        if CharCnt >= maxLength {
          return false;
        }
      }
      assert pad[..|pad|] == pad;
      return true;
    }

    /** The last loop: as many digits as there is room for, from the place `len` down. */
    method PrintDigits(digits: array<char>, len: nat)
      requires len <= digits.Length && CharCnt == |out| <= maxLength
      modifies this`CharCnt, this`out
      ensures var k := Min(len, maxLength - |old(out)|); out == old(out) + Reversed(digits[..len])[len - k..]
      ensures CharCnt == |out| <= maxLength
    {
      var left := if len < maxLength - CharCnt then len else maxLength - CharCnt;
      ReversedPrefix(digits[..len], left);
      assert digits[..len][..left] == digits[..left];
      ghost var whole := out + Reversed(digits[..left]);
      CharCnt := CharCnt + left;
      while left > 0
        invariant left <= digits.Length
        invariant out + Reversed(digits[..left]) == whole && CharCnt == |whole|
      {
        assert digits[..left][..left - 1] == digits[..left - 1];
        Regroup(out, [digits[left - 1]], Reversed(digits[..left - 1]));
        left := left - 1;
        PPutChar(digits[left]);
      }
      assert digits[..0] == "";
      assert out + "" == out;
    }

    /** `IPutUint`. */
    method IPutUint(n: u32, base: nat) returns (ghost pad: string, ghost numeral: string)
      requires (base == 10 || base == 16) && CharCnt == |out| < maxLength
      modifies this`CharCnt, this`out
      ensures out == old(out) + Cut(NumberPiece(n, base, width, zeroPadded), maxLength - |old(out)|)
      ensures IsPadding(pad, |numeral|, width, zeroPadded) && Denotes(numeral, n, base)
      ensures var room := maxLength - |old(out)|;
              out == old(out) + if |pad| >= room then pad[..room]
                                else pad + numeral[|numeral| - Min(|numeral|, room - |pad|)..]
      ensures CharCnt == |out| <= maxLength
    {
      hide Cut, Digits, Padding, Reversed, IsPadding, Denotes;
      var digits, len := PlaceDigits(n, base);
      ghost var room0 := maxLength - |out|;
      pad, numeral := Padding(len, width, zeroPadded), Digits(n, base);
      PaddingIsPadding(len, width, zeroPadded);
      assert NumberPiece(n, base, width, zeroPadded) == Number(pad, numeral);
      CutNumber(pad, numeral, room0);
      var room := Pad(len);
      if !room {
        return;
      }
      assert pad[..|pad|] == pad;
      PrintDigits(digits, len);
      Regroup(old(out), pad, numeral[len - Min(len, room0 - |pad|)..]);
    }

    /** The loop of a string conversion; the count goes one too far if the string is cut. */
    method PutChars(s: string)
      requires CharCnt == |out| < maxLength
      modifies this`CharCnt, this`out
      ensures var room := maxLength - |old(out)|;
              && out == old(out) + Clip([Chars(s)], room)
              && |out| <= maxLength
              && CharCnt == |out| + if EndsInChars([Chars(s)], room) then 1 else 0
    {
      ghost var room := maxLength - |out|;
      SinglePiece(Chars(s), room);
      var i := 0;
      while i < |s|
        invariant i <= Min(|s|, room) && CharCnt == |out| == |old(out)| + i && out == old(out) + s[..i]
      {
        CharCnt := CharCnt + 1;
        if !(CharCnt - 1 < maxLength) {
          break;
        }
        PPutChar(s[i]);
        i := i + 1;
      }
    }

    /** A single character, or the sign or a delimiter; true if there is room left. */
    method PutText(c: char) returns (room: bool)
      requires CharCnt == |out| < maxLength
      modifies this`CharCnt, this`out
      ensures out == old(out) + [c] == old(out) + Cut(Text([c]), maxLength - |old(out)|)
      ensures CharCnt == |out| <= maxLength && room == (|out| < maxLength)
    {
      PPutChar(c);
      CharCnt := CharCnt + 1;
      assert [c][..1] == [c];
      return CharCnt < maxLength;
    }

    /** One byte of an array, behind a delimiter or not; true if there is room left. */
    method PutElement(v: u8, delimited: bool, delimiter: u32) returns (room: bool)
      requires CharCnt == |out| < maxLength && zeroPadded && width == 2
      modifies this`CharCnt, this`out
      ensures out == old(out) + Clip(Element(v, delimited, delimiter), maxLength - |old(out)|)
      ensures CharCnt == |out| <= maxLength && room == (|out| < maxLength)
    {
      hide Cut, Clip, NumberPiece, IsPadding, Denotes, Character;
      ghost var number := NumberPiece(v, 16, 2, true);
      if delimited {
        ClipFirst(Text([Character(delimiter)]), [number], maxLength - |out|, out);
        room := PutText(Character(delimiter));
        if !room {
          ClipNoRoom([number]);
          assert out + "" == out;
          return;
        }
      }
      SinglePiece(number, maxLength - |out|);
      var _, _ := IPutUint(v, 16);
      return CharCnt < maxLength;
    }

    /** The array conversion. */
    method PutArray(b: seq<u8>, n: int, delimiter: u32)
      requires CharCnt == |out| < maxLength && n <= |b|
      modifies this`CharCnt, this`out, this`width, this`zeroPadded
      ensures out == old(out) + Clip(ArrayPieces(b, 0, n, delimiter), maxLength - |old(out)|)
      ensures CharCnt == |out| <= maxLength
    {
      hide Clip, Element, EndsInChars, ArrayPieces;
      zeroPadded := true;
      width := 2;
      ghost var total := out + Clip(ArrayPieces(b, 0, n, delimiter), maxLength - |out|);
      var i := 0;
      ArrayDone(b, i, n, delimiter, maxLength - |out|, out);
      while i < n
        invariant 0 <= i && (i <= n || i == 0)
        invariant zeroPadded && width == 2 && CharCnt == |out| < maxLength
        invariant total == out + Clip(ArrayPieces(b, i, n, delimiter), maxLength - |out|)
        invariant i >= n ==> total == out
        decreases n - i
      {
        ghost var element := Element(b[i], i > 0 && delimiter != 0, delimiter);
        ghost var rest := ArrayPieces(b, i + 1, n, delimiter);
        ArrayStep(b, i, n, delimiter);
        Emit(element, rest, maxLength - |out|, out);
        var room := PutElement(b[i], i > 0 && delimiter != 0, delimiter);
        if !room {
          ClipNoRoom(rest);
          assert out + "" == out;
          break;
        }
        i := i + 1;
        ArrayDone(b, i, n, delimiter, maxLength - |out|, out);
      }
    }

    /** The signed conversion. */
    method PutSigned(w: u32)
      requires CharCnt == |out| < maxLength
      modifies this`CharCnt, this`out
      ensures var n, room := Signed(w), maxLength - |old(out)|;
              out == old(out) + Clip(SignedPieces(n, width, zeroPadded), room)
      ensures CharCnt == |out| <= maxLength
    {
      hide Cut, Clip, NumberPiece, IsPadding, Denotes;
      ghost var room0 := maxLength - |out|;
      var n := Signed(w);
      if n < 0 {
        ghost var number := NumberPiece(-n, 10, width, zeroPadded);
        assert SignedPieces(n, width, zeroPadded) == [Text("-")] + [number];
        ClipFirst(Text("-"), [number], room0, out);
        var room := PutText('-');
        if !room {
          ClipNoRoom([number]);
          return;
        }
        n := -n;
        SinglePiece(number, maxLength - |out|);
      } else {
        SinglePiece(NumberPiece(n, 10, width, zeroPadded), room0);
      }
      var _, _ := IPutUint(n, 10);
    }

    /** One conversion, with the arguments it takes off the list. */
    method Convert(c: char, args: seq<Arg>) returns (rest: seq<Arg>)
      requires CharCnt == |out| < maxLength
      requires Conversion(c, width, zeroPadded, args).Some?
      modifies this`CharCnt, this`out, this`width, this`zeroPadded
      ensures var (ps, left) := Conversion(c, old(width), old(zeroPadded), args).value;
              var room := maxLength - |old(out)|;
              && rest == left
              && out == old(out) + Clip(ps, room) && |out| <= maxLength
              && CharCnt == |out| + if EndsInChars(ps, room) then 1 else 0
    {
      hide Cut, Clip, EndsInChars, NumberPiece, ArrayPieces, IsPadding, Denotes;
      ghost var room, w, z := maxLength - |out|, width, zeroPadded;
      rest := args;
      if c == 's' || c == 'S' {
        PutChars(args[0].s);
        rest := args[1..];
      } else if c == 'c' {
        SinglePiece(Text([Character(args[0].w)]), room);
        var _ := PutText(Character(args[0].w));
        rest := args[1..];
      } else if c == 'X' {
        SinglePiece(NumberPiece(args[0].w, 16, w, z), room);
        var _, _ := IPutUint(args[0].w, 16);
        rest := args[1..];
      } else if c == 'u' {
        SinglePiece(NumberPiece(args[0].w, 10, w, z), room);
        var _, _ := IPutUint(args[0].w, 10);
        rest := args[1..];
      } else if c == 'd' {
        SignedHasNoChars(Signed(args[0].w), w, z);
        NoCharsNoEnd(SignedPieces(Signed(args[0].w), w, z), room);
        PutSigned(args[0].w);
        rest := args[1..];
      } else if c == 'A' {
        ArrayHasNoChars(args[0].b, 0, Signed(args[1].w), args[2].w);
        NoCharsNoEnd(ArrayPieces(args[0].b, 0, Signed(args[1].w), args[2].w), room);
        PutArray(args[0].b, Signed(args[1].w), args[2].w);
        rest := args[3..];
      } else {
        ClipNothing(room);
        assert out + "" == out;
      }
    }

    /** The loop that reads the width in front of a conversion. */
    method ReadWidth(f: string) returns (tail: string)
      modifies this`width, this`zeroPadded
      ensures (width, zeroPadded, tail) == Width(f, 0, false)
      ensures |tail| <= |f| && ReadAsWidth(f, |f| - |tail|, width, zeroPadded) && tail == f[|f| - |tail|..]
    {
      hide NextWidth, ReadAsWidth, Width;
      tail := f;
      width := 0;
      zeroPadded := false;
      WidthIsDecimal(f);
      while tail != "" && IsDigit(tail[0])
        invariant Width(tail, width, zeroPadded) == Width(f, 0, false)
        decreases |tail|
      {
        WidthStep(tail, width, zeroPadded);
        if width == 0 && tail[0] == '0' {
          zeroPadded := true;
        }
        width := NextWidth(width, tail[0]);
        tail := tail[1..];
      }
      WidthStep(tail, width, zeroPadded);
    }

    /** One turn of the main loop: a plain character or a conversion, which is `ps` of the pieces. */
    method PrintItem(f: string, args: seq<Arg>) returns (f': string, args': seq<Arg>, ghost ps: seq<Piece>)
      requires CharCnt == |out| < maxLength && f != "" && Plan(f, args).Some?
      modifies this`CharCnt, this`out, this`width, this`zeroPadded
      ensures |f'| < |f| && Plan(f', args').Some? && Plan(f, args).value == ps + Plan(f', args').value
      ensures var room := maxLength - |old(out)|;
              && out == old(out) + Clip(ps, room) && |out| <= maxLength
              && CharCnt == |out| + if EndsInChars(ps, room) then 1 else 0
    {
      hide Cut, Clip, EndsInChars, Conversion, Plan, Width;
      if f[0] != '%' {
        PlanText(f, args);
        ps := [Text([f[0]])];
        SinglePiece(ps[0], maxLength - |out|);
        var _ := PutText(f[0]);
        return f[1..], args, ps;
      }
      PlanConversion(f, args);
      var tail := ReadWidth(f[1..]);
      ps := Conversion(tail[0], width, zeroPadded, args).value.0;
      args' := Convert(tail[0], args);
      f' := tail[1..];
    }

    /**
     `kl_vsprintf` on a well-formed format: it prints what of the full rendering fits, and returns how
     much that is, or one more if the output ends inside a string argument.
     */
    method Vsprintf(format: CString, arguments: seq<Arg>) returns (count: nat)
      requires CharCnt == 0 && out == "" && 1 <= maxLength && Plan(format, arguments).Some?
      modifies this
      ensures var ps := Plan(format, arguments).value;
              && out == Clip(ps, maxLength)
              && count == |out| + (if EndsInChars(ps, maxLength) then 1 else 0)
              && |out| == Min(|Render(ps)|, maxLength)
              && (|Render(ps)| <= maxLength ==> out == Render(ps) && count == |Render(ps)|)
    {
      hide Cut, Clip, EndsInChars, Plan, Render;
      ghost var ps := Plan(format, arguments).value;
      Facts(ps, maxLength);
      var f: string, args := format, arguments;
      assert "" + Clip(ps, maxLength) == Clip(ps, maxLength);
      while f != ""
        invariant CharCnt == |out| < maxLength && Plan(f, args).Some?
        invariant out + Clip(Plan(f, args).value, maxLength - |out|) == Clip(ps, maxLength)
        invariant EndsInChars(Plan(f, args).value, maxLength - |out|) == EndsInChars(ps, maxLength)
        decreases |f|
      {
        ghost var out0, printed := out, [];
        f, args, printed := PrintItem(f, args);
        ghost var rest := Plan(f, args).value;
        Emit(printed, rest, maxLength - |out0|, out0);
        if CharCnt >= maxLength {
          ClipNoRoom(rest);
          assert out + "" == out;
          return CharCnt;
        }
      }
      PlanNothing(args, maxLength - |out|);
      assert out + "" == out;
      count := CharCnt;
    }
  }

  /** The pieces of one byte of an array. */
  function Element(v: u8, delimited: bool, delimiter: u32): seq<Piece> {
    var number := NumberPiece(v, 16, 2, true);
    if delimited then [Text([Character(delimiter)])] + [number] else [number]
  }

  lemma ArrayStep(b: seq<u8>, i: nat, n: int, delimiter: u32)
    requires i < n <= |b|
    ensures ArrayPieces(b, i, n, delimiter) ==
            Element(b[i], i > 0 && delimiter != 0, delimiter) + ArrayPieces(b, i + 1, n, delimiter)
  {
    hide NumberPiece, Character;
  }

  lemma ArrayDone(b: seq<u8>, i: nat, n: int, delimiter: u32, room: nat, out: string)
    requires n <= |b|
    ensures i >= n ==> out + Clip(ArrayPieces(b, i, n, delimiter), room) == out
  {
    if i >= n {
      ClipNothing(room);
      assert out + "" == out;
    }
  }

  lemma PlanNothing(args: seq<Arg>, room: nat)
    ensures Plan("", args) == Some([]) && Clip([], room) == "" && !EndsInChars([], room)
  {
  }

  lemma PlanText(f: string, args: seq<Arg>)
    requires f != "" && f[0] != '%' && Plan(f, args).Some?
    ensures Plan(f[1..], args).Some? && Plan(f, args).value == [Text([f[0]])] + Plan(f[1..], args).value
  {
  }

  lemma PlanConversion(f: string, args: seq<Arg>)
    requires f != "" && f[0] == '%' && Plan(f, args).Some?
    ensures var (width, zero, tail) := Width(f[1..], 0, false);
            && 0 < |tail| < |f| && Conversion(tail[0], width, zero, args).Some?
            && var (ps, left) := Conversion(tail[0], width, zero, args).value;
            && Plan(tail[1..], left).Some? && Plan(f, args).value == ps + Plan(tail[1..], left).value
  {
  }

  lemma SignedHasNoChars(n: int, width: nat, zero: bool)
    ensures NoChars(SignedPieces(n, width, zero))
  {
  }

  /** Printing the pieces `ps` after `out`, with the pieces `rest` to follow. */
  lemma Emit(ps: seq<Piece>, rest: seq<Piece>, room: nat, out: string)
    ensures |Clip(ps, room)| <= room
    ensures out + Clip(ps + rest, room) == (out + Clip(ps, room)) + Clip(rest, room - |Clip(ps, room)|)
    ensures EndsInChars(ps + rest, room) <==>
            EndsInChars(ps, room) || EndsInChars(rest, room - |Clip(ps, room)|)
    ensures EndsInChars(ps, room) ==> |Clip(ps, room)| == room
  {
    if EndsInChars(ps, room) {
      EndsInCharsFull(ps, room);
    }
    ClipAppend(ps, rest, room);
    EndsInCharsAppend(ps, rest, room);
    Regroup(out, Clip(ps, room), Clip(rest, room - |Clip(ps, room)|));
  }

  lemma Facts(ps: seq<Piece>, room: nat)
    ensures |Clip(ps, room)| == Min(|Render(ps)|, room)
    ensures |Render(ps)| <= room ==> Clip(ps, room) == Render(ps) && !EndsInChars(ps, room)
  {
    ClipLength(ps, room);
    if |Render(ps)| <= room {
      ClipWhole(ps, room);
    }
  }

  lemma SinglePiece(p: Piece, room: nat)
    ensures Clip([p], room) == Cut(p, room)
    ensures EndsInChars([p], room) <==> room > 0 && p.Chars? && |p.s| > room
  {
    CutLength(p, room);
    assert [p][1..] == [];
    assert Cut(p, room) + "" == Cut(p, room);
  }

  lemma ClipNoRoom(ps: seq<Piece>)
    ensures Clip(ps, 0) == "" && !EndsInChars(ps, 0)
  {
    ClipLength(ps, 0);
  }

  /** Printing the first piece after `out`. */
  lemma ClipFirst(p: Piece, rest: seq<Piece>, room: nat, out: string)
    ensures |Cut(p, room)| <= room
    ensures out + Clip([p] + rest, room) == (out + Cut(p, room)) + Clip(rest, room - |Cut(p, room)|)
  {
    hide Cut, Clip, EndsInChars;
    ClipStep([p] + rest, room);
    assert ([p] + rest)[1..] == rest;
    Regroup(out, Cut(p, room), Clip(rest, room - |Cut(p, room)|));
  }

  /** The two ways of cutting a number. */
  lemma CutNumber(pad: string, digits: string, room: nat)
    ensures |pad| >= room ==> Cut(Number(pad, digits), room) == pad[..room]
    ensures |pad| < room ==>
              Cut(Number(pad, digits), room) == pad + digits[|digits| - Min(|digits|, room - |pad|)..]
  {
  }
}
