/** Bit fields of the 128-bit card registers, and the card capacity in them. */
module CardRegister {
  import opened Common
  import opened Arithmetic

  const WORD: nat := 0x1_0000_0000

  /** `x & y`, bit by bit. */
  function And(x: nat, y: nat): nat {
    if x == 0 || y == 0 then 0 else (if x % 2 == 1 && y % 2 == 1 then 1 else 0) + 2 * And(x / 2, y / 2)
  }

  /** `x | y`, bit by bit. */
  function Or(x: nat, y: nat): nat
    decreases x + y
  {
    if x == 0 then y else if y == 0 then x
    else (if x % 2 == 1 || y % 2 == 1 then 1 else 0) + 2 * Or(x / 2, y / 2)
  }

  /** `x >> k` in a register. */
  function Shr(x: nat, k: nat): nat {
    Div(x, Pow2(k))
  }

  /** `x << k` in a 32-bit register: what leaves it is gone, so that a shift by 32 leaves nothing. */
  function Shl(x: nat, k: nat): u32 {
    (x * Pow2(k)) % 0x1_0000_0000
  }

  /** A mask of `m` ones keeps the remainder. */
  lemma {:induction false} MaskIsRemainder(x: nat, m: nat)
    ensures And(x, Pow2(m) - 1) == Rem(x, Pow2(m))
    decreases m
  {
    hide Rem;
    if m == 0 || x == 0 {
      RemainderOfNothing(x, m);
    } else {
      var p := Pow2(m - 1);
      MaskIsRemainder(x / 2, m - 1);
      LowestBit(x, p);
      MaskStep(x, p);
    }
  }

  lemma RemainderOfNothing(x: nat, m: nat)
    requires m == 0 || x == 0
    ensures Rem(x, Pow2(m)) == 0
  {
    if m > 0 {
      RemOfSmall(0, Pow2(m));
    }
  }

  lemma MaskStep(x: nat, p: nat)
    requires x > 0 && p > 0
    ensures And(x, 2 * p - 1) == x % 2 + 2 * And(x / 2, p - 1)
  {
    var y := 2 * p - 1;
    assert y % 2 == 1 && y / 2 == p - 1;
  }

  lemma OrNothing(x: nat)
    ensures Or(0, x) == x && Or(x, 0) == x
  {
  }

  lemma OrWithEven(x: nat, z: nat)
    requires x > 0 && z > 0
    ensures Or(x, 2 * z) == x % 2 + 2 * Or(x / 2, z)
  {
    assert (2 * z) % 2 == 0 && (2 * z) / 2 == z;
  }

  /** Two words with no common bit places: or-ing is adding. */
  lemma {:induction false} OrOfDisjoint(x: nat, y: nat, k: nat)
    requires x < Pow2(k)
    ensures Or(x, y * Pow2(k)) == x + y * Pow2(k)
    decreases k
  {
    hide Or;
    if x == 0 || y * Pow2(k) == 0 {
      OrNothing(x);
      OrNothing(y * Pow2(k));
    } else {
      var h := Pow2(k - 1);
      Regrouped(y, 2, h);
      Regrouped(2, y, h);
      OrWithEven(x, y * h);
      OrOfDisjoint(x / 2, y, k - 1);
    }
  }

  /** The register as one number, the first word lowest. */
  function Value(data: seq<u32>): nat {
    if data == [] then 0 else data[0] + 0x1_0000_0000 * Value(data[1..])
  }

  /** `_mmcsd_get_slice`: the bits from `start` to `end`, within a word or across two. */
  function GetSlice(data: seq<u32>, end: nat, start: nat): nat
    requires start <= end < start + 32 && end < 32 * |data|
  {
    var startidx, startoff, endidx := start / 32, start % 32, end / 32;
    var endmask := Minus1(Shl(1, end % 32 + 1));
    if startidx < endidx then
      Or(Shr(data[startidx], startoff), Shl(And(data[endidx], endmask), 32 - startoff))
    else
      Shr(And(data[startidx], endmask), startoff)
  }

  /** `x - 1U`. */
  function Minus1(x: u32): u32 {
    if x == 0 then 0xFFFF_FFFF else x - 1
  }

  /** The mask covers the bits up to the end bit, also when that is the last one of the word. */
  lemma EndMask(e: nat)
    requires e < 32
    ensures Minus1(Shl(1, e + 1)) == Pow2(e + 1) - 1
    ensures Pow2(e + 1) <= 0x1_0000_0000
  {
    Pow2Word();
    if e < 31 {
      Pow2Monotone(e + 1, 31);
    }
    hide Pow2;
    assert 1 * Pow2(e + 1) == Pow2(e + 1);
  }

  /** Dividing by whole words drops them. */
  lemma {:induction false} DropWords(data: seq<u32>, i: nat)
    requires i <= |data|
    ensures Div(Value(data), Pow2(32 * i)) == Value(data[i..])
    decreases i
  {
    hide Div, Rem;
    if i == 0 {
      assert data[0..] == data;
      DivUnique(Value(data), 1, Value(data), 0);
    } else {
      var rest := data[1..];
      DropWords(rest, i - 1);
      assert rest[i - 1..] == data[i..];
      Pow2Word();
      Pow2Add(32, 32 * (i - 1));
      assert Pow2(32) * Pow2(32 * (i - 1)) == Pow2(32 * i);
      DivDiv(Value(data), WORD, Pow2(32 * (i - 1)));
      AddMultiple(data[0], Value(rest), WORD);
      RemOfSmall(data[0], WORD);
      assert Value(data) == data[0] + Value(rest) * WORD;
    }
  }

  /** The words from the one the field starts in, and the field's place in them. */
  lemma FieldInWords(data: seq<u32>, start: nat, len: nat)
    requires start < 32 * |data|
    ensures var i, off := start / 32, start % 32;
            Rem(Div(Value(data), Pow2(start)), Pow2(len))
            == Div(Rem(Value(data[i..]), Pow2(off + len)), Pow2(off))
  {
    hide Div, Rem, Pow2, Value;
    var i, off := start / 32, start % 32;
    DropWords(data, i);
    Pow2Add(32 * i, off);
    assert 32 * i + off == start;
    DivDiv(Value(data), Pow2(32 * i), Pow2(off));
    Pow2Add(off, len);
    DivDiv(Value(data[i..]), Pow2(off), Pow2(len));
  }

  /** Within one word: the higher words do not show. */
  lemma OneWord(data: seq<u32>, m: nat)
    requires data != [] && m <= 32
    ensures Rem(Value(data), Pow2(m)) == Rem(data[0], Pow2(m))
  {
    hide Div, Rem, Pow2;
    Pow2Word();
    Pow2Add(m, 32 - m);
    var k := Pow2(32 - m) * Value(data[1..]);
    assert k * Pow2(m) == Pow2(m) * Pow2(32 - m) * Value(data[1..]);
    AddMultiple(data[0], k, Pow2(m));
  }

  /** Across two words. */
  lemma TwoWords(data: seq<u32>, m: nat)
    requires |data| >= 2 && m <= 32
    ensures Rem(Value(data), Pow2(32 + m)) == data[0] + Rem(data[1], Pow2(m)) * WORD
  {
    hide Div, Rem, Pow2;
    var rest := data[1..];
    OneWord(rest, m);
    Pow2Word();
    Pow2Add(32, m);
    var q, r := Div(Value(rest), Pow2(m)), Rem(Value(rest), Pow2(m));
    DivRem(Value(rest), Pow2(m));
    assert Value(data) == data[0] + WORD * Value(rest);
    TwoPlaces(q, r, data[0], WORD, Pow2(m));
    DivUnique(Value(data), WORD * Pow2(m), q, r * WORD + data[0]);
  }

  /** The two pieces put together. */
  lemma Pieces(w0: u32, low: nat, off: nat, m: nat)
    requires 0 < off < 32 && low < Pow2(m) && m <= off
    ensures Or(Shr(w0, off), Shl(low, 32 - off)) == Div(w0 + low * WORD, Pow2(off))
  {
    hide Div, Pow2, Or, Shl;
    Pow2Word();
    Pow2Add(off, 32 - off);
    var p, h := Pow2(off), Pow2(32 - off);
    // the high piece does not leave the word
    Pow2Monotone(m, off);
    MulMonotone(low + 1, p, h);
    OneTimeMore(low, h);
    ShlFits(low, 32 - off);
    // the low piece is below it
    DivRem(w0, p);
    SmallQuotient(w0, p, h);
    OrOfDisjoint(Div(w0, p), low, 32 - off);
    Regrouped(low, p, h);
    AddMultiple(w0, low * h, p);
  }

  lemma ShlFits(x: nat, k: nat)
    requires x * Pow2(k) < 0x1_0000_0000
    ensures Shl(x, k) == x * Pow2(k)
  {
    hide Pow2;
  }

  lemma SmallQuotient(n: nat, p: nat, h: nat)
    requires p > 0 && n < p * h
    ensures Div(n, p) < h
  {
    hide Div, Rem;
    DivRem(n, p);
    if Div(n, p) >= h {
      MulMonotone(h, Div(n, p), p);
    }
  }

  /**
   `_mmcsd_get_slice` gives the bits `start` to `end` of the register as a number, for every field of up
   to 32 bits, within a word or across two.
   */
  lemma SliceIsField(data: seq<u32>, end: nat, start: nat)
    requires start <= end < start + 32 && end < 32 * |data|
    ensures GetSlice(data, end, start) == Rem(Div(Value(data), Pow2(start)), Pow2(end - start + 1))
  {
    hide Div, Rem, Pow2, Value, And, Or, Shl;
    var i, off, j, e := start / 32, start % 32, end / 32, end % 32;
    var tail := data[i..];
    EndMask(e);
    FieldInWords(data, start, end - start + 1);
    MaskIsRemainder(data[j], e + 1);
    if i == j {
      OneWord(tail, e + 1);
      assert off + (end - start + 1) == e + 1;
    } else {
      assert j == i + 1 && off + (end - start + 1) == 32 + (e + 1);
      TwoWords(tail, e + 1);
      DivRem(data[j], Pow2(e + 1));
      Pieces(data[i], Rem(data[j], Pow2(e + 1)), off, e + 1);
    }
  }

  /** `x + 1U`. */
  function Plus1(x: nat): u32
  {
    (x + 1) % 0x1_0000_0000
  }

  /** `c - 9U` as a register shift uses it: the low byte of the wrapped difference. */
  function ShiftCount(c: nat): nat {
    if c >= 9 then (c - 9) % 256 else 256 + c - 9
  }

  function CapacityV1(a: nat, b: nat, c: nat): nat {
    Shl(Shl(Plus1(a), b + 2), ShiftCount(c))
  }

  function CapacityV2(a: nat): nat {
    (1024 * Plus1(a)) % 0x1_0000_0000
  }

  /** `_mmcsd_get_capacity`: in blocks of 512 bytes; 0 for a reserved register structure. */
  function GetCapacity(csd: seq<u32>): nat
    requires |csd| == 4
  {
    var structure := GetSlice(csd, 127, 126);
    if structure == 0 then CapacityV1(GetSlice(csd, 73, 62), GetSlice(csd, 49, 47), GetSlice(csd, 83, 80))
    else if structure == 1 then CapacityV2(GetSlice(csd, 69, 48))
    else 0
  }

  /** The field from bit `start` to bit `end` of the register as a number. */
  function Field(csd: seq<u32>, end: nat, start: nat): nat
    requires start <= end
  {
    Rem(Div(Value(csd), Pow2(start)), Pow2(end - start + 1))
  }

  function Times(x: nat, y: nat): nat {
    x * y
  }

  /** The capacity in bytes of a version 1 card: (C_SIZE + 1) * 2^(C_SIZE_MULT + 2) * 2^READ_BL_LEN. */
  function BytesV1(csd: seq<u32>): nat {
    Times(Times(Field(csd, 73, 62) + 1, Pow2(Field(csd, 49, 47) + 2)), Pow2(Field(csd, 83, 80)))
  }

  /** The capacity in bytes of a version 2 card: (C_SIZE + 1) * 512 KByte. */
  function BytesV2(csd: seq<u32>): nat {
    (Field(csd, 69, 48) + 1) * 512 * 1024
  }

  lemma FieldBound(csd: seq<u32>, end: nat, start: nat, bound: nat)
    requires start <= end && bound == Pow2(end - start + 1)
    ensures Field(csd, end, start) < bound
  {
    hide Div, Rem, Pow2;
    DivRem(Div(Value(csd), Pow2(start)), bound);
  }

  /** A shift that stays within the word multiplies. */
  lemma ShlMultiplies(x: nat, k: nat, xs: nat, ks: nat)
    requires x <= xs && k <= ks && xs * Pow2(ks) < 0x1_0000_0000
    ensures Shl(x, k) == Times(x, Pow2(k)) <= xs * Pow2(ks)
  {
    hide Pow2;
    Pow2Monotone(k, ks);
    MulMonotone(x, xs, Pow2(k));
    MulMonotone(Pow2(k), Pow2(ks), xs);
    assert xs * Pow2(k) <= xs * Pow2(ks);
  }

  /** A shift by the width of the word or more leaves nothing. */
  lemma ShlLosesAll(x: nat, k: nat)
    requires k >= 32
    ensures Shl(x, k) == 0
  {
    hide Pow2, Div, Rem;
    Pow2Word();
    Pow2Add(k - 32, 32);
    var q := x * Pow2(k - 32);
    assert x * Pow2(k) == q * WORD;
    DivUnique(x * Pow2(k), WORD, q, 0);
    RemIsRemainder(x * Pow2(k));
  }

  lemma RemIsRemainder(n: nat)
    ensures Rem(n, WORD) == n % 0x1_0000_0000
  {
  }

  /** Within the field widths neither shift loses anything. */
  lemma V1Product(a: nat, b: nat, c: nat)
    requires a < 4096 && b < 8 && 9 <= c < 16
    ensures CapacityV1(a, b, c) == Times(Times(a + 1, Pow2(b + 2)), Pow2(c - 9))
  {
    hide Pow2, Shl, Times;
    SmallPowers();
    ShlMultiplies(a + 1, b + 2, 4096, 9);
    ShlMultiplies(Shl(a + 1, b + 2), c - 9, 4096 * 512, 6);
  }

  lemma V1Blocks(a: nat, b: nat, c: nat)
    requires a < 4096 && b < 8 && c < 16
    ensures c >= 9 ==> CapacityV1(a, b, c) * 512 == Times(Times(a + 1, Pow2(b + 2)), Pow2(c))
    ensures c < 9 ==> CapacityV1(a, b, c) == 0
  {
    hide Pow2, Shl, Times;
    if c < 9 {
      ShlLosesAll(Shl(Plus1(a), b + 2), ShiftCount(c));
    } else {
      hide CapacityV1;
      V1Product(a, b, c);
      SmallPowers();
      Pow2Add(c - 9, 9);
      var blocks := Times(a + 1, Pow2(b + 2));
      TimesIsProduct(blocks, Pow2(c - 9));
      TimesIsProduct(blocks, Pow2(c));
      Regrouped(blocks, Pow2(c - 9), 512);
    }
  }

  lemma TimesIsProduct(x: nat, y: nat)
    ensures Times(x, y) == x * y
  {
  }

  lemma SmallPowers()
    ensures Pow2(2) == 4 && Pow2(3) == 8 && Pow2(4) == 16 && Pow2(6) == 64 && Pow2(9) == 512
    ensures Pow2(12) == 4096 && Pow2(22) == 0x40_0000
  {
    assert Pow2(6) == 64;
    assert Pow2(3) == 8;
    Pow2Add(3, 6);
    Pow2Add(6, 6);
    assert Pow2(10) == 1024;
    Pow2Add(12, 10);
  }

  /**
   The capacity, version 1 (section 5.3.2 of the SD Physical Layer Simplified Specification): right
   exactly when the read block is at least 512 bytes long.
   */
  lemma CapacityVersion1(csd: seq<u32>)
    requires |csd| == 4 && Field(csd, 127, 126) == 0
    ensures GetCapacity(csd) * 512 == BytesV1(csd) <==> Field(csd, 83, 80) >= 9
  {
    hide Pow2, Div, Rem, GetSlice, CapacityV1;
    SmallPowers();
    SliceIsField(csd, 127, 126);
    SliceIsField(csd, 73, 62);
    SliceIsField(csd, 49, 47);
    SliceIsField(csd, 83, 80);
    FieldBound(csd, 73, 62, 4096);
    FieldBound(csd, 49, 47, 8);
    FieldBound(csd, 83, 80, 16);
    V1Blocks(Field(csd, 73, 62), Field(csd, 49, 47), Field(csd, 83, 80));
    BytesV1Positive(csd);
  }

  lemma BytesV1Positive(csd: seq<u32>)
    ensures BytesV1(csd) > 0
  {
    hide Pow2, Field;
    var x, y := Field(csd, 73, 62) + 1, Pow2(Field(csd, 49, 47) + 2);
    assert x * y > 0;
    assert x * y * Pow2(Field(csd, 83, 80)) > 0;
  }

  /**
   Version 2 (section 5.3.3): right exactly when the size field is below its largest value, for which
   the number of blocks does not fit in the word.
   */
  lemma CapacityVersion2(csd: seq<u32>)
    requires |csd| == 4 && Field(csd, 127, 126) == 1
    ensures GetCapacity(csd) * 512 == BytesV2(csd) <==> Field(csd, 69, 48) < 0x3F_FFFF
  {
    hide Pow2, Div, Rem, GetSlice;
    SmallPowers();
    SliceIsField(csd, 127, 126);
    SliceIsField(csd, 69, 48);
    FieldBound(csd, 69, 48, 0x40_0000);
  }

  /** Any other structure is refused. */
  lemma CapacityReserved(csd: seq<u32>)
    requires |csd| == 4
    ensures Field(csd, 127, 126) > 1 ==> GetCapacity(csd) == 0
  {
    hide Pow2, Div, Rem, GetSlice;
    SliceIsField(csd, 127, 126);
  }
}
