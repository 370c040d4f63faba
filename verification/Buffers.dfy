/** The circular and the double buffer of the common library. */
module Buffers {
  import opened Common
  import opened R = Ring

  /** `CircBuf_t` with the block operations of `CircBufNumber_t`; pointers are indices into `IBuf`. */
  class CircBuf<T(0)> {
    const IBuf: array<T>
    var IFullSlotsCount: nat
    var PRead: nat
    var PWrite: nat

    ghost predicate Valid()
      reads this, IBuf
    {
      && PRead < IBuf.Length && IFullSlotsCount <= IBuf.Length
      && PWrite == Wrap(PRead + IFullSlotsCount, IBuf.Length)
    }

    /** What is in the buffer, oldest first. */
    ghost function Values(): seq<T>
      requires PRead < IBuf.Length && IFullSlotsCount <= IBuf.Length
      reads this, IBuf
    {
      Contents(IBuf[..], PRead, IFullSlotsCount)
    }

    constructor (size: nat)
      requires size >= 1
      ensures Valid() && fresh(IBuf) && IBuf.Length == size && Values() == []
    {
      IBuf := new T[size];
      IFullSlotsCount, PRead, PWrite := 0, 0, 0;
    }

    /** `Get(T*)`: `None` when empty. */
    method Get() returns (r: Option<T>)
      requires Valid()
      modifies this
      ensures Valid()
      ensures r.None? <==> old(Values()) == []
      ensures if r.None? then Values() == [] else old(Values()) == [r.value] + Values()
    {
      hide Contents;
      if IFullSlotsCount == 0 {
        return None;
      }
      GetOne(IBuf[..], PRead, IFullSlotsCount);
      var value := IBuf[PRead];
      PRead := PRead + 1;
      if PRead > IBuf.Length - 1 {
        PRead := 0;
      }
      IFullSlotsCount := IFullSlotsCount - 1;
      return Some(value);
    }

    /**
     `PutAnyway`.  With room it appends.  On a full buffer the newest value takes the place of the oldest
     and is read next; the pointers then no longer match the count, unless there is one cell only.
     */
    method PutAnyway(x: T)
      requires Valid()
      modifies this, IBuf
      ensures PRead == old(PRead) && IFullSlotsCount <= IBuf.Length
      ensures var before := old(Values());
              if |before| < IBuf.Length then Valid() && Values() == before + [x]
              else Values() == before[0 := x] && (Valid() <==> IBuf.Length == 1)
    {
      hide Contents;
      ghost var cells, w := IBuf[..], PWrite;
      if IFullSlotsCount < IBuf.Length {
        PutOne(cells, PRead, IFullSlotsCount, x);
      } else {
        Overwrite(cells, PRead, x);
      }
      IBuf[PWrite] := x;
      assert IBuf[..] == cells[w := x];
      PWrite := PWrite + 1;
      if PWrite > IBuf.Length - 1 {
        PWrite := 0;
      }
      if IFullSlotsCount < IBuf.Length {
        IFullSlotsCount := IFullSlotsCount + 1;
      }
    }

    /** `Put(T*)`: false for `retvOverflow`. */
    method Put(x: T) returns (ok: bool)
      requires Valid()
      modifies this, IBuf
      ensures Valid()
      ensures ok <==> |old(Values())| < IBuf.Length
      ensures Values() == if ok then old(Values()) + [x] else old(Values())
    {
      if IFullSlotsCount >= IBuf.Length {
        return false;
      }
      PutAnyway(x);
      return true;
    }

    /** `Flush(ALength)`: drops values from the front, all of them at most. */
    method FlushSome(ALength: nat)
      requires Valid()
      modifies this
      ensures Valid()
      ensures var before := old(Values());
              Values() == before[if ALength < |before| then ALength else |before|..]
    {
      hide Contents;
      var n := if ALength > IFullSlotsCount then IFullSlotsCount else ALength;
      DropFront(IBuf[..], PRead, IFullSlotsCount, n);
      IFullSlotsCount := IFullSlotsCount - n;
      var PartSz := IBuf.Length - PRead;
      if n >= PartSz {
        n := n - PartSz;
        PRead := n;
      } else {
        PRead := PRead + n;
      }
    }

    /** `Flush()`. */
    method Flush()
      requires Valid()
      modifies this
      ensures Valid() && Values() == []
    {
      IFullSlotsCount := 0;
      PRead := PWrite;
    }

    /** `memcpy` into the buffer. */
    method Copy(to: nat, data: seq<T>)
      requires to + |data| <= IBuf.Length
      modifies IBuf
      ensures IBuf[..] == old(IBuf[..])[..to] + data + old(IBuf[..])[to + |data|..]
    {
      forall i | 0 <= i < |data| {
        IBuf[to + i] := data[i];
      }
    }

    /** One `memcpy` of a block put, behind `count` values. */
    method PutPiece(data: seq<T>, ghost count: nat)
      requires PRead < IBuf.Length && count + |data| <= IBuf.Length
      requires PWrite == Wrap(PRead + count, IBuf.Length) && PWrite + |data| <= IBuf.Length
      modifies IBuf
      ensures Contents(IBuf[..], PRead, count + |data|) == old(Contents(IBuf[..], PRead, count)) + data
    {
      hide Contents;
      ghost var cells := IBuf[..];
      Copy(PWrite, data);
      R.PutBlock(cells, IBuf[..], PRead, count, data);
    }

    /** Block `Put`, in one piece or two; a block that does not fit as a whole changes nothing. */
    method PutBlock(p: seq<T>) returns (ok: bool)
      requires Valid()
      modifies this, IBuf
      ensures Valid()
      ensures ok <==> |old(Values())| + |p| <= IBuf.Length
      ensures Values() == if ok then old(Values()) + p else old(Values())
    {
      hide Contents;
      if IBuf.Length - IFullSlotsCount >= |p| {
        ghost var before, count := Values(), IFullSlotsCount;
        var rest := p;
        IFullSlotsCount := IFullSlotsCount + |p|;
        var PartSz := IBuf.Length - PWrite;
        if |rest| > PartSz {
          PutPiece(rest[..PartSz], count);
          PWrite := 0;
          count := count + PartSz;
          rest := rest[PartSz..];
          Regroup(before, p[..PartSz], rest);
          assert p[..PartSz] + rest == p;
        }
        PutPiece(rest, count);
        PWrite := PWrite + |rest|;
        if PWrite >= IBuf.Length {
          PWrite := 0;
        }
        ok := true;
      } else {
        ok := false;
      }
    }

    /** Block `Get`: as many values as asked for, or as there are. */
    method GetBlock(ALength: nat) returns (p: seq<T>)
      requires Valid()
      modifies this
      ensures Valid()
      ensures old(Values()) == p + Values()
      ensures |p| == if ALength < |old(Values())| then ALength else |old(Values())|
    {
      hide Contents;
      p := [];
      assert p + Values() == Values();
      while IFullSlotsCount > 0 && |p| < ALength
        invariant Valid() && |p| <= ALength
        invariant old(Values()) == p + Values() && |p| + IFullSlotsCount == old(IFullSlotsCount)
        decreases IFullSlotsCount
      {
        ghost var before := p;
        GetOne(IBuf[..], PRead, IFullSlotsCount);
        var value := IBuf[PRead];
        p := p + [value];
        PRead := PRead + 1;
        if PRead >= IBuf.Length {
          PRead := 0;
        }
        IFullSlotsCount := IFullSlotsCount - 1;
        Regroup(before, [value], Values());
      }
    }
  }

  /** Overwriting the first cell of a full ring. */
  lemma Overwrite<T>(buf: seq<T>, start: nat, x: T)
    requires start < |buf|
    ensures Contents(buf[start := x], start, |buf|) == Contents(buf, start, |buf|)[0 := x]
  {
  }

  datatype AddRslt = AddrOk | AddrSwitch

  /**
   `DoubleBuf_t`.  The two buffers lie one after the other in `mem`: `Buf1` at 0 and `Buf2` at `Sz`.
   `exposed` records what each switch offered to the reader.
   */
  class DoubleBuf<T(0)> {
    const Sz: nat
    const mem: array<T>
    var pWrite: nat
    var pRead: nat

    ghost var input: seq<T>
    ghost var exposed: seq<seq<T>>
    ghost var current: seq<T>      // what is in the buffer being written

    /** Where the buffer being written starts. */
    ghost function Base(): nat
      reads this
    {
      if pRead == 0 then Sz else 0
    }

    /** `Valid`, or the buffer being written just filled up. */
    ghost predicate Consistent()
      reads this, mem
    {
      && Sz >= 1 && mem.Length == 2 * Sz
      && (pRead == 0 || pRead == Sz)
      && pWrite == Base() + |current| && |current| <= Sz
      && Holds(mem[..], Base(), current)
      && input == Flatten(exposed) + current
      && (forall i | 0 <= i < |exposed| :: |exposed[i]| == Sz)
      && (exposed != [] ==> Holds(mem[..], pRead, exposed[|exposed| - 1]))
    }

    ghost predicate Valid()
      reads this, mem
    {
      Consistent() && |current| < Sz
    }

    constructor (size: nat)
      requires size >= 1
      ensures Valid() && fresh(mem) && Sz == size && input == [] && exposed == []
    {
      Sz := size;
      mem := new T[2 * size];
      pWrite := 0;
      pRead := size;
      input, exposed, current := [], [], [];
    }

    /** `*pWrite++ = Value`. */
    method Write(value: T)
      requires Valid()
      modifies this`pWrite, this`input, this`current, mem
      ensures Consistent() && input == old(input) + [value] && current == old(current) + [value]
    {
      hide Holds, Flatten;
      ghost var cells, w := mem[..], pWrite;
      HoldsAfterAppend(cells, Base(), current, value);
      if exposed != [] {
        HoldsElsewhere(cells, pRead, exposed[|exposed| - 1], w, value);
      }
      mem[pWrite] := value;
      assert mem[..] == cells[w := value];
      Regroup(Flatten(exposed), current, [value]);
      pWrite := pWrite + 1;
      input, current := input + [value], current + [value];
    }

    /** The buffers change places. */
    method Switch(read: nat)
      requires Consistent() && |current| == Sz && read == Base()
      modifies this`pRead, this`pWrite, this`exposed, this`current
      ensures Valid() && pRead == read && exposed == old(exposed) + [old(current)] && current == []
    {
      hide Holds, Flatten;
      FlattenSnoc(exposed, current);
      exposed, current := exposed + [current], [];
      pRead := read;
      pWrite := Sz - read;
      assert Flatten(exposed) + [] == Flatten(exposed);
      HoldsNothing(mem[..], pWrite);
    }

    /**
     `Append`.  `Valid` says that the buffer at `pRead` holds what the last switch exposed, so between
     two switches it is left alone.
     */
    method Append(value: T) returns (r: AddRslt)
      requires Valid()
      modifies this, mem
      ensures Valid() && input == old(input) + [value]
      ensures r == AddrOk ==> exposed == old(exposed) && pRead == old(pRead)
      ensures r == AddrSwitch ==> pRead == old(Base()) && exposed == old(exposed) + [old(current) + [value]]
    {
      hide Holds, Flatten;
      Write(value);
      if pRead == 0 {
        if pWrite >= 2 * Sz {
          Switch(Sz);
          return AddrSwitch;
        }
        return AddrOk;
      } else {
        if pWrite >= Sz {
          Switch(0);
          return AddrSwitch;
        }
        return AddrOk;
      }
    }
  }

  /** The cells from `lo` on are `data`. */
  predicate Holds<T(==)>(cells: seq<T>, lo: nat, data: seq<T>) {
    lo + |data| <= |cells| && cells[lo..lo + |data|] == data
  }

  lemma HoldsNothing<T>(cells: seq<T>, lo: nat)
    requires lo <= |cells|
    ensures Holds(cells, lo, [])
  {
  }

  lemma HoldsAfterAppend<T>(cells: seq<T>, lo: nat, data: seq<T>, x: T)
    requires Holds(cells, lo, data) && lo + |data| < |cells|
    ensures Holds(cells[lo + |data| := x], lo, data + [x])
  {
  }

  lemma HoldsElsewhere<T>(cells: seq<T>, lo: nat, data: seq<T>, w: nat, x: T)
    requires Holds(cells, lo, data) && w < |cells| && (w < lo || lo + |data| <= w)
    ensures Holds(cells[w := x], lo, data)
  {
  }

  /** The m-th exposed buffer holds the m-th stretch of `size` values of the input. */
  lemma {:induction false} ExposedIsStretch<T>(exposed: seq<seq<T>>, rest: seq<T>, size: nat, m: nat)
    requires m < |exposed| && forall i | 0 <= i < |exposed| :: |exposed[i]| == size
    ensures m * size + size <= |Flatten(exposed) + rest|
    ensures (Flatten(exposed) + rest)[m * size..m * size + size] == exposed[m]
  {
    var input, tail := Flatten(exposed) + rest, Flatten(exposed[1..]) + rest;
    Regroup(exposed[0], Flatten(exposed[1..]), rest);
    assert input == exposed[0] + tail;
    if m == 0 {
    } else {
      ExposedIsStretch(exposed[1..], rest, size, m - 1);
      assert m * size == (m - 1) * size + size;
      assert input[m * size..m * size + size] == tail[(m - 1) * size..(m - 1) * size + size];
    }
  }
}
