/**
 The memory of a buffers queue: `bn` slots of `bsize` bytes in one flat array.  A slot starts with a
 size word; the word of the slot at byte offset `off` is kept as `words[off]`, the payload follows
 at `off + SIZEOF_SIZE_T`.
 */
module Slots {
  import opened Common
  import opened Ring
  import opened Arithmetic

  const SIZEOF_SIZE_T: nat := 4

  /** Where slot `i` begins. */
  function Offset(i: nat, bsize: nat): nat {
    i * bsize
  }

  predicate Sized(mem: seq<u8>, words: seq<nat>, bsize: nat, bn: nat) {
    bn >= 1 && bsize >= SIZEOF_SIZE_T + 2 && |mem| == |words| == Offset(bn, bsize)
  }

  /** The slot at `off` has `payload` in it. */
  predicate SlotHolds(mem: seq<u8>, words: seq<nat>, off: nat, payload: seq<u8>) {
    && off + SIZEOF_SIZE_T + |payload| <= |mem| == |words|
    && words[off] == |payload|
    && mem[off + SIZEOF_SIZE_T..off + SIZEOF_SIZE_T + |payload|] == payload
  }

  /** The slots from `ri` on hold the queued payloads in order. */
  predicate QueueHolds(mem: seq<u8>, words: seq<nat>, bsize: nat, bn: nat, ri: nat, queued: seq<seq<u8>>) {
    && ri < bn
    && |queued| <= bn
    && forall k | 0 <= k < |queued| ::
         |queued[k]| + SIZEOF_SIZE_T <= bsize && SlotHolds(mem, words, Offset(Wrap(ri + k, bn), bsize), queued[k])
  }

  lemma QueueIndex(mem: seq<u8>, words: seq<nat>, bsize: nat, bn: nat, ri: nat, queued: seq<seq<u8>>)
    requires QueueHolds(mem, words, bsize, bn, ri, queued)
    ensures ri < bn && |queued| <= bn
  {
  }

  lemma FirstSlot(mem: seq<u8>, words: seq<nat>, bsize: nat, bn: nat, ri: nat, queued: seq<seq<u8>>)
    requires QueueHolds(mem, words, bsize, bn, ri, queued) && queued != []
    ensures SlotHolds(mem, words, Offset(ri, bsize), queued[0])
  {
    assert SlotHolds(mem, words, Offset(Wrap(ri + 0, bn), bsize), queued[0]);
  }

  lemma SlotWritten(mem: seq<u8>, words: seq<nat>, off: nat, size: nat)
    requires off + SIZEOF_SIZE_T + size <= |mem| == |words| && words[off] == size
    ensures SlotHolds(mem, words, off, mem[off + SIZEOF_SIZE_T..off + SIZEOF_SIZE_T + size])
  {
  }

  lemma SlotPart(mem: seq<u8>, words: seq<nat>, off: nat, payload: seq<u8>, k: nat, count: nat)
    requires SlotHolds(mem, words, off, payload) && k + count <= |payload|
    ensures mem[off + SIZEOF_SIZE_T + k..off + SIZEOF_SIZE_T + k + count] == payload[k..k + count]
  {
    SliceOfSlice(mem, off + SIZEOF_SIZE_T, off + SIZEOF_SIZE_T + |payload|, k, k + count);
  }

  /** Nothing but the slot at `off` differs. */
  predicate OnlySlotChanged(mem: seq<u8>, mem': seq<u8>, words: seq<nat>, words': seq<nat>, off: nat, bsize: nat) {
    && |mem| == |mem'| == |words| == |words'|
    && off + bsize <= |mem|
    && mem'[..off] == mem[..off] && mem'[off + bsize..] == mem[off + bsize..]
    && words'[..off] == words[..off] && words'[off + bsize..] == words[off + bsize..]
  }

  lemma SlotsApart(i: nat, j: nat, bsize: nat)
    requires i < j
    ensures Offset(i, bsize) + bsize <= Offset(j, bsize)
  {
    MulMonotone(i + 1, j, bsize);
    OneTimeMore(i, bsize);
  }

  /** Slot-aligned offsets are equal exactly for equal slots. */
  lemma AlignedEqual(i: nat, j: nat, bsize: nat)
    requires bsize > 0
    ensures Offset(i, bsize) == Offset(j, bsize) <==> i == j
  {
    hide Offset;
    if i < j {
      SlotsApart(i, j, bsize);
    } else if j < i {
      SlotsApart(j, i, bsize);
    }
  }

  /** Advancing a slot pointer with the wrap test at the boundary moves to the next slot. */
  lemma NextSlot(i: nat, bn: nat, bsize: nat)
    requires i < bn && bsize > 0
    ensures Offset(0, bsize) == 0
    ensures var next := Offset(i, bsize) + bsize;
            && next <= Offset(bn, bsize)
            && (if next >= Offset(bn, bsize) then 0 else next) == Offset(Wrap(i + 1, bn), bsize)
  {
    SlotsApart(i, bn, bsize);
    OneTimeMore(i, bsize);
    if i + 1 < bn {
      SlotsApart(i + 1, bn, bsize);
    }
  }

  lemma SameBelow<T>(s: seq<T>, t: seq<T>, w: nat, lo: nat, hi: nat)
    requires |s| == |t| && lo <= hi <= w <= |s| && s[..w] == t[..w]
    ensures s[lo..hi] == t[lo..hi]
  {
    forall i | lo <= i < hi
      ensures s[i] == t[i]
    {
      assert s[..w][i] == t[..w][i];
    }
  }

  lemma SameAbove<T>(s: seq<T>, t: seq<T>, e: nat, lo: nat, hi: nat)
    requires |s| == |t| && e <= lo <= hi <= |s| && s[e..] == t[e..]
    ensures s[lo..hi] == t[lo..hi]
  {
    forall i | lo <= i < hi
      ensures s[i] == t[i]
    {
      assert s[e..][i - e] == t[e..][i - e];
    }
  }

  lemma SlotUntouched(mem: seq<u8>, mem': seq<u8>, words: seq<nat>, words': seq<nat>, w: nat, bsize: nat,
                      off: nat, payload: seq<u8>)
    requires OnlySlotChanged(mem, mem', words, words', w, bsize)
    requires off + bsize <= w || w + bsize <= off
    requires |payload| + SIZEOF_SIZE_T <= bsize
    requires SlotHolds(mem, words, off, payload)
    ensures SlotHolds(mem', words', off, payload)
  {
    var lo, hi := off + SIZEOF_SIZE_T, off + SIZEOF_SIZE_T + |payload|;
    if off + bsize <= w {
      SameBelow(mem, mem', w, lo, hi);
      SameBelow(words, words', w, off, off + 1);
    } else {
      SameAbove(mem, mem', w + bsize, lo, hi);
      SameAbove(words, words', w + bsize, off, off + 1);
    }
    assert words[off..off + 1][0] == words[off] && words'[off..off + 1][0] == words'[off];
  }

  /** Appending `chunk` to the `cur` bytes already in the slot at `off`. */
  lemma ChunkWritten(mem: seq<u8>, mem': seq<u8>, words: seq<nat>, off: nat, bsize: nat, cur: seq<u8>, chunk: seq<u8>)
    requires |mem| == |words| && off + bsize <= |mem| && SIZEOF_SIZE_T + |cur| + |chunk| <= bsize
    requires mem[off + SIZEOF_SIZE_T..off + SIZEOF_SIZE_T + |cur|] == cur
    requires var p := off + SIZEOF_SIZE_T + |cur|; mem' == mem[..p] + chunk + mem[p + |chunk|..]
    ensures OnlySlotChanged(mem, mem', words, words, off, bsize)
    ensures mem'[off + SIZEOF_SIZE_T..off + SIZEOF_SIZE_T + |cur| + |chunk|] == cur + chunk
  {
    var p := off + SIZEOF_SIZE_T + |cur|;
    assert mem'[..p] == mem[..p];
    assert mem'[..off] == mem[..off];
    assert mem'[off + bsize..] == mem[off + bsize..];
    assert mem'[off + SIZEOF_SIZE_T..p + |chunk|] == mem[off + SIZEOF_SIZE_T..p] + chunk;
  }

  /** Writing in the free slot after the queued ones leaves the queued ones alone. */
  lemma FreeSlotWrite(mem: seq<u8>, mem': seq<u8>, words: seq<nat>, words': seq<nat>, bsize: nat, bn: nat,
                      ri: nat, queued: seq<seq<u8>>)
    requires QueueHolds(mem, words, bsize, bn, ri, queued) && |queued| < bn
    requires OnlySlotChanged(mem, mem', words, words', Offset(Wrap(ri + |queued|, bn), bsize), bsize)
    ensures QueueHolds(mem', words', bsize, bn, ri, queued)
  {
    hide SlotHolds, Offset;
    var wi := Wrap(ri + |queued|, bn);
    forall k | 0 <= k < |queued|
      ensures SlotHolds(mem', words', Offset(Wrap(ri + k, bn), bsize), queued[k])
    {
      var i := Wrap(ri + k, bn);
      if i < wi {
        SlotsApart(i, wi, bsize);
      } else {
        SlotsApart(wi, i, bsize);
      }
      SlotUntouched(mem, mem', words, words', Offset(wi, bsize), bsize, Offset(i, bsize), queued[k]);
    }
  }

  lemma PostSlot(mem: seq<u8>, words: seq<nat>, bsize: nat, bn: nat, ri: nat, queued: seq<seq<u8>>, p: seq<u8>)
    requires QueueHolds(mem, words, bsize, bn, ri, queued) && |queued| < bn
    requires |p| + SIZEOF_SIZE_T <= bsize
    requires SlotHolds(mem, words, Offset(Wrap(ri + |queued|, bn), bsize), p)
    ensures QueueHolds(mem, words, bsize, bn, ri, queued + [p])
  {
    hide SlotHolds;
    var q := queued + [p];
    forall k | 0 <= k < |q|
      ensures |q[k]| + SIZEOF_SIZE_T <= bsize && SlotHolds(mem, words, Offset(Wrap(ri + k, bn), bsize), q[k])
    {
      if k < |queued| {
        assert q[k] == queued[k];
      } else {
        assert q[k] == p;
      }
    }
  }

  /** Writing the size word of the free slot posts what lies in it. */
  lemma SizePosted(mem: seq<u8>, words: seq<nat>, bsize: nat, bn: nat, ri: nat, queued: seq<seq<u8>>, size: nat)
    requires QueueHolds(mem, words, bsize, bn, ri, queued) && |queued| < bn && size + SIZEOF_SIZE_T <= bsize
    requires Offset(Wrap(ri + |queued|, bn), bsize) + bsize <= |mem| == |words|
    ensures var off := Offset(Wrap(ri + |queued|, bn), bsize);
            QueueHolds(mem, words[off := size], bsize, bn, ri,
                       queued + [mem[off + SIZEOF_SIZE_T..off + SIZEOF_SIZE_T + size]])
  {
    hide QueueHolds, SlotHolds, Offset, OnlySlotChanged;
    var off := Offset(Wrap(ri + |queued|, bn), bsize);
    var words' := words[off := size];
    OneWordChanged(mem, words, off, bsize, size);
    FreeSlotWrite(mem, mem, words, words', bsize, bn, ri, queued);
    SlotWritten(mem, words', off, size);
    PostSlot(mem, words', bsize, bn, ri, queued, mem[off + SIZEOF_SIZE_T..off + SIZEOF_SIZE_T + size]);
  }

  lemma OneWordChanged(mem: seq<u8>, words: seq<nat>, off: nat, bsize: nat, size: nat)
    requires |mem| == |words| && off + bsize <= |mem| && bsize > 0
    ensures OnlySlotChanged(mem, mem, words, words[off := size], off, bsize)
  {
  }

  lemma ReleaseSlot(mem: seq<u8>, words: seq<nat>, bsize: nat, bn: nat, ri: nat, queued: seq<seq<u8>>)
    requires QueueHolds(mem, words, bsize, bn, ri, queued) && queued != []
    ensures QueueHolds(mem, words, bsize, bn, Wrap(ri + 1, bn), queued[1..])
  {
    hide SlotHolds;
    var r := Wrap(ri + 1, bn);
    forall k | 0 <= k < |queued[1..]|
      ensures |queued[1..][k]| + SIZEOF_SIZE_T <= bsize
      ensures SlotHolds(mem, words, Offset(Wrap(r + k, bn), bsize), queued[1..][k])
    {
      assert queued[1..][k] == queued[k + 1];
      assert Wrap(r + k, bn) == Wrap(ri + (k + 1), bn);
    }
  }
}
