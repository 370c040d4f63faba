/** `FindMediana`: Hoare's selection in place, on the cells 1 to N of an array. */
module Median {
  import opened Common

  /** The cells below `m` hold nothing greater than the cells from `m` to `n`. */
  predicate Split(s: seq<int>, n: nat, m: nat)
    requires n < |s|
  {
    forall p, q | 1 <= p < m && m <= q <= n :: s[p] <= s[q]
  }

  /** Cell `k` holds what it would hold if the cells 1 to `n` were sorted. */
  predicate Selected(s: seq<int>, n: nat, k: nat)
    requires k <= n < |s|
  {
    && (forall p | 1 <= p <= k :: s[p] <= s[k])
    && (forall q | k <= q <= n :: s[k] <= s[q])
  }

  /** Only the cells from `lo` to `hi` were touched, and only rearranged. */
  predicate Rearranged(s: seq<int>, t: seq<int>, lo: nat, hi: nat) {
    && |s| == |t|
    && multiset(s) == multiset(t)
    && forall i | 0 <= i < |s| && (i < lo || hi < i) :: s[i] == t[i]
  }

  function Swapped(s: seq<int>, i: nat, j: nat): seq<int>
    requires i < |s| && j < |s|
  {
    s[i := s[j]][j := s[i]]
  }

  lemma SwapRearranges(s: seq<int>, t: seq<int>, i: nat, j: nat, lo: nat, hi: nat)
    requires Rearranged(s, t, lo, hi) && lo <= i <= hi < |t| && lo <= j <= hi
    ensures Rearranged(s, Swapped(t, i, j), lo, hi)
  {
  }

  lemma SwapKeepsSplit(s: seq<int>, i: nat, j: nat, n: nat, m: nat)
    requires n < |s| && 1 <= i <= n && 1 <= j <= n && (i < m <==> j < m)
    requires Split(s, n, m)
    ensures Split(Swapped(s, i, j), n, m)
  {
  }

  method Swap(a: array<int>, i: nat, j: nat)
    requires i < a.Length && j < a.Length
    modifies a
    ensures a[..] == Swapped(old(a[..]), i, j)
  {
    var tmp := a[i];
    a[i] := a[j];
    a[j] := tmp;
  }

  /** Within `lo` to `hi`: below `i` nothing above `x`, beyond `j` nothing below it. */
  predicate Parted(s: seq<int>, lo: nat, hi: nat, i: int, j: int, x: int)
    requires hi < |s| && i <= hi + 1 && j >= -1
  {
    && (forall p | lo <= p < i :: s[p] <= x)
    && (forall q | j < q <= hi :: x <= s[q])
  }

  lemma ScansPart(s: seq<int>, lo: nat, hi: nat, i0: nat, j0: nat, i: nat, j: nat, x: int)
    requires lo <= i0 <= i <= hi < |s| && j <= j0 <= hi && Parted(s, lo, hi, i0, j0, x)
    requires forall p | i0 <= p < i :: s[p] < x
    requires forall q | j < q <= j0 :: x < s[q]
    ensures Parted(s, lo, hi, i, j, x)
  {
  }

  lemma SwapParts(s: seq<int>, lo: nat, hi: nat, i: nat, j: nat, x: int)
    requires lo <= i <= j <= hi < |s| && Parted(s, lo, hi, i, j, x) && s[j] <= x <= s[i]
    ensures Parted(Swapped(s, i, j), lo, hi, i + 1, j - 1, x)
    ensures Swapped(s, i, j)[i] <= x <= Swapped(s, i, j)[j]
  {
  }

  /** Once the indices have crossed, the cells are split at both. */
  lemma CrossedSplits(s: seq<int>, n: nat, lo: nat, hi: nat, i: nat, j: nat, x: int)
    requires 1 <= lo <= hi <= n < |s| && lo < i <= hi + 1 && j < hi && j < i && lo <= j + 1
    requires Split(s, n, lo) && Split(s, n, hi + 1) && Parted(s, lo, hi, i, j, x)
    ensures Split(s, n, i) && Split(s, n, j + 1)
    ensures forall k | j < k < i && lo <= k <= hi :: Selected(s, n, k)
  {
    forall p, q | 1 <= p < i && i <= q <= n
      ensures s[p] <= s[q]
    {
      if lo <= p && q <= hi {
        assert s[p] <= x <= s[q];
      }
    }
    forall p, q | 1 <= p < j + 1 && j + 1 <= q <= n
      ensures s[p] <= s[q]
    {
      if lo <= p && q <= hi {
        assert s[p] <= x <= s[q];
      }
    }
  }

  /** `while(Arr[i] < x) i++`, with a cell `up` that stops it. */
  method ScanUp(a: array<int>, from: nat, x: int, ghost up: nat) returns (i: nat)
    requires from <= up < a.Length && x <= a[up]
    ensures from <= i <= up && x <= a[i]
    ensures forall p | from <= p < i :: a[p] < x
  {
    i := from;
    while a[i] < x
      invariant from <= i <= up
      invariant forall p | from <= p < i :: a[p] < x
      decreases up - i
    {
      i := i + 1;
    }
  }

  /** `while(x < Arr[j]) j--`, with a cell `down` that stops it. */
  method ScanDown(a: array<int>, from: nat, x: int, ghost down: nat) returns (j: nat)
    requires down <= from < a.Length && a[down] <= x
    ensures down <= j <= from && a[j] <= x
    ensures forall q | j < q <= from :: x < a[q]
  {
    j := from;
    while x < a[j]
      invariant down <= j <= from
      invariant forall q | j < q <= from :: x < a[q]
      decreases j - down
    {
      j := j - 1;
    }
  }

  /** One pass of the inner loop: two scans, and a swap unless they have crossed. */
  method Pass(a: array<int>, n: nat, ghost lo: nat, ghost hi: nat, i0: nat, j0: nat, x: int, ghost up: nat, ghost down: nat)
    returns (i: nat, j: int)
    requires 1 <= lo <= i0 <= j0 <= hi <= n < a.Length && Parted(a[..], lo, hi, i0, j0, x)
    requires i0 <= up <= hi && x <= a[up] && lo <= down <= j0 && a[down] <= x
    requires Split(a[..], n, lo) && Split(a[..], n, hi + 1)
    modifies a
    ensures Rearranged(old(a[..]), a[..], lo, hi)
    ensures Split(a[..], n, lo) && Split(a[..], n, hi + 1)
    ensures i0 <= i <= hi + 1 && lo - 1 <= j <= j0 && Parted(a[..], lo, hi, i, j, x)
    ensures (i0 < i && j < j0 && a[i - 1] <= x <= a[j + 1]) || (j < i && down < up)
  {
    hide Split, Rearranged, Swapped, Parted;
    i := ScanUp(a, i0, x, up);
    j := ScanDown(a, j0, x, down);
    RearrangedRefl(a[..], lo, hi);
    ScansPart(a[..], lo, hi, i0, j0, i, j, x);
    if i <= j {
      SwapRearranges(a[..], a[..], i, j, lo, hi);
      SwapKeepsSplit(a[..], i, j, n, lo);
      SwapKeepsSplit(a[..], i, j, n, hi + 1);
      SwapParts(a[..], lo, hi, i, j, x);
      Swap(a, i, j);
      assert a[..][i] <= x <= a[..][j];
      i := i + 1;
      j := j - 1;
    }
  }

  /**
   The inner loop: partitions the cells `lo` to `hi` around the value in cell `k`, and moves the bounds
   on the way, in every pass once an index has gone past `k`.
   */
  method Partition(a: array<int>, n: nat, k: nat, lo: nat, hi: nat) returns (L: nat, r: nat)
    requires 1 <= lo < hi <= n < a.Length && lo <= k <= hi
    requires Split(a[..], n, lo) && Split(a[..], n, hi + 1)
    modifies a
    ensures Rearranged(old(a[..]), a[..], lo, hi)
    ensures lo <= L <= n + 1 && r <= hi && r - L < hi - lo
    ensures Split(a[..], n, L) && Split(a[..], n, r + 1)
    ensures (L <= k <= r) || (r < L && Selected(a[..], n, k))
  {
    hide Split, Selected, Rearranged, Parted;
    var x := a[k];
    var i, j: int := lo, hi;
    L, r := lo, hi;
    RearrangedRefl(a[..], lo, hi);
    NothingParted(a[..], lo, hi, x);
    while true
      invariant lo <= i <= j <= hi
      invariant (i == lo && j == hi && a[k] == x) || (lo < i && j < hi && a[i - 1] <= x <= a[j + 1])
      invariant Parted(a[..], lo, hi, i, j, x)
      invariant L == (if j < k then i else lo) && r == (if k < i then j else hi)
      invariant Rearranged(old(a[..]), a[..], lo, hi)
      invariant Split(a[..], n, lo) && Split(a[..], n, hi + 1)
      decreases j - i
    {
      ghost var up, down := if i == lo then k else j + 1, if i == lo then k else i - 1;
      ghost var before := a[..];
      i, j := Pass(a, n, lo, hi, i, j, x, up, down);
      RearrangedTrans(old(a[..]), before, a[..], lo, hi, lo, hi);
      if j < k {
        L := i;
      }
      if k < i {
        r := j;
      }
      if !(i <= j) {
        break;
      }
    }
    CrossedSplits(a[..], n, lo, hi, i, j, x);
  }

  lemma NothingParted(s: seq<int>, lo: nat, hi: nat, x: int)
    requires hi < |s|
    ensures lo <= hi + 1 ==> Parted(s, lo, hi, lo, hi, x)
  {
  }

  /**
   `FindMediana` for an array with cells 0 to N.  From N = 2 on it selects the middle of the cells 1 to
   N and leaves them partitioned around it; below that it returns cell 0, which is outside them.
   */
  method FindMediana(a: array<int>, n: nat) returns (m: int)
    requires n < a.Length
    modifies a
    ensures Rearranged(old(a[..]), a[..], 1, n)
    ensures n >= 2 ==> m == a[n / 2] && Selected(a[..], n, n / 2)
    ensures n < 2 ==> m == old(a[0])
  {
    hide Rearranged;
    var k := n / 2;
    var L: nat, r: nat := 1, n;
    RearrangedRefl(a[..], 1, n);
    while L < r
      invariant 1 <= L <= n + 1 && 0 <= r <= n
      invariant n >= 2 ==> Split(a[..], n, L) && Split(a[..], n, r + 1)
      invariant n >= 2 ==> L <= k <= r || (r < L && Selected(a[..], n, k))
      invariant n < 2 ==> L >= r && a[0] == old(a[0])
      invariant Rearranged(old(a[..]), a[..], 1, n)
      decreases r - L
    {
      ghost var before := a[..];
      ghost var lo, hi := L, r;
      L, r := Partition(a, n, k, L, r);
      RearrangedTrans(old(a[..]), before, a[..], lo, hi, 1, n);
    }
    m := a[k];
  }

  lemma RearrangedRefl(s: seq<int>, lo: nat, hi: nat)
    ensures Rearranged(s, s, lo, hi)
  {
  }

  lemma RearrangedTrans(s: seq<int>, t: seq<int>, u: seq<int>, lo: nat, hi: nat, lo': nat, hi': nat)
    requires Rearranged(s, t, lo', hi') && Rearranged(t, u, lo, hi) && lo' <= lo && hi <= hi'
    ensures Rearranged(s, u, lo', hi')
  {
  }

  function CountAtMost(s: seq<int>, v: int): (c: nat)
    ensures c <= |s|
  {
    if s == [] then 0 else (if s[0] <= v then 1 else 0) + CountAtMost(s[1..], v)
  }

  lemma {:induction false} CountSplits(s: seq<int>, t: seq<int>, v: int)
    ensures CountAtMost(s + t, v) == CountAtMost(s, v) + CountAtMost(t, v)
  {
    if s == [] {
      assert s + t == t;
    } else {
      assert (s + t)[1..] == s[1..] + t;
      CountSplits(s[1..], t, v);
    }
  }

  lemma {:induction false} CountAll(s: seq<int>, v: int)
    ensures (forall i | 0 <= i < |s| :: s[i] <= v) ==> CountAtMost(s, v) == |s|
    ensures (forall i | 0 <= i < |s| :: s[i] > v) ==> CountAtMost(s, v) == 0
  {
    if s != [] {
      CountAll(s[1..], v);
    }
  }

  /** A sequence with one element taken out. */
  function Removed(s: seq<int>, i: nat): seq<int>
    requires i < |s|
  {
    s[..i] + s[i + 1..]
  }

  lemma CountOfRemoved(s: seq<int>, i: nat, v: int)
    requires i < |s|
    ensures CountAtMost(s, v) == (if s[i] <= v then 1 else 0) + CountAtMost(Removed(s, i), v)
  {
    hide CountAtMost;
    assert s == s[..i] + s[i..];
    CountSplits(s[..i], s[i..], v);
    CountSplits(s[..i], s[i + 1..], v);
    CountOfFirst(s[i..], v);
    assert s[i..][1..] == s[i + 1..];
  }

  lemma CountOfFirst(s: seq<int>, v: int)
    requires s != []
    ensures CountAtMost(s, v) == (if s[0] <= v then 1 else 0) + CountAtMost(s[1..], v)
  {
  }

  lemma MultisetOfRemoved(s: seq<int>, i: nat)
    requires i < |s|
    ensures multiset(s) == multiset(Removed(s, i)) + multiset{s[i]}
  {
    assert s == s[..i] + ([s[i]] + s[i + 1..]);
  }

  /** Counting sees the values only, not their order. */
  lemma {:induction false} CountOfRearranged(s: seq<int>, t: seq<int>, v: int)
    requires multiset(s) == multiset(t)
    ensures CountAtMost(s, v) == CountAtMost(t, v)
    decreases |s|
  {
    hide CountAtMost, Removed;
    if s == [] {
      assert |multiset(s)| == |multiset(t)| == 0;
    } else {
      assert s[0] in multiset(t);
      var i :| 0 <= i < |t| && t[i] == s[0];
      MultisetOfRemoved(s, 0);
      MultisetOfRemoved(t, i);
      SameWithout(multiset(Removed(s, 0)), multiset(Removed(t, i)), multiset{s[0]});
      RemovedLength(s, 0);
      CountOfRearranged(Removed(s, 0), Removed(t, i), v);
      CountOfRemoved(s, 0, v);
      CountOfRemoved(t, i, v);
    }
  }

  lemma RemovedLength(s: seq<int>, i: nat)
    requires i < |s|
    ensures |Removed(s, i)| == |s| - 1
  {
  }

  /** Of the cells 1 to `n`, at least `k` hold no more than a value not below the selected one. */
  lemma CountUpTo(s: seq<int>, n: nat, k: nat, v: int)
    requires 1 <= k <= n < |s| && Selected(s, n, k) && s[k] <= v
    ensures CountAtMost(s[1..n + 1], v) >= k
  {
    var a := s[1..n + 1];
    assert a == a[..k] + a[k..];
    CountSplits(a[..k], a[k..], v);
    CountAll(a[..k], v);
  }

  /** And fewer than `k` hold no more than a value below it. */
  lemma CountBelow(s: seq<int>, n: nat, k: nat, v: int)
    requires 1 <= k <= n < |s| && Selected(s, n, k) && v < s[k]
    ensures CountAtMost(s[1..n + 1], v) < k
  {
    var a := s[1..n + 1];
    assert a == a[..k - 1] + a[k - 1..];
    CountSplits(a[..k - 1], a[k - 1..], v);
    CountAll(a[k - 1..], v);
  }

  lemma Cancel(front: seq<int>, s: seq<int>, t: seq<int>, back: seq<int>)
    requires multiset(front + s + back) == multiset(front + t + back)
    ensures multiset(s) == multiset(t)
  {
    var f, b := multiset(front), multiset(back);
    assert multiset(front + s + back) == f + multiset(s) + b;
    assert multiset(front + t + back) == f + multiset(t) + b;
    assert multiset(s) == (f + multiset(s) + b) - f - b;
    assert multiset(t) == (f + multiset(t) + b) - f - b;
  }

  lemma RearrangedInside(s: seq<int>, t: seq<int>, n: nat)
    requires n < |s| && Rearranged(s, t, 1, n)
    ensures |s| == |t| && multiset(s[1..n + 1]) == multiset(t[1..n + 1])
  {
    var m := n + 1;
    assert s == s[..1] + s[1..m] + s[m..];
    assert t == s[..1] + t[1..m] + s[m..];
    Cancel(s[..1], s[1..m], t[1..m], s[m..]);
  }

  /**
   The selected value does not depend on how the cells were rearranged: every arrangement of the same
   values with cell `k` selected has the same value there, the sorted one for instance.
   */
  lemma SelectionIsUnique(s: seq<int>, t: seq<int>, n: nat, k: nat)
    requires 1 <= k <= n < |s| == |t| && Rearranged(s, t, 1, n)
    requires Selected(s, n, k) && Selected(t, n, k)
    ensures s[k] == t[k]
  {
    hide Selected, Rearranged, CountAtMost;
    RearrangedInside(s, t, n);
    CountOfRearranged(s[1..n + 1], t[1..n + 1], s[k]);
    CountOfRearranged(s[1..n + 1], t[1..n + 1], t[k]);
    CountUpTo(s, n, k, s[k]);
    CountUpTo(t, n, k, t[k]);
    if s[k] < t[k] {
      CountBelow(t, n, k, s[k]);
    } else if t[k] < s[k] {
      CountBelow(s, n, k, t[k]);
    }
  }

  /** What `FindMediana` leaves in the middle is what sorting the cells 1 to N would. */
  lemma SelectsTheMedian(before: seq<int>, after: seq<int>, sorted: seq<int>, n: nat)
    requires 2 <= n < |before| == |after| == |sorted| && Rearranged(before, after, 1, n) && Selected(after, n, n / 2)
    requires Rearranged(before, sorted, 1, n) && forall p, q | 1 <= p <= q <= n :: sorted[p] <= sorted[q]
    ensures after[n / 2] == sorted[n / 2]
  {
    SelectionIsUnique(after, sorted, n, n / 2);
  }
}
