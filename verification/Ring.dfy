/** A ring of cells: `len` values from cell `start` on, around the end of the buffer. */
module Ring {

  /** The index after `i` around a ring of `n` cells, for `i` below twice `n`. */
  function Wrap(i: nat, n: nat): nat {
    if i >= n then i - n else i
  }

  function Contents<T>(buf: seq<T>, start: nat, len: nat): (s: seq<T>)
    requires start < |buf| && len <= |buf|
    ensures |s| == len
  {
    if start + len <= |buf| then buf[start..start + len] else buf[start..] + buf[..start + len - |buf|]
  }

  lemma ContentsAt<T>(buf: seq<T>, start: nat, len: nat, i: nat)
    requires start < |buf| && len <= |buf| && i < len
    ensures Contents(buf, start, len)[i] == buf[Wrap(start + i, |buf|)]
  {
  }

  /** Writing the cell after the last value appends to the contents. */
  lemma PutOne<T>(buf: seq<T>, start: nat, len: nat, x: T)
    requires start < |buf| && len < |buf|
    ensures Contents(buf[Wrap(start + len, |buf|) := x], start, len + 1) == Contents(buf, start, len) + [x]
  {
    hide Contents;
    var w := Wrap(start + len, |buf|);
    var a, b := Contents(buf[w := x], start, len + 1), Contents(buf, start, len) + [x];
    forall i | 0 <= i < len + 1
      ensures a[i] == b[i]
    {
      ContentsAt(buf[w := x], start, len + 1, i);
      if i < len {
        ContentsAt(buf, start, len, i);
      }
    }
  }

  /** Advancing the read index by `k` drops `k` values from the front. */
  lemma DropFront<T>(buf: seq<T>, start: nat, len: nat, k: nat)
    requires start < |buf| && k <= len <= |buf|
    ensures Wrap(start + k, |buf|) < |buf|
    ensures Contents(buf, Wrap(start + k, |buf|), len - k) == Contents(buf, start, len)[k..]
  {
    hide Contents;
    var a, b := Contents(buf, Wrap(start + k, |buf|), len - k), Contents(buf, start, len)[k..];
    forall i | 0 <= i < len - k
      ensures a[i] == b[i]
    {
      ContentsAt(buf, Wrap(start + k, |buf|), len - k, i);
      ContentsAt(buf, start, len, k + i);
      assert b[i] == Contents(buf, start, len)[k + i];
    }
  }

  /** A piece that does not reach around the end is the front of the contents. */
  lemma FrontPiece<T>(buf: seq<T>, start: nat, len: nat, k: nat)
    requires start < |buf| && k <= len <= |buf| && start + k <= |buf|
    ensures buf[start..start + k] == Contents(buf, start, len)[..k]
  {
    hide Contents;
    var a, b := buf[start..start + k], Contents(buf, start, len)[..k];
    forall i | 0 <= i < k
      ensures a[i] == b[i]
    {
      ContentsAt(buf, start, len, i);
    }
  }

  /** Reading the cell at the read index takes the first value. */
  lemma GetOne<T>(buf: seq<T>, start: nat, len: nat)
    requires start < |buf| && 0 < len <= |buf|
    ensures Contents(buf, start, len) == [buf[start]] + Contents(buf, Wrap(start + 1, |buf|), len - 1)
  {
    hide Contents;
    DropFront(buf, start, len, 1);
    ContentsAt(buf, start, len, 0);
    var s := Contents(buf, start, len);
    assert s == [s[0]] + s[1..];
  }

  /** A block that does not reach past the end of the buffer appends to the contents. */
  lemma PutBlock<T>(buf: seq<T>, buf': seq<T>, start: nat, len: nat, data: seq<T>)
    requires start < |buf| && len + |data| <= |buf|
    requires var w := Wrap(start + len, |buf|);
             w + |data| <= |buf| && buf' == buf[..w] + data + buf[w + |data|..]
    ensures Contents(buf', start, len + |data|) == Contents(buf, start, len) + data
  {
    hide Contents;
    var n := len + |data|;
    var a, b := Contents(buf', start, n), Contents(buf, start, len) + data;
    forall i | 0 <= i < n
      ensures a[i] == b[i]
    {
      ContentsAt(buf', start, n, i);
      if i < len {
        ContentsAt(buf, start, len, i);
      }
    }
  }
}
