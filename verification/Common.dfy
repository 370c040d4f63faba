/** Types shared by the models. */
module Common {

  datatype Option<+T> = None | Some(value: T)

  /** `uint8_t`. */
  type u8 = x: int | 0 <= x < 0x100

  /** `uint32_t`. */
  type u32 = x: int | 0 <= x < 0x1_0000_0000

  /** What a `char` pointer points at, without the terminator. */
  type CString = s: string | '\0' !in s witness ""

  /** The messages a suspended thread can be resumed with. */
  datatype Msg = MsgOk | MsgTimeout | MsgReset

  /** Why a blocking transfer of a block stopped. */
  datatype Stop = Finished | DeadlinePassed | Interrupted(msg: Msg)

  /** The concatenation of a list of packets. */
  function Flatten<T>(packets: seq<seq<T>>): seq<T> {
    if packets == [] then [] else packets[0] + Flatten(packets[1..])
  }

  lemma {:induction false} FlattenAppend<T>(a: seq<seq<T>>, b: seq<seq<T>>)
    ensures Flatten(a + b) == Flatten(a) + Flatten(b)
  {
    if a == [] {
      assert a + b == b;
    } else {
      assert (a + b)[1..] == a[1..] + b;
      FlattenAppend(a[1..], b);
    }
  }

  lemma FlattenSnoc<T>(a: seq<seq<T>>, p: seq<T>)
    ensures Flatten(a + [p]) == Flatten(a) + p
  {
    FlattenAppend(a, [p]);
    assert Flatten([p]) == p + Flatten([p][1..]);
  }

  lemma SliceOfSlice<T>(s: seq<T>, a: nat, b: nat, k: nat, m: nat)
    requires a <= b <= |s| && k <= m <= b - a
    ensures s[a..b][k..m] == s[a + k..a + m]
  {
    var part := s[a..b];
    forall i | 0 <= i < m - k
      ensures part[k..m][i] == s[a + k..a + m][i]
    {
      assert part[k + i] == s[a + (k + i)];
    }
  }

  /** What is equal from `r` on is equal from any later place on. */
  lemma SameFrom<T>(s: seq<T>, t: seq<T>, r: nat, k: nat)
    requires r <= k <= |s| == |t| && s[r..] == t[r..]
    ensures s[k..] == t[k..]
  {
    assert s[r..][k - r..] == s[k..];
    assert t[r..][k - r..] == t[k..];
  }

  lemma CutInTwo<T>(s: seq<T>, k: nat, count: nat)
    requires k + count <= |s|
    ensures s[k..] == s[k..k + count] + s[k + count..]
  {
  }

  lemma FrontGrows<T>(s: seq<T>, r: nat, k: nat)
    requires r <= k <= |s|
    ensures s[..r] + s[r..k] == s[..k]
  {
  }

  lemma Regroup<T>(a: seq<T>, b: seq<T>, c: seq<T>)
    ensures (a + b) + c == a + (b + c)
  {
  }

  lemma SameTail<T>(a: seq<T>, b: seq<T>, c: seq<T>)
    ensures a + b == a + c <==> b == c
  {
    assert (a + b)[|a|..] == b;
    assert (a + c)[|a|..] == c;
  }

  lemma SameWithout<T>(a: multiset<T>, b: multiset<T>, x: multiset<T>)
    requires a + x == b + x
    ensures a == b
  {
    assert a == a + x - x;
    assert b == b + x - x;
  }

  lemma SameMiddle<T>(a: seq<T>, b: seq<T>, c: seq<T>, d: seq<T>)
    ensures a + (b + d) == a + (c + d) <==> b == c
  {
    SameTail(a, b + d, c + d);
    if b + d == c + d {
      assert |b| == |c|;
      assert (b + d)[..|b|] == b;
      assert (c + d)[..|b|] == c;
    }
  }

  /** The bytes of a buffer that may not have been started. */
  function Part<T>(cur: Option<seq<T>>): seq<T> {
    if cur.Some? then cur.value else []
  }
}
