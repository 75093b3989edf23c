/** The 59 size-segregated free lists of lab1/myMalloc.c as circular sequences of header addresses.
    Ring i starts with the address of its sentinel, `freelistSentinels[i]`. */
module FreeLists {
  import opened HeapLayout

  const N_LISTS := 59
  const SENTINEL_SIZE := 32

  type Rings = seq<seq<int>>

  function Sentinel(sent: int, i: int): int {
    sent + SENTINEL_SIZE * i
  }

  /** First address past the sentinels. */
  function SentinelEnd(sent: int): int {
    sent + SENTINEL_SIZE * N_LISTS
  }

  function IndexFrom(idx: nat, size: int): (i: nat)
    requires idx < N_LISTS
    ensures idx <= i < N_LISTS
    ensures i < N_LISTS - 1 ==> size <= MIN_BLOCK + 8 * i
    ensures i > idx ==> MIN_BLOCK + 8 * (i - 1) < size
    decreases N_LISTS - idx
  {
    if idx < N_LISTS - 1 && MIN_BLOCK + 8 * idx < size then IndexFrom(idx + 1, size) else idx
  }

  /** The list for blocks of a size: the least i whose bucket 32 + 8i holds the size, or the last list. */
  function IndexOf(size: int): (i: nat)
    ensures i < N_LISTS
    ensures i < N_LISTS - 1 ==> size <= MIN_BLOCK + 8 * i
    ensures i > 0 ==> MIN_BLOCK + 8 * (i - 1) < size
  {
    IndexFrom(0, size)
  }

  /** The loop of size_to_list_index. */
  method SizeToListIndex(size: int) returns (idx: int)
    ensures idx == IndexOf(size)
    ensures 0 <= idx < N_LISTS
  {
    idx := 0;
    var bucket := MIN_BLOCK;
    while idx < N_LISTS - 1 && bucket < size
      invariant 0 <= idx < N_LISTS && bucket == MIN_BLOCK + 8 * idx
      invariant IndexOf(size) == IndexFrom(idx, size)
    {
      idx := idx + 1;
      bucket := bucket + 8;
    }
  }

  lemma IndexMonotone(s: int, t: int)
    requires s <= t
    ensures IndexOf(s) <= IndexOf(t)
  {
  }

  /** Every list but the last holds one size only. */
  lemma IndexExact(s: int)
    requires s % 8 == 0 && s >= MIN_BLOCK && IndexOf(s) < N_LISTS - 1
    ensures s == MIN_BLOCK + 8 * IndexOf(s)
  {
  }

  // ---- sequences without repetition ----

  ghost predicate Distinct(q: seq<int>) {
    forall k, l | 0 <= k < l < |q| :: q[k] != q[l]
  }

  ghost function Without(q: seq<int>, x: int): seq<int>
    requires x in q
  {
    var k :| 0 <= k < |q| && q[k] == x;
    q[..k] + q[k + 1..]
  }

  lemma WithoutAt(q: seq<int>, k: nat)
    requires Distinct(q) && k < |q|
    ensures Without(q, q[k]) == q[..k] + q[k + 1..]
  {
  }

  lemma WithoutMembers(q: seq<int>, x: int)
    requires Distinct(q) && x in q
    ensures Distinct(Without(q, x))
    ensures forall y :: y in Without(q, x) <==> y in q && y != x
    ensures q[0] != x ==> |Without(q, x)| > 0 && Without(q, x)[0] == q[0]
  {
    var k :| 0 <= k < |q| && q[k] == x;
    WithoutAt(q, k);
  }

  // ---- the lists hold exactly the free blocks ----

  ghost predicate IsSentinel(sent: int, x: int) {
    exists i :: 0 <= i < N_LISTS && x == Sentinel(sent, i)
  }

  /** All blocks lie above the sentinels. */
  ghost predicate Above(b: Layout, sent: int) {
    forall a | a in b :: a >= SentinelEnd(sent)
  }

  ghost predicate RingOk(b: Layout, sent: int, q: seq<int>, i: int, off: set<int>) {
    && |q| > 0 && q[0] == Sentinel(sent, i) && Distinct(q)
    && forall x | x in q && x != q[0] :: FreeAt(b, x) && IndexOf(b[x].size) == i && x !in off
  }

  /** A free block that belongs on a list. */
  ghost predicate Listed(b: Layout, off: set<int>, a: int) {
    FreeAt(b, a) && a !in off
  }

  /** Every ring is well formed, its members are free blocks of its size class, and every free
      block outside `off` is on the ring of its class. */
  ghost predicate ListsOk(b: Layout, sent: int, rings: Rings, off: set<int>) {
    && |rings| == N_LISTS
    && (forall i {:trigger RingOk(b, sent, rings[i], i, off)} | 0 <= i < N_LISTS :: RingOk(b, sent, rings[i], i, off))
    && (forall a | Listed(b, off, a) :: a in rings[IndexOf(b[a].size)])
  }

  ghost function Enlist(rings: Rings, i: nat, x: int): Rings
    requires i < |rings|
  {
    rings[i := rings[i] + [x]]
  }

  ghost function Delist(rings: Rings, i: nat, x: int): Rings
    requires i < |rings|
  {
    if x in rings[i] then rings[i := Without(rings[i], x)] else rings
  }

  lemma DelistOk(b: Layout, sent: int, rings: Rings, off: set<int>, off': set<int>, x: int)
    requires ListsOk(b, sent, rings, off) && Above(b, sent)
    requires FreeAt(b, x) && x !in off && off' == off + {x}
    ensures ListsOk(b, sent, Delist(rings, IndexOf(b[x].size), x), off')
  {
    var j := IndexOf(b[x].size);
    assert RingOk(b, sent, rings[j], j, off);
    assert Listed(b, off, x);
    WithoutMembers(rings[j], x);
    var rings' := Delist(rings, j, x);
    forall i | 0 <= i < N_LISTS
      ensures RingOk(b, sent, rings'[i], i, off')
    {
      assert RingOk(b, sent, rings[i], i, off);
    }
    forall a | Listed(b, off', a)
      ensures a in rings'[IndexOf(b[a].size)]
    {
      assert Listed(b, off, a);
    }
  }

  lemma EnlistOk(b: Layout, sent: int, rings: Rings, off: set<int>, off': set<int>, x: int)
    requires ListsOk(b, sent, rings, off) && Above(b, sent)
    requires FreeAt(b, x) && x in off && off' == off - {x}
    ensures ListsOk(b, sent, Enlist(rings, IndexOf(b[x].size), x), off')
  {
    var j := IndexOf(b[x].size);
    assert RingOk(b, sent, rings[j], j, off);
    var rings' := Enlist(rings, j, x);
    forall i | 0 <= i < N_LISTS
      ensures RingOk(b, sent, rings'[i], i, off')
    {
      assert RingOk(b, sent, rings[i], i, off);
    }
    forall a | Listed(b, off', a)
      ensures a in rings'[IndexOf(b[a].size)]
    {
      assert a != x ==> Listed(b, off, a);
    }
  }

  /** The lists stay right when the layout changes but the listed blocks do not. */
  lemma ListsKept(b: Layout, b': Layout, sent: int, rings: Rings, off: set<int>, off': set<int>)
    requires ListsOk(b, sent, rings, off)
    requires forall a {:trigger Listed(b, off, a)} {:trigger Listed(b', off', a)} ::
      Listed(b, off, a) == Listed(b', off', a) && (Listed(b, off, a) ==> b[a].size == b'[a].size)
    ensures ListsOk(b', sent, rings, off')
  {
    forall i | 0 <= i < N_LISTS
      ensures RingOk(b', sent, rings[i], i, off')
    {
      assert RingOk(b, sent, rings[i], i, off);
      forall x | x in rings[i] && x != rings[i][0]
        ensures FreeAt(b', x) && IndexOf(b'[x].size) == i && x !in off'
      {
        assert Listed(b, off, x);
        assert Listed(b', off', x);
      }
    }
    forall a | Listed(b', off', a)
      ensures a in rings[IndexOf(b'[a].size)]
    {
      assert Listed(b, off, a);
    }
  }
}
