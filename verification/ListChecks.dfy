/** detect_cycles and verify_pointers of lab1/myMalloc.c, on memories whose lists may be damaged. */
module ListChecks {
  import opened FreeLists
  import opened HeapModel
  import opened HeapMemory
  import opened Bytes

  /** A finite set of nodes, none of them NULL, that `next` and `prev` do not leave. */
  ghost predicate Closed(m: Memory, nodes: set<int>) {
    && 0 !in nodes
    && forall x | x in nodes :: x + NEXT in m && x + PREV in m && Next(m, x) in nodes && Prev(m, x) in nodes
  }

  ghost predicate HasSentinels(sent: int, nodes: set<int>) {
    forall i {:trigger Sentinel(sent, i)} | 0 <= i < N_LISTS :: Sentinel(sent, i) in nodes
  }

  /** The node k steps after x. */
  ghost function Iter(m: Memory, x: int, k: nat): int
    decreases k
  {
    if k == 0 then x else Iter(m, Next(m, x), k - 1)
  }

  lemma IterIn(m: Memory, nodes: set<int>, x: int, k: nat)
    requires Closed(m, nodes) && x in nodes
    ensures Iter(m, x, k) in nodes
    decreases k
  {
  }

  lemma {:induction false} IterAdd(m: Memory, x: int, j: nat, k: nat)
    ensures Iter(m, x, j + k) == Iter(m, Iter(m, x, j), k)
    decreases j
  {
    if j > 0 {
      IterAdd(m, Next(m, x), j - 1, k);
    }
  }

  lemma IterNext(m: Memory, x: int, k: nat)
    ensures Next(m, Iter(m, x, k)) == Iter(m, x, k + 1)
  {
    IterAdd(m, x, k, 1);
  }

  /** Following `next` from x comes back to x. */
  ghost predicate Returns(m: Memory, x: int) {
    exists k: nat :: k > 0 && Iter(m, x, k) == x
  }

  lemma {:induction false} Laps(m: Memory, x: int, p: nat, n: nat)
    requires Iter(m, x, p) == x
    ensures Iter(m, x, n * p) == x
    decreases n
  {
    if n > 0 {
      Laps(m, x, p, n - 1);
      IterAdd(m, x, (n - 1) * p, p);
      assert (n - 1) * p + p == n * p;
    }
  }

  // ---- some k-step node equals the 2k-step node ----

  lemma {:induction false} DistinctFits(q: seq<int>, s: set<int>)
    requires Distinct(q) && forall k | 0 <= k < |q| :: q[k] in s
    ensures |q| <= |s|
    decreases |q|
  {
    if q != [] {
      DistinctFits(q[1..], s - {q[0]});
    }
  }

  lemma Repeats(m: Memory, nodes: set<int>, x: int) returns (i: nat, j: nat)
    requires Closed(m, nodes) && x in nodes
    ensures i < j && Iter(m, x, i) == Iter(m, x, j)
  {
    var q := seq(|nodes| + 1, k requires 0 <= k => Iter(m, x, k));
    forall k | 0 <= k < |q| ensures q[k] in nodes {
      IterIn(m, nodes, x, k);
    }
    if Distinct(q) {
      DistinctFits(q, nodes);
    }
    i, j :| 0 <= i < j < |q| && q[i] == q[j];
  }

  /** The slow and the fast pointer meet: the k-step node is the 2k-step node for some k. */
  lemma Meets(m: Memory, nodes: set<int>, x: int) returns (k: nat)
    requires Closed(m, nodes) && x in nodes
    ensures k > 0 && Iter(m, x, k) == Iter(m, x, 2 * k)
  {
    var i, j := Repeats(m, nodes, x);
    var p := j - i;
    k := (i + 1) * p;
    assert k >= i + 1;
    var y := Iter(m, x, i);
    IterAdd(m, x, i, p);
    Laps(m, y, p, i + 1);
    IterAdd(m, x, i, k);
    IterAdd(m, x, i, k - i);
    IterAdd(m, x, i + k, k - i);
  }

  /** If x comes back to itself, then slow and fast meet at x only. */
  lemma MeetAtStart(m: Memory, x: int, k: nat)
    requires Returns(m, x) && k > 0 && Iter(m, x, k) == Iter(m, x, 2 * k)
    ensures Iter(m, x, 2 * k) == x
  {
    var p: nat :| p > 0 && Iter(m, x, p) == x;
    var r := k * p;
    assert r >= k;
    Laps(m, x, p, k);
    IterAdd(m, x, k, r - k);
    IterAdd(m, x, 2 * k, r - k);
    IterAdd(m, x, r, k);
    IterAdd(m, x, k, k);
  }

  /** The inner loop of detect_cycles: Floyd's algorithm started at a sentinel, which the fast pointer may jump over.
      It reports no node exactly when the list comes back to its sentinel; a node it reports lies on a cycle. */
  method ScanForCycle(m: Memory, freelist: int, ghost nodes: set<int>) returns (found: int)
    requires Closed(m, nodes) && freelist in nodes
    ensures found == NULL <==> Returns(m, freelist)
    ensures found != NULL ==> Returns(m, found) && exists k: nat :: Iter(m, freelist, k) == found
  {
    ghost var meet := Meets(m, nodes, freelist);
    var slow := m[freelist + NEXT];
    var fast := m[m[freelist + NEXT] + NEXT];
    ghost var k := 1;
    assert Iter(m, freelist, 1) == slow;
    IterNext(m, freelist, 1);
    while fast != freelist
      invariant 1 <= k <= meet
      invariant slow == Iter(m, freelist, k) && fast == Iter(m, freelist, 2 * k)
      invariant slow in nodes && fast in nodes
      decreases meet - k
    {
      if slow == fast {
        if Returns(m, freelist) { MeetAtStart(m, freelist, k); }
        IterAdd(m, freelist, k, k);
        assert Iter(m, slow, k) == slow;
        return slow;
      }
      IterNext(m, freelist, k);
      IterNext(m, freelist, 2 * k);
      IterNext(m, freelist, 2 * k + 1);
      slow := m[slow + NEXT];
      fast := m[m[fast + NEXT] + NEXT];
      k := k + 1;
    }
    return NULL;
  }

  method DetectCycles(m: Memory, sent: int, ghost nodes: set<int>) returns (found: int)
    requires Closed(m, nodes) && HasSentinels(sent, nodes)
    ensures found == NULL <==> forall i {:trigger Sentinel(sent, i)} | 0 <= i < N_LISTS :: Returns(m, Sentinel(sent, i))
    ensures found != NULL ==> Returns(m, found)
  {
    var i := 0;
    while i < N_LISTS
      invariant 0 <= i <= N_LISTS
      invariant forall j {:trigger Sentinel(sent, j)} | 0 <= j < i :: Returns(m, Sentinel(sent, j))
    {
      found := ScanForCycle(m, Sentinel(sent, i), nodes);
      if found != NULL {
        return;
      }
      i := i + 1;
    }
    return NULL;
  }

  // ---- verify_pointers ----

  /** The test of verify_pointers at one node. */
  ghost predicate Mutual(m: Memory, x: int) {
    Prev(m, Next(m, x)) == x && Next(m, Prev(m, x)) == x
  }

  ghost predicate MutualAt(m: Memory, s: int, k: nat) {
    Iter(m, s, k) == s || Mutual(m, Iter(m, s, k))
  }

  /** Every node of the list but the sentinel passes the test. */
  ghost predicate AllMutual(m: Memory, s: int) {
    forall k: nat :: MutualAt(m, s, k)
  }

  lemma IterModulo(m: Memory, s: int, p: nat, k: nat)
    requires p > 0 && Iter(m, s, p) == s
    ensures Iter(m, s, k) == Iter(m, s, k % p)
  {
    Laps(m, s, p, k / p);
    assert k == k / p * p + k % p;
    IterAdd(m, s, k / p * p, k % p);
  }

  method ScanPointers(m: Memory, freelist: int, ghost nodes: set<int>) returns (bad: int)
    requires Closed(m, nodes) && freelist in nodes && Returns(m, freelist)
    ensures bad == NULL <==> AllMutual(m, freelist)
  {
    ghost var p: nat :| p > 0 && Iter(m, freelist, p) == freelist;
    var cur := m[freelist + NEXT];
    ghost var k := 1;
    assert Iter(m, freelist, 1) == cur;
    while cur != freelist
      invariant 1 <= k <= p && cur == Iter(m, freelist, k) && cur in nodes
      invariant forall j: nat | j < k :: MutualAt(m, freelist, j)
      decreases p - k
    {
      IterNext(m, freelist, k);
      assert Next(m, cur) in nodes && Prev(m, cur) in nodes;
      if m[m[cur + NEXT] + PREV] != cur || m[m[cur + PREV] + NEXT] != cur {
        assert !MutualAt(m, freelist, k);
        return cur;
      }
      assert MutualAt(m, freelist, k);
      cur := m[cur + NEXT];
      k := k + 1;
    }
    forall j: nat ensures MutualAt(m, freelist, j) {
      IterModulo(m, freelist, k, j);
      assert MutualAt(m, freelist, j % k);
    }
    return NULL;
  }

  method VerifyPointers(m: Memory, sent: int, ghost nodes: set<int>) returns (bad: int)
    requires Closed(m, nodes) && HasSentinels(sent, nodes)
    requires forall i {:trigger Sentinel(sent, i)} | 0 <= i < N_LISTS :: Returns(m, Sentinel(sent, i))
    ensures bad == NULL <==> forall i {:trigger Sentinel(sent, i)} | 0 <= i < N_LISTS :: AllMutual(m, Sentinel(sent, i))
  {
    var i := 0;
    while i < N_LISTS
      invariant 0 <= i <= N_LISTS
      invariant forall j {:trigger Sentinel(sent, j)} | 0 <= j < i :: AllMutual(m, Sentinel(sent, j))
    {
      bad := ScanPointers(m, Sentinel(sent, i), nodes);
      if bad != NULL {
        return;
      }
      i := i + 1;
    }
    return NULL;
  }

  // ---- what a list that passes both checks looks like ----

  /** A ring in which `next` is right everywhere and `prev` everywhere but at the first block, whose `prev` may
      be any node that points to it; the sentinel of an empty list may have any `prev`. */
  ghost predicate AlmostRing(m: Memory, q: seq<int>) {
    && |q| > 0 && Distinct(q)
    && (forall k {:trigger Next(m, q[k])} | 0 <= k < |q| :: Next(m, q[k]) == q[After(k, |q|)])
    && (|q| > 1 ==>
         && Prev(m, q[0]) == q[|q| - 1] && Next(m, Prev(m, q[1])) == q[1]
         && forall k {:trigger Prev(m, q[k])} | 2 <= k < |q| :: Prev(m, q[k]) == q[k - 1])
  }

  /** From s on, the list is almost a ring. */
  ghost predicate AlmostList(m: Memory, s: int) {
    exists q :: |q| > 0 && q[0] == s && AlmostRing(m, q)
  }

  lemma LeastPeriod(m: Memory, s: int) returns (n: nat)
    requires Returns(m, s)
    ensures n > 0 && Iter(m, s, n) == s && forall k | 0 < k < n :: Iter(m, s, k) != s
  {
    n :| n > 0 && Iter(m, s, n) == s;
    var i := 1;
    while i < n
      invariant 1 <= i <= n && Iter(m, s, n) == s && forall k | 0 < k < i :: Iter(m, s, k) != s
    {
      if Iter(m, s, i) == s {
        n := i;
      } else {
        i := i + 1;
      }
    }
  }

  // The nodes met on the way from s back to s.
  ghost function Lap(m: Memory, s: int, n: nat): (q: seq<int>)
    ensures |q| == n && forall k: nat | k < n :: q[k] == Iter(m, s, k)
  {
    seq(n, k requires 0 <= k => Iter(m, s, k))
  }

  lemma LapDistinct(m: Memory, s: int, n: nat)
    requires n > 0 && Iter(m, s, n) == s && forall k | 0 < k < n :: Iter(m, s, k) != s
    ensures Distinct(Lap(m, s, n))
  {
    forall i: nat, j: nat | i < j < n ensures Iter(m, s, i) != Iter(m, s, j) {
      IterAdd(m, s, i, n - j);
      IterAdd(m, s, j, n - j);
      assert Iter(m, s, i + (n - j)) != s;
    }
  }

  lemma LapNext(m: Memory, s: int, n: nat, k: nat)
    requires k < n && Iter(m, s, n) == s && AllMutual(m, s) && forall j | 0 < j < n :: Iter(m, s, j) != s
    ensures var q := Lap(m, s, n); Next(m, q[k]) == q[After(k, n)] && (k > 0 ==> Mutual(m, q[k]))
  {
    IterNext(m, s, k);
    assert MutualAt(m, s, k);
  }

  lemma PassingIsAlmostRing(m: Memory, s: int) returns (q: seq<int>)
    requires Returns(m, s) && AllMutual(m, s)
    ensures |q| > 0 && q[0] == s && AlmostRing(m, q)
  {
    var n := LeastPeriod(m, s);
    q := Lap(m, s, n);
    LapDistinct(m, s, n);
    forall k {:trigger Next(m, q[k])} | 0 <= k < n
      ensures Next(m, q[k]) == q[After(k, n)] && (k > 0 ==> Mutual(m, q[k]))
    {
      LapNext(m, s, n, k);
    }
    forall k {:trigger Prev(m, q[k])} | 2 <= k < n ensures Prev(m, q[k]) == q[k - 1] {
      assert Next(m, q[k - 1]) == q[k];
    }
    assert n > 1 ==> Next(m, q[n - 1]) == q[0] && Next(m, q[1]) == q[After(1, n)];
  }

  lemma NextInRing(m: Memory, q: seq<int>, i: int)
    requires AlmostRing(m, q) && 0 <= i < |q|
    ensures Next(m, q[i]) == q[After(i, |q|)]
  {
  }

  // The place of the node k steps from the first one, on a ring of n nodes.
  function PlaceOn(k: nat, n: nat): (i: nat)
    requires n > 0
    ensures i < n
  {
    k % n
  }

  lemma {:induction false} AlmostRingIter(m: Memory, q: seq<int>, k: nat)
    requires AlmostRing(m, q)
    ensures Iter(m, q[0], k) == q[PlaceOn(k, |q|)]
  {
    hide PlaceOn;
    if k > 0 {
      AlmostRingIter(m, q, k - 1);
      IterNext(m, q[0], k - 1);
      NextPlace(k, |q|);
      NextInRing(m, q, PlaceOn(k - 1, |q|));
    } else {
      FirstPlace(|q|);
    }
  }

  lemma FirstPlace(n: nat)
    requires n > 0
    ensures PlaceOn(0, n) == PlaceOn(n, n) == 0
  {
    ModuloUnique(n, n, 1, 0);
  }

  lemma NextPlace(k: nat, n: nat)
    requires k > 0 && n > 0
    ensures PlaceOn(k, n) == After(PlaceOn(k - 1, n), n)
  {
    var i, d := (k - 1) % n, (k - 1) / n;
    assert k - 1 == d * n + i;
    if i + 1 == n {
      assert k == (d + 1) * n + 0;
    } else {
      assert k == d * n + (i + 1);
    }
    ModuloUnique(k, n, if i + 1 == n then d + 1 else d, After(i, n));
  }

  lemma ModuloUnique(k: nat, n: nat, d: nat, r: nat)
    requires n > 0 && k == d * n + r && r < n
    ensures k % n == r
  {
    QuotientUnique(k, n, d, r);
  }

  lemma AlmostRingPasses(m: Memory, q: seq<int>)
    requires AlmostRing(m, q)
    ensures Returns(m, q[0]) && AllMutual(m, q[0])
  {
    var s, n := q[0], |q|;
    hide PlaceOn;
    AlmostRingIter(m, q, n);
    FirstPlace(n);
    assert Iter(m, s, n) == s;
    forall k: nat ensures MutualAt(m, s, k) {
      AlmostRingIter(m, q, k);
      var i := PlaceOn(k, n);
      if i > 0 {
        assert Next(m, q[i]) == q[After(i, n)];
        assert i + 1 < n ==> Prev(m, q[i + 1]) == q[i];
        assert i > 1 ==> Prev(m, q[i]) == q[i - 1] && Next(m, q[i - 1]) == q[After(i - 1, n)];
      }
    }
  }

  /** verify_freelist accepts a memory exactly when each of the 59 lists is almost a ring. */
  method VerifyFreelist(m: Memory, sent: int, ghost nodes: set<int>) returns (ok: bool)
    requires Closed(m, nodes) && HasSentinels(sent, nodes)
    ensures ok <==> forall i {:trigger Sentinel(sent, i)} | 0 <= i < N_LISTS :: AlmostList(m, Sentinel(sent, i))
  {
    var cycle := DetectCycles(m, sent, nodes);
    ok := cycle == NULL;
    if ok {
      var invalid := VerifyPointers(m, sent, nodes);
      ok := invalid == NULL;
    }
    forall i {:trigger Sentinel(sent, i)} | 0 <= i < N_LISTS
      ensures (Returns(m, Sentinel(sent, i)) && AllMutual(m, Sentinel(sent, i))) <==> AlmostList(m, Sentinel(sent, i))
    {
      PassingIff(m, Sentinel(sent, i));
    }
  }

  lemma PassingIff(m: Memory, s: int)
    ensures (Returns(m, s) && AllMutual(m, s)) <==> AlmostList(m, s)
  {
    if Returns(m, s) && AllMutual(m, s) {
      var q := PassingIsAlmostRing(m, s);
    }
    if q :| |q| > 0 && q[0] == s && AlmostRing(m, q) {
      AlmostRingPasses(m, q);
    }
  }

  /** The check accepts every list of a heap that satisfies the heap invariant. */
  lemma ValidHeapPasses(h: Heap, m: Memory, i: int)
    requires Inv(h) && Threaded(m, h.rings) && 0 <= i < N_LISTS
    ensures AlmostList(m, Sentinel(h.sent, i))
  {
    var q := h.rings[i];
    assert RingOk(h.b, h.sent, q, i, {}) && RingPtrs(m, q);
    RingIsAlmost(m, q);
  }

  /** What the check misses: a distinct sequence is a ring exactly when it is almost one and, moreover, the
      `prev` of its first block, or of the sentinel of an empty list, is the sentinel. */
  lemma RingIsAlmost(m: Memory, q: seq<int>)
    requires |q| > 0 && Distinct(q)
    ensures RingPtrs(m, q) <==> AlmostRing(m, q) && Prev(m, q[if |q| > 1 then 1 else 0]) == q[0]
  {
    if RingPtrs(m, q) {
      assert forall k {:trigger Prev(m, q[k])} | 0 <= k < |q| :: Prev(m, q[k]) == q[Before(k, |q|)];
      if |q| > 1 {
        assert Prev(m, q[1]) == q[0] && Next(m, q[0]) == q[1];
      }
    }
    if AlmostRing(m, q) && Prev(m, q[if |q| > 1 then 1 else 0]) == q[0] {
      forall k {:trigger Prev(m, q[k])} | 0 <= k < |q| ensures Prev(m, q[k]) == q[Before(k, |q|)] {
      }
    }
  }

  // ---- a damaged heap that is accepted ----

  /** The nodes of all lists. */
  ghost function NodesOf(rings: Rings): set<int> {
    set i, x | 0 <= i < |rings| && x in rings[i] :: x
  }

  lemma RingClosed(h: Heap, m: Memory, i: int, k: int)
    requires Inv(h) && Threaded(m, h.rings) && Mapped(m, h) && 0 <= i < N_LISTS && 0 <= k < |h.rings[i]|
    ensures var x := h.rings[i][k];
      x > 0 && x + NEXT in m && x + PREV in m && Next(m, x) in h.rings[i] && Prev(m, x) in h.rings[i]
  {
    var q := h.rings[i];
    RingNode(h, {}, i, q[k]);
    NodeMapped(h, {}, m, q[k]);
    assert RingPtrs(m, q);
    assert Next(m, q[k]) == q[After(k, |q|)] && Prev(m, q[k]) == q[Before(k, |q|)];
  }

  lemma NodesHold(rings: Rings, i: int, x: int)
    requires 0 <= i < |rings| && x in rings[i]
    ensures x in NodesOf(rings)
  {
  }

  lemma NodeClosed(h: Heap, m: Memory, x: int)
    requires Inv(h) && Threaded(m, h.rings) && Mapped(m, h) && x in NodesOf(h.rings)
    ensures x > 0 && x + NEXT in m && x + PREV in m
    ensures Next(m, x) in NodesOf(h.rings) && Prev(m, x) in NodesOf(h.rings)
  {
    hide Base, Threaded, Mapped;
    RingHead(h, 0);
    var i :| 0 <= i < |h.rings| && x in h.rings[i];
    var k :| 0 <= k < |h.rings[i]| && h.rings[i][k] == x;
    RingClosed(h, m, i, k);
    NodesHold(h.rings, i, Next(m, x));
    NodesHold(h.rings, i, Prev(m, x));
  }

  /** The check can be called on every heap that satisfies the invariant. */
  lemma ValidClosed(h: Heap, m: Memory)
    requires Inv(h) && Threaded(m, h.rings) && Mapped(m, h)
    ensures Closed(m, NodesOf(h.rings)) && HasSentinels(h.sent, NodesOf(h.rings))
  {
    hide Inv, Threaded, Mapped, NodesOf;
    var nodes := NodesOf(h.rings);
    forall x | x in nodes
      ensures x > 0 && x + NEXT in m && x + PREV in m && Next(m, x) in nodes && Prev(m, x) in nodes
    {
      NodeClosed(h, m, x);
    }
    forall i {:trigger Sentinel(h.sent, i)} | 0 <= i < N_LISTS ensures Sentinel(h.sent, i) in nodes {
      RingHead(h, i);
      NodesHold(h.rings, i, Sentinel(h.sent, i));
    }
  }

  lemma ClosedStore(m: Memory, nodes: set<int>, w: int, y: int)
    requires Closed(m, nodes) && y in nodes
    ensures Closed(m[w := y], nodes)
  {
    var m' := m[w := y];
    forall x | x in nodes
      ensures x + NEXT in m' && x + PREV in m' && Next(m', x) in nodes && Prev(m', x) in nodes
    {
      assert x + NEXT in m && x + PREV in m && Next(m, x) in nodes && Prev(m, x) in nodes;
      assert Next(m', x) == (if x + NEXT == w then y else Next(m, x));
      assert Prev(m', x) == (if x + PREV == w then y else Prev(m, x));
    }
  }

  // Where the unchecked `prev` of a list is: in its first block, or in the sentinel of an empty list.
  ghost function Unchecked(q: seq<int>): int
    requires |q| > 0
  {
    q[if |q| > 1 then 1 else 0] + PREV
  }

  /** The damaged list is still almost a ring, and no longer a ring. */
  lemma DamagedRing(m: Memory, q: seq<int>, y: int)
    requires |q| > 0 && RingPtrs(m, q) && Distinct(q) && Spaced(q) && y != q[0]
    requires var m' := m[Unchecked(q) := y]; |q| > 1 ==> Next(m', y) == q[1]
    ensures var m' := m[Unchecked(q) := y]; AlmostRing(m', q) && !RingPtrs(m', q)
  {
    var x, m' := q[if |q| > 1 then 1 else 0], m[Unchecked(q) := y];
    assert Prev(m', x) == y;
    forall k | 0 <= k < |q|
      ensures Next(m', q[k]) == q[After(k, |q|)] && (q[k] != x ==> Prev(m', q[k]) == q[Before(k, |q|)])
    {
      assert Next(m, q[k]) == q[After(k, |q|)] && Prev(m, q[k]) == q[Before(k, |q|)];
      assert q[k] != x ==> Gap(q[k], x);
    }
    RingIsAlmost(m', q);
  }

  /** In every heap and for every list, the unchecked `prev` may be a stray node y instead of the sentinel: any address
      for an empty list, and otherwise any node that points to the first block. */
  lemma StrayPrevAccepted(h: Heap, m: Memory, i: int, y: int)
    requires Inv(h) && Threaded(m, h.rings) && 0 <= i < N_LISTS && |h.rings[i]| > 0 && y != h.rings[i][0]
    requires |h.rings[i]| > 1 ==> Next(m[Unchecked(h.rings[i]) := y], y) == h.rings[i][1]
    ensures var m' := m[Unchecked(h.rings[i]) := y];
      && !RingPtrs(m', h.rings[i])
      && forall j {:trigger Sentinel(h.sent, j)} | 0 <= j < N_LISTS :: AlmostList(m', Sentinel(h.sent, j))
  {
    var q := h.rings[i];
    var x, m' := q[if |q| > 1 then 1 else 0], m[Unchecked(q) := y];
    RingNode(h, {}, i, x);
    RingSpaced(h, {}, i);
    assert RingPtrs(m, q);
    DamagedRing(m, q, y);
    OthersThreaded(h, {}, m, m', i, {x});
    hide Base;
    forall j {:trigger Sentinel(h.sent, j)} | 0 <= j < N_LISTS ensures AlmostList(m', Sentinel(h.sent, j)) {
      RingHead(h, j);
      if j != i {
        assert RingPtrs(m', h.rings[j]);
        RingIsAlmost(m', h.rings[j]);
      }
    }
  }

  lemma RingHead(h: Heap, i: int)
    requires Inv(h) && 0 <= i < N_LISTS
    ensures |h.rings| == N_LISTS
    ensures |h.rings[i]| > 0 && h.rings[i][0] == Sentinel(h.sent, i) && Distinct(h.rings[i])
  {
    assert RingOk(h.b, h.sent, h.rings[i], i, {});
  }

  /** All 59 lists as they are, but for the sentinel of an empty one, whose `prev` is the sentinel of another list:
      verify_freelist accepts. */
  method DamagedHeapAccepted(ghost h: Heap, m: Memory, sent: int, i: int, j: int) returns (ok: bool)
    requires Inv(h) && Threaded(m, h.rings) && Mapped(m, h) && sent == h.sent
    requires 0 <= i < N_LISTS && 0 <= j < N_LISTS && i != j && |h.rings[i]| == 1
    ensures ok && !RingPtrs(m[Sentinel(sent, i) + PREV := Sentinel(sent, j)], h.rings[i])
  {
    var m' := m[Sentinel(sent, i) + PREV := Sentinel(sent, j)];
    hide Inv, Threaded, Mapped, NodesOf, AlmostList;
    RingHead(h, i);
    StrayPrevAccepted(h, m, i, Sentinel(sent, j));
    ValidClosed(h, m);
    ClosedStore(m, NodesOf(h.rings), Sentinel(sent, i) + PREV, Sentinel(sent, j));
    ok := VerifyFreelist(m', sent, NodesOf(h.rings));
  }
}
