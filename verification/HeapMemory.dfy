/** The words of memory in which lab1/myMalloc.c keeps its headers and list pointers.
    A memory maps the address of each mapped, 8-aligned word to its value. */
module HeapMemory {
  import opened HeapLayout
  import opened LayoutTheorems
  import opened FreeLists
  import opened HeapModel
  import opened Bytes

  type Memory = map<int, int>

  // Offsets of the fields of `struct header`; size_state is at offset 0.
  const LEFT := 8
  const NEXT := 16
  const PREV := 24

  const NULL := 0

  function Word(m: Memory, a: int): int {
    if a in m then m[a] else 0
  }

  function Code(s: State): int {
    match s
    case Free => 0
    case Used => 1
    case LeftFence => 2
    case RightFence => 2
  }

  // ---- headers ----

  /** The header at a records the block: size and state in one word, left size in the next. */
  ghost predicate TagAt(m: Memory, b: Layout, a: int)
    requires a in b
  {
    Word(m, a) == b[a].size + Code(b[a].state) && Word(m, a + LEFT) == b[a].left
  }

  ghost predicate Tags(m: Memory, b: Layout) {
    forall a {:trigger TagAt(m, b, a)} | a in b :: TagAt(m, b, a)
  }

  // ---- list pointers ----

  ghost function Next(m: Memory, x: int): int {
    Word(m, x + NEXT)
  }

  ghost function Prev(m: Memory, x: int): int {
    Word(m, x + PREV)
  }

  ghost function After(k: int, n: int): int {
    if k + 1 == n then 0 else k + 1
  }

  ghost function Before(k: int, n: int): int {
    if k == 0 then n - 1 else k - 1
  }

  /** Following `next` walks the ring forwards, `prev` backwards. */
  ghost predicate RingPtrs(m: Memory, q: seq<int>) {
    && (forall k {:trigger Next(m, q[k])} | 0 <= k < |q| :: Next(m, q[k]) == q[After(k, |q|)])
    && (forall k {:trigger Prev(m, q[k])} | 0 <= k < |q| :: Prev(m, q[k]) == q[Before(k, |q|)])
  }

  ghost predicate Threaded(m: Memory, rings: Rings) {
    forall i {:trigger RingPtrs(m, rings[i])} | 0 <= i < |rings| :: RingPtrs(m, rings[i])
  }

  ghost predicate Gap(x: int, y: int) {
    x + 32 <= y || y + 32 <= x
  }

  ghost predicate Spaced(q: seq<int>) {
    forall k, l {:trigger Gap(q[k], q[l])} | 0 <= k < |q| && 0 <= l < |q| && q[k] != q[l] :: Gap(q[k], q[l])
  }

  lemma RingKept(m: Memory, m': Memory, q: seq<int>)
    requires RingPtrs(m, q)
    requires forall x | x in q :: Word(m', x + NEXT) == Word(m, x + NEXT) && Word(m', x + PREV) == Word(m, x + PREV)
    ensures RingPtrs(m', q)
  {
    forall k {:trigger Next(m', q[k])} | 0 <= k < |q| ensures Next(m', q[k]) == q[After(k, |q|)] {
      assert q[k] in q && Next(m, q[k]) == q[After(k, |q|)];
    }
    forall k {:trigger Prev(m', q[k])} | 0 <= k < |q| ensures Prev(m', q[k]) == q[Before(k, |q|)] {
      assert q[k] in q && Prev(m, q[k]) == q[Before(k, |q|)];
    }
  }

  /** The two stores of remove_from_freelist. */
  ghost function Unlinked(m: Memory, p: int, n: int): Memory {
    m[p + NEXT := n][n + PREV := p]
  }

  lemma UnlinkNext(m: Memory, q: seq<int>, k: int, j: int)
    requires RingPtrs(m, q) && Distinct(q) && Spaced(q) && 1 <= k < |q|
    requires 0 <= j < |q| - 1
    ensures var q', n := q[..k] + q[k + 1..], q[After(k, |q|)];
      Next(Unlinked(m, q[k - 1], n), q'[j]) == q'[After(j, |q'|)]
  {
    var p, n, i := q[k - 1], q[After(k, |q|)], if j < k then j else j + 1;
    assert Next(m, q[i]) == q[After(i, |q|)];
    assert q[i] != p ==> Gap(q[i], p);
    assert p != n ==> Gap(p, n);
    assert q[i] != n ==> Gap(q[i], n);
  }

  lemma UnlinkPrev(m: Memory, q: seq<int>, k: int, j: int)
    requires RingPtrs(m, q) && Distinct(q) && Spaced(q) && 1 <= k < |q|
    requires 0 <= j < |q| - 1
    ensures var q', n := q[..k] + q[k + 1..], q[After(k, |q|)];
      Prev(Unlinked(m, q[k - 1], n), q'[j]) == q'[Before(j, |q'|)]
  {
    var p, n, i := q[k - 1], q[After(k, |q|)], if j < k then j else j + 1;
    assert Prev(m, q[i]) == q[Before(i, |q|)];
    assert q[i] != p ==> Gap(q[i], p);
    assert q[i] != n ==> Gap(q[i], n);
  }

  lemma UnlinkRing(m: Memory, q: seq<int>, k: int)
    requires RingPtrs(m, q) && Distinct(q) && Spaced(q) && 1 <= k < |q|
    ensures RingPtrs(Unlinked(m, q[k - 1], q[After(k, |q|)]), Without(q, q[k]))
  {
    WithoutAt(q, k);
    var m', q' := Unlinked(m, q[k - 1], q[After(k, |q|)]), q[..k] + q[k + 1..];
    forall j {:trigger Next(m', q'[j])} | 0 <= j < |q'| ensures Next(m', q'[j]) == q'[After(j, |q'|)] {
      UnlinkNext(m, q, k, j);
    }
    forall j {:trigger Prev(m', q'[j])} | 0 <= j < |q'| ensures Prev(m', q'[j]) == q'[Before(j, |q'|)] {
      UnlinkPrev(m, q, k, j);
    }
  }

  /** The four stores of insert_into_freelist, in order: x goes between the last member p and the sentinel s. */
  ghost function Linked4(m: Memory, s: int, p: int, x: int): Memory {
    m[x + NEXT := s][x + PREV := p][p + NEXT := x][s + PREV := x]
  }

  lemma LinkRing(m: Memory, q: seq<int>, x: int)
    requires RingPtrs(m, q) && Distinct(q) && |q| > 0 && x !in q && Spaced(q + [x])
    ensures RingPtrs(Linked4(m, q[0], q[|q| - 1], x), q + [x])
  {
    var s, p, q' := q[0], q[|q| - 1], q + [x];
    var m' := Linked4(m, s, p, x);
    assert q'[0] == s && q'[|q| - 1] == p && q'[|q|] == x;
    assert Gap(q'[0], q'[|q|]) && Gap(q'[|q| - 1], q'[|q|]);
    assert p != s ==> Gap(q'[0], q'[|q| - 1]);
    forall j {:trigger Next(m', q'[j])} | 0 <= j < |q'| ensures Next(m', q'[j]) == q'[After(j, |q'|)] {
      assert j < |q| ==> Next(m, q[j]) == q[After(j, |q|)] && Gap(q'[j], q'[|q|]);
      assert q'[j] != p ==> Gap(q'[j], q'[|q| - 1]);
      assert q'[j] != s ==> Gap(q'[j], q'[0]);
    }
    forall j {:trigger Prev(m', q'[j])} | 0 <= j < |q'| ensures Prev(m', q'[j]) == q'[Before(j, |q'|)] {
      assert j < |q| ==> Prev(m, q[j]) == q[Before(j, |q|)] && Gap(q'[j], q'[|q|]);
      assert q'[j] != p ==> Gap(q'[j], q'[|q| - 1]);
      assert q'[j] != s ==> Gap(q'[j], q'[0]);
    }
  }

  // ---- which words are list pointers ----

  ghost predicate Node(b: Layout, sent: int, x: int) {
    IsSentinel(sent, x) || FreeAt(b, x)
  }

  ghost predicate LinkOf(b: Layout, sent: int, x: int, w: int) {
    Node(b, sent, x) && (w == x + NEXT || w == x + PREV)
  }

  ghost predicate LinkWord(b: Layout, sent: int, w: int) {
    exists x :: LinkOf(b, sent, x, w)
  }

  /** The memories differ in list pointers only. */
  ghost predicate SameButLinks(b: Layout, sent: int, m: Memory, m': Memory) {
    && m.Keys == m'.Keys
    && forall w {:trigger Word(m', w)} | !LinkWord(b, sent, w) :: Word(m', w) == Word(m, w)
  }

  lemma NodeGap(h: Heap, off: set<int>, x: int, y: int)
    requires Base(h, off) && Node(h.b, h.sent, x) && Node(h.b, h.sent, y) && x != y
    ensures Gap(x, y)
  {
    if FreeAt(h.b, x) && FreeAt(h.b, y) {
      assert ApartAt(h.b, x, y) && ApartAt(h.b, y, x);
    }
  }

  /** A header word is no list pointer, and neither is a word of a live block or deep in a free one. */
  lemma NotLink(h: Heap, off: set<int>, a: int, w: int)
    requires Base(h, off) && a in h.b && a <= w < a + h.b[a].size
    requires FreeAt(h.b, a) ==> w < a + NEXT || w >= a + 32
    ensures !LinkWord(h.b, h.sent, w)
  {
    forall x | Node(h.b, h.sent, x) ensures !LinkOf(h.b, h.sent, x, w) {
      if FreeAt(h.b, x) {
        assert ApartAt(h.b, x, a) && ApartAt(h.b, a, x);
      }
    }
  }

  lemma RingNode(h: Heap, off: set<int>, i: int, x: int)
    requires Base(h, off) && 0 <= i < N_LISTS && x in h.rings[i]
    ensures Node(h.b, h.sent, x)
    ensures x != Sentinel(h.sent, i) ==> FreeAt(h.b, x) && IndexOf(h.b[x].size) == i && x !in off
    ensures |h.rings[i]| > 0 && h.rings[i][0] == Sentinel(h.sent, i) && Distinct(h.rings[i])
  {
    assert RingOk(h.b, h.sent, h.rings[i], i, off);
    assert x == Sentinel(h.sent, i) ==> IsSentinel(h.sent, x);
  }

  lemma RingSpaced(h: Heap, off: set<int>, i: int)
    requires Base(h, off) && 0 <= i < N_LISTS
    ensures Spaced(h.rings[i])
  {
    var q := h.rings[i];
    forall k, l {:trigger Gap(q[k], q[l])} | 0 <= k < |q| && 0 <= l < |q| && q[k] != q[l] ensures Gap(q[k], q[l]) {
      RingNode(h, off, i, q[k]);
      RingNode(h, off, i, q[l]);
      NodeGap(h, off, q[k], q[l]);
    }
  }

  lemma RingsDisjoint(h: Heap, off: set<int>, i: int, j: int, x: int)
    requires Base(h, off) && 0 <= i < N_LISTS && 0 <= j < N_LISTS && x in h.rings[i] && x in h.rings[j]
    ensures i == j
  {
    RingNode(h, off, i, x);
    RingNode(h, off, j, x);
  }

  /** A ring none of whose nodes is written keeps its pointers. */
  lemma OtherRing(h: Heap, off: set<int>, m: Memory, m': Memory, j: int, touched: set<int>)
    requires Base(h, off) && 0 <= j < N_LISTS && RingPtrs(m, h.rings[j])
    requires forall x | x in touched :: Node(h.b, h.sent, x) && x !in h.rings[j]
    requires forall w | Word(m', w) != Word(m, w) :: exists x :: x in touched && (w == x + NEXT || w == x + PREV)
    ensures RingPtrs(m', h.rings[j])
  {
    forall y | y in h.rings[j]
      ensures Word(m', y + NEXT) == Word(m, y + NEXT) && Word(m', y + PREV) == Word(m, y + PREV)
    {
      RingNode(h, off, j, y);
      forall x | x in touched ensures Gap(x, y) {
        NodeGap(h, off, x, y);
      }
    }
    RingKept(m, m', h.rings[j]);
  }

  lemma TagsKept(h: Heap, off: set<int>, m: Memory, m': Memory)
    requires Base(h, off) && Tags(m, h.b) && SameButLinks(h.b, h.sent, m, m')
    ensures Tags(m', h.b)
  {
    forall a {:trigger TagAt(m', h.b, a)} | a in h.b ensures TagAt(m', h.b, a) {
      assert TagAt(m, h.b, a);
      NotLink(h, off, a, a);
      NotLink(h, off, a, a + LEFT);
    }
  }

  /** Writing words that are no list pointers leaves the lists alone. */
  lemma ThreadedKept(h: Heap, off: set<int>, m: Memory, m': Memory)
    requires Base(h, off) && Threaded(m, h.rings)
    requires forall w | LinkWord(h.b, h.sent, w) :: Word(m', w) == Word(m, w)
    ensures Threaded(m', h.rings)
  {
    forall j | 0 <= j < N_LISTS ensures RingPtrs(m', h.rings[j]) {
      assert RingPtrs(m, h.rings[j]);
      forall x | x in h.rings[j]
        ensures Word(m', x + NEXT) == Word(m, x + NEXT) && Word(m', x + PREV) == Word(m, x + PREV)
      {
        RingNode(h, off, j, x);
        assert LinkOf(h.b, h.sent, x, x + NEXT) && LinkOf(h.b, h.sent, x, x + PREV);
        assert LinkWord(h.b, h.sent, x + NEXT) && LinkWord(h.b, h.sent, x + PREV);
      }
      RingKept(m, m', h.rings[j]);
    }
  }

  // ---- which words are mapped ----

  ghost predicate IsWord(w: int) {
    w % 8 == 0
  }

  /** Exactly the words of the sentinels and of the chunks obtained from sbrk may be touched. */
  ghost predicate Mapped(m: Memory, h: Heap) {
    forall w :: w in m <==>
      IsWord(w) && (h.sent <= w < SentinelEnd(h.sent) || GrantedByte(h.granted, h.arena, w))
  }

  lemma BlockMapped(h: Heap, off: set<int>, m: Memory, a: int, w: int)
    requires Base(h, off) && Mapped(m, h) && a in h.b && a <= w < a + h.b[a].size && IsWord(w)
    ensures w in m
  {
    assert InBlock(h.b, a, w);
    assert Covered(h.b, w);
  }

  lemma HeaderMapped(h: Heap, off: set<int>, m: Memory, a: int)
    requires Base(h, off) && Mapped(m, h) && a in h.b
    ensures IsWord(a) && a in m && a + LEFT in m
    ensures !h.b[a].Fence() ==> a + NEXT in m && a + PREV in m
  {
    assert AlignedAt(h.b, a);
    BlockMapped(h, off, m, a, a);
    BlockMapped(h, off, m, a, a + LEFT);
    if !h.b[a].Fence() {
      BlockMapped(h, off, m, a, a + NEXT);
      BlockMapped(h, off, m, a, a + PREV);
    }
  }

  lemma NodeMapped(h: Heap, off: set<int>, m: Memory, x: int)
    requires Base(h, off) && Mapped(m, h) && Node(h.b, h.sent, x)
    ensures x + NEXT in m && x + PREV in m
  {
    if FreeAt(h.b, x) {
      HeaderMapped(h, off, m, x);
    } else {
      var i :| 0 <= i < N_LISTS && x == Sentinel(h.sent, i);
      assert IsWord(x + NEXT) && IsWord(x + PREV);
    }
  }

  // ---- the two list operations, in memory ----

  lemma WritesLinks(h: Heap, m: Memory, m': Memory, touched: set<int>)
    requires m.Keys == m'.Keys && forall x | x in touched :: Node(h.b, h.sent, x)
    requires forall w | Word(m', w) != Word(m, w) :: exists x :: x in touched && (w == x + NEXT || w == x + PREV)
    ensures SameButLinks(h.b, h.sent, m, m')
  {
    forall w {:trigger Word(m', w)} | !LinkWord(h.b, h.sent, w) ensures Word(m', w) == Word(m, w) {
      forall x | x in touched ensures w != x + NEXT && w != x + PREV {
        assert !LinkOf(h.b, h.sent, x, w);
      }
    }
  }

  /** Where a listed block stands on its ring. */
  lemma Neighbours(h: Heap, off: set<int>, m: Memory, x: int) returns (i: nat, k: nat)
    requires Base(h, off) && Threaded(m, h.rings) && FreeAt(h.b, x) && x !in off
    ensures i == IndexOf(h.b[x].size) && 1 <= k < |h.rings[i]| && h.rings[i][k] == x
    ensures Prev(m, x) == h.rings[i][k - 1] && Next(m, x) == h.rings[i][After(k, |h.rings[i]|)]
    ensures Prev(m, x) in h.rings[i] && Next(m, x) in h.rings[i]
    ensures Prev(m, x) != x && Next(m, x) != x
    ensures Node(h.b, h.sent, Prev(m, x)) && Node(h.b, h.sent, Next(m, x))
  {
    i := IndexOf(h.b[x].size);
    var q := h.rings[i];
    assert Listed(h.b, off, x);
    k :| 0 <= k < |q| && q[k] == x;
    RingNode(h, off, i, x);
    assert RingPtrs(m, q);
    assert Next(m, q[k]) == q[After(k, |q|)] && Prev(m, q[k]) == q[Before(k, |q|)];
    RingNode(h, off, i, q[k - 1]);
    RingNode(h, off, i, q[After(k, |q|)]);
  }

  lemma UnlinkThreaded(h: Heap, off: set<int>, m: Memory, x: int)
    requires Base(h, off) && Threaded(m, h.rings) && Mapped(m, h) && FreeAt(h.b, x) && x !in off
    ensures var p, n := Prev(m, x), Next(m, x);
      && p + NEXT in m && n + PREV in m && x + NEXT in m && x + PREV in m && Gap(p, x) && Gap(n, x)
      && Threaded(Unlinked(m, p, n), Delist(h.rings, IndexOf(h.b[x].size), x))
      && SameButLinks(h.b, h.sent, m, Unlinked(m, p, n))
  {
    var i, k := Neighbours(h, off, m, x);
    var p, n := Prev(m, x), Next(m, x);
    var m', rings' := Unlinked(m, p, n), Delist(h.rings, i, x);
    NodeMapped(h, off, m, x);
    NodeMapped(h, off, m, p);
    NodeMapped(h, off, m, n);
    NodeGap(h, off, p, x);
    NodeGap(h, off, n, x);
    RingSpaced(h, off, i);
    RingNode(h, off, i, x);
    assert RingPtrs(m, h.rings[i]);
    UnlinkRing(m, h.rings[i], k);
    OthersThreaded(h, off, m, m', i, {p, n});
    forall j {:trigger RingPtrs(m', rings'[j])} | 0 <= j < N_LISTS ensures RingPtrs(m', rings'[j]) {
      assert j != i ==> rings'[j] == h.rings[j];
    }
    WritesLinks(h, m, m', {p, n});
  }

  /** Writing to nodes that are on ring i or on none leaves the other rings alone. */
  lemma OthersThreaded(h: Heap, off: set<int>, m: Memory, m': Memory, i: int, touched: set<int>)
    requires Base(h, off) && Threaded(m, h.rings) && 0 <= i < N_LISTS
    requires forall x | x in touched :: Node(h.b, h.sent, x) && (x in h.rings[i] || (FreeAt(h.b, x) && x in off))
    requires forall w | Word(m', w) != Word(m, w) :: exists x :: x in touched && (w == x + NEXT || w == x + PREV)
    ensures forall j {:trigger RingPtrs(m', h.rings[j])} | 0 <= j < N_LISTS && j != i :: RingPtrs(m', h.rings[j])
  {
    forall j {:trigger RingPtrs(m', h.rings[j])} | 0 <= j < N_LISTS && j != i ensures RingPtrs(m', h.rings[j]) {
      forall x | x in touched ensures x !in h.rings[j] {
        if x in h.rings[j] {
          RingNode(h, off, j, x);
          assert x in h.rings[i];
          RingsDisjoint(h, off, i, j, x);
        }
      }
      assert RingPtrs(m, h.rings[j]);
      OtherRing(h, off, m, m', j, touched);
    }
  }

  lemma LongerSpaced(h: Heap, off: set<int>, i: int, x: int)
    requires Base(h, off) && 0 <= i < N_LISTS && FreeAt(h.b, x) && x in off
    ensures Spaced(h.rings[i] + [x]) && x !in h.rings[i]
    ensures forall y | y in h.rings[i] :: Gap(x, y)
  {
    var q := h.rings[i];
    forall y | y in q ensures x != y && Gap(x, y) {
      RingNode(h, off, i, y);
      NodeGap(h, off, x, y);
    }
    RingSpaced(h, off, i);
    var q' := q + [x];
    forall k, l {:trigger Gap(q'[k], q'[l])} | 0 <= k < |q'| && 0 <= l < |q'| && q'[k] != q'[l]
      ensures Gap(q'[k], q'[l])
    {
      if k < |q| && l < |q| {
        assert Gap(q[k], q[l]);
      } else {
        assert q'[if k < |q| then k else l] in q;
      }
    }
  }

  /** The last node of list i, and that its `next` word is a mapped list pointer. */
  lemma TailNode(h: Heap, off: set<int>, m: Memory, i: int)
    requires Base(h, off) && Threaded(m, h.rings) && Mapped(m, h) && 0 <= i < N_LISTS
    ensures var s := Sentinel(h.sent, i);
      var p := Prev(m, s);
      && s + PREV in m && p + NEXT in m && s + NEXT in m
      && LinkWord(h.b, h.sent, s + PREV) && LinkWord(h.b, h.sent, p + NEXT)
      && (IsSentinel(h.sent, p) || (FreeAt(h.b, p) && p !in off))
  {
    var q := h.rings[i];
    assert RingOk(h.b, h.sent, q, i, off) && RingPtrs(m, q);
    assert Prev(m, q[0]) == q[Before(0, |q|)];
    RingNode(h, off, i, q[0]);
    RingNode(h, off, i, q[|q| - 1]);
    NodeMapped(h, off, m, q[0]);
    NodeMapped(h, off, m, q[|q| - 1]);
    assert LinkOf(h.b, h.sent, q[0], q[0] + PREV) && LinkOf(h.b, h.sent, q[|q| - 1], q[|q| - 1] + NEXT);
  }

  lemma LinkThreaded(h: Heap, off: set<int>, m: Memory, x: int)
    requires Base(h, off) && Threaded(m, h.rings) && Mapped(m, h) && FreeAt(h.b, x) && x in off
    ensures var i := IndexOf(h.b[x].size);
      var s := Sentinel(h.sent, i);
      var p := Prev(m, s);
      && s + NEXT in m && s + PREV in m && x + NEXT in m && x + PREV in m && p + NEXT in m && Gap(s, x) && Gap(p, x)
      && Threaded(Linked4(m, s, p, x), Enlist(h.rings, i, x))
      && SameButLinks(h.b, h.sent, m, Linked4(m, s, p, x))
  {
    hide Core, RingPtrs, Accounted, OsOk, IndexOf;
    var i := IndexOf(h.b[x].size);
    var s, p := LinkEnds(h, off, m, x);
    var m' := Linked4(m, s, p, x);
    LinkRing(m, h.rings[i], x);
    OthersThreaded(h, off, m, m', i, {p, s, x});
    WritesLinks(h, m, m', {p, s, x});
  }

  // The first and the last node of the list that x belongs on.
  lemma LinkEnds(h: Heap, off: set<int>, m: Memory, x: int) returns (s: int, p: int)
    requires Base(h, off) && Threaded(m, h.rings) && Mapped(m, h) && FreeAt(h.b, x) && x in off
    ensures var i := IndexOf(h.b[x].size);
      var q := h.rings[i];
      && |q| > 0 && q[0] == s == Sentinel(h.sent, i) && q[|q| - 1] == p == Prev(m, s) && Distinct(q) && x !in q
      && s in q && p in q && Node(h.b, h.sent, s) && Node(h.b, h.sent, p) && Node(h.b, h.sent, x)
      && s + NEXT in m && s + PREV in m && x + NEXT in m && x + PREV in m && p + NEXT in m && Gap(s, x) && Gap(p, x)
      && RingPtrs(m, q) && Spaced(q + [x])
  {
    var i := IndexOf(h.b[x].size);
    var q := h.rings[i];
    assert RingOk(h.b, h.sent, q, i, off);
    s, p := q[0], q[|q| - 1];
    assert RingPtrs(m, q);
    assert Prev(m, q[0]) == q[Before(0, |q|)];
    RingNode(h, off, i, s);
    RingNode(h, off, i, p);
    NodeMapped(h, off, m, x);
    NodeMapped(h, off, m, p);
    NodeMapped(h, off, m, s);
    LongerSpaced(h, off, i, x);
  }

  // ---- headers under writes ----

  /** All tags but the size and state of block x are right. */
  ghost predicate TagsBut(m: Memory, b: Layout, x: int)
    requires x in b
  {
    && Word(m, x + LEFT) == b[x].left
    && forall a {:trigger TagAt(m, b, a)} | a in b && a != x :: TagAt(m, b, a)
  }

  lemma HeadersApart(b: Layout, x: int, y: int)
    requires Core(b) && x in b && y in b && x != y
    ensures x + HEADER <= y || y + HEADER <= x
  {
    assert ApartAt(b, x, y) && ApartAt(b, y, x);
  }

  /** The three stores that set up a split-off block. */
  ghost function SplitStores(m: Memory, a: int, size: int, t: int): Memory {
    m[a + t := size - t][a + t + LEFT := t][a + size + LEFT := size - t]
  }

  lemma SplitTags(b: Layout, m: Memory, a: int, t: int)
    requires Core(b) && FreeAt(b, a) && MIN_BLOCK <= t <= b[a].size - MIN_BLOCK && Tags(m, b)
    ensures a + b[a].size in b && TagsBut(SplitStores(m, a, b[a].size, t), Split(b, a, t), a)
    ensures Word(SplitStores(m, a, b[a].size, t), a) == Word(m, a)
  {
    var r := a + b[a].size;
    assert RightOk(b, a) && TagAt(m, b, a);
    InsideIsFresh(b, a, a + t);
    var m', b' := SplitStores(m, a, b[a].size, t), Split(b, a, t);
    forall x {:trigger TagAt(m', b', x)} | x in b' && x != a ensures TagAt(m', b', x) {
      if x != a + t {
        assert TagAt(m, b, x) && ApartAt(b, a, x) && ApartAt(b, x, a);
        if x != r { HeadersApart(b, x, r); }
      }
    }
  }

  lemma SizeWritten(b: Layout, m: Memory, x: int)
    requires Core(b) && x in b && TagsBut(m, b, x)
    ensures Tags(m[x := b[x].size + Code(b[x].state)], b)
  {
    var m' := m[x := b[x].size + Code(b[x].state)];
    forall a {:trigger TagAt(m', b, a)} | a in b ensures TagAt(m', b, a) {
      if a != x {
        assert TagAt(m, b, a);
        HeadersApart(b, a, x);
      }
    }
  }

  lemma StateWritten(b: Layout, m: Memory, x: int, s: State)
    requires Core(b) && x in b && Tags(m, b)
    ensures Tags(m[x := b[x].size + Code(s)], SetState(b, x, s))
  {
    var b', m' := SetState(b, x, s), m[x := b[x].size + Code(s)];
    assert TagAt(m, b, x);
    forall a {:trigger TagAt(m', b', a)} | a in b' ensures TagAt(m', b', a) {
      if a != x {
        assert TagAt(m, b, a);
        HeadersApart(b, a, x);
      }
    }
  }

  lemma TagsButKept(h: Heap, off: set<int>, m: Memory, m': Memory, x: int)
    requires Base(h, off) && x in h.b && TagsBut(m, h.b, x) && SameButLinks(h.b, h.sent, m, m')
    ensures TagsBut(m', h.b, x) && Word(m', x) == Word(m, x)
  {
    NotLink(h, off, x, x);
    NotLink(h, off, x, x + LEFT);
    forall a {:trigger TagAt(m', h.b, a)} | a in h.b && a != x ensures TagAt(m', h.b, a) {
      assert TagAt(m, h.b, a);
      NotLink(h, off, a, a);
      NotLink(h, off, a, a + LEFT);
    }
  }

  // ---- what the allocator does not write ----

  ghost predicate Payload(b: Layout, a: int, w: int) {
    UsedAt(b, a) && a + HEADER <= w < a + b[a].size
  }

  /** No word of a live block's payload differs. */
  ghost predicate PayloadKept(b: Layout, m: Memory, m': Memory) {
    forall a, w {:trigger Payload(b, a, w)} | Payload(b, a, w) :: Word(m', w) == Word(m, w)
  }

  /** Inside a free block, past its header and list pointers. */
  ghost predicate Deep(b: Layout, a: int, w: int) {
    FreeAt(b, a) && a + MIN_BLOCK <= w < a + b[a].size
  }

  ghost predicate DeepKept(b: Layout, m: Memory, m': Memory) {
    forall a, w {:trigger Deep(b, a, w)} | Deep(b, a, w) :: Word(m', w) == Word(m, w)
  }

  lemma LinksKeepContents(h: Heap, off: set<int>, m: Memory, m': Memory)
    requires Base(h, off) && SameButLinks(h.b, h.sent, m, m')
    ensures PayloadKept(h.b, m, m') && DeepKept(h.b, m, m')
  {
    forall a, w {:trigger Payload(h.b, a, w)} | Payload(h.b, a, w) ensures Word(m', w) == Word(m, w) {
      NotLink(h, off, a, w);
    }
    forall a, w {:trigger Deep(h.b, a, w)} | Deep(h.b, a, w) ensures Word(m', w) == Word(m, w) {
      NotLink(h, off, a, w);
    }
  }

  lemma PayloadTrans(b: Layout, b': Layout, m0: Memory, m1: Memory, m2: Memory)
    requires PayloadKept(b, m0, m1) && PayloadKept(b', m1, m2) && UsedWithin(b, b')
    ensures PayloadKept(b, m0, m2)
  {
    forall a, w {:trigger Payload(b, a, w)} | Payload(b, a, w) ensures Word(m2, w) == Word(m0, w) {
      assert UsedAt(b, a) && Payload(b', a, w);
    }
  }

  lemma PayloadNarrow(b: Layout, b': Layout, m: Memory, m': Memory)
    requires PayloadKept(b', m, m') && UsedWithin(b, b')
    ensures PayloadKept(b, m, m')
  {
    forall a, w {:trigger Payload(b, a, w)} | Payload(b, a, w) ensures Word(m', w) == Word(m, w) {
      assert UsedAt(b, a) && Payload(b', a, w);
    }
  }

  /** A header word, or any word of a block that is not live, belongs to no payload. */
  lemma MetaWrite(b: Layout, m: Memory, x: int, w: int, v: int)
    requires Core(b) && x in b && x <= w < x + b[x].size && (UsedAt(b, x) ==> w < x + HEADER)
    ensures PayloadKept(b, m, m[w := v])
  {
    forall a | a in b ensures !Payload(b, a, w) {
      assert ApartAt(b, a, x) && ApartAt(b, x, a);
    }
  }

  // ---- merging two free blocks ----

  /** The two stores of a merge of block a with its right neighbour, n bytes in all, up to the block at rr. */
  ghost function AbsorbStores(m: Memory, a: int, n: int, rr: int): Memory {
    m[a := n][rr + LEFT := n]
  }

  lemma AbsorbTags(b: Layout, m: Memory, a: int)
    requires Core(b) && FreeAt(b, a) && FreeAt(b, a + b[a].size) && Tags(m, b)
    ensures var r := a + b[a].size;
      var rr, n := r + b[r].size, b[a].size + b[r].size;
      rr in b && Tags(AbsorbStores(m, a, n, rr), Absorb(b, a))
  {
    var r := a + b[a].size;
    assert RightOk(b, a) && RightOk(b, r);
    var rr, n := r + b[r].size, b[a].size + b[r].size;
    var m', b' := AbsorbStores(m, a, n, rr), Absorb(b, a);
    assert ApartAt(b, a, rr) && TagAt(m, b, a) && TagAt(m, b, rr);
    forall x {:trigger TagAt(m', b', x)} | x in b' ensures TagAt(m', b', x) {
      assert TagAt(m, b, x);
      if x != a { HeadersApart(b, x, a); }
      if x != rr { HeadersApart(b, x, rr); }
    }
  }

  lemma AbsorbKeeps(h: Heap, off: set<int>, m: Memory, a: int, rr: int, n: int)
    requires Base(h, off) && Threaded(m, h.rings) && FreeAt(h.b, a) && rr in h.b
    ensures var m' := AbsorbStores(m, a, n, rr);
      Threaded(m', h.rings) && PayloadKept(h.b, m, m')
  {
    var m1 := m[a := n];
    NotLink(h, off, a, a);
    NotLink(h, off, rr, rr + LEFT);
    ThreadedKept(h, off, m, AbsorbStores(m, a, n, rr));
    MetaWrite(h.b, m, a, a, n);
    MetaWrite(h.b, m1, rr, rr + LEFT, n);
    PayloadTrans(h.b, h.b, m, m1, AbsorbStores(m, a, n, rr));
  }

  // ---- what a second free of the same pointer would read ----

  /** x is the address of a free block, or lies past the list pointers of one, and the state bits there
      say UNALLOCATED. */
  ghost predicate DeadIn(b: Layout, m: Memory, a: int, x: int) {
    FreeAt(b, a) && IsWord(x) && (x == a || a + MIN_BLOCK <= x < a + b[a].size) && Word(m, x) % 4 == 0
  }

  ghost predicate Dead(b: Layout, m: Memory, x: int) {
    exists a :: DeadIn(b, m, a, x)
  }

  /** Every dead address stays dead. */
  ghost predicate DeadKept(b: Layout, m: Memory, b': Layout, m': Memory) {
    forall x {:trigger Dead(b', m', x)} | Dead(b, m, x) :: Dead(b', m', x)
  }

  lemma LinksKeepDead(h: Heap, off: set<int>, m: Memory, m': Memory)
    requires Base(h, off) && SameButLinks(h.b, h.sent, m, m')
    ensures DeadKept(h.b, m, h.b, m')
  {
    forall x {:trigger Dead(h.b, m', x)} | Dead(h.b, m, x) ensures Dead(h.b, m', x) {
      var a :| DeadIn(h.b, m, a, x);
      NotLink(h, off, a, x);
      assert DeadIn(h.b, m', a, x);
    }
  }

  lemma AbsorbKeepsDead(b: Layout, m: Memory, a: int, n: int)
    requires Core(b) && FreeAt(b, a) && FreeAt(b, a + b[a].size)
    requires n == b[a].size + b[a + b[a].size].size && n % 4 == 0
    ensures var r := a + b[a].size;
      var rr := r + b[r].size;
      rr in b && DeadKept(b, m, Absorb(b, a), AbsorbStores(m, a, n, rr))
  {
    var r := a + b[a].size;
    assert RightOk(b, a) && RightOk(b, r);
    var rr := r + b[r].size;
    var b', m' := Absorb(b, a), AbsorbStores(m, a, n, rr);
    forall x {:trigger Dead(b', m', x)} | Dead(b, m, x) ensures Dead(b', m', x) {
      var c :| DeadIn(b, m, c, x);
      assert ApartAt(b, c, rr) && ApartAt(b, rr, c);
      assert DeadIn(b', m', if c == r then a else c, x);
    }
  }

  lemma DeadTrans(b0: Layout, m0: Memory, b1: Layout, m1: Memory, b2: Layout, m2: Memory)
    requires DeadKept(b0, m0, b1, m1) && DeadKept(b1, m1, b2, m2)
    ensures DeadKept(b0, m0, b2, m2)
  {
    forall x {:trigger Dead(b2, m2, x)} | Dead(b0, m0, x) ensures Dead(b2, m2, x) {
      assert Dead(b1, m1, x);
    }
  }

  // ---- what the owner of a block may write ----

  /** Storing into the payload of a live block disturbs no tag, no list and no other word. */
  lemma PayloadStore(h: Heap, off: set<int>, m: Memory, a: int, w: int, v: int)
    requires Base(h, off) && Threaded(m, h.rings) && Mapped(m, h) && Tags(m, h.b)
    requires Payload(h.b, a, w) && w in m
    ensures Threaded(m[w := v], h.rings) && Mapped(m[w := v], h) && Tags(m[w := v], h.b)
  {
    var m' := m[w := v];
    NotLink(h, off, a, w);
    ThreadedKept(h, off, m, m');
    forall x {:trigger TagAt(m', h.b, x)} | x in h.b ensures TagAt(m', h.b, x) {
      assert TagAt(m, h.b, x);
      assert ApartAt(h.b, x, a) && ApartAt(h.b, a, x);
    }
  }

  /** Byte j of the area at the aligned address p. */
  function ByteAt(m: Memory, p: int, j: nat): int {
    ByteOf(Word(m, p + 8 * (j / 8)), j % 8)
  }

  ghost predicate ByteCopied(m: Memory, m': Memory, dst: int, src: int, j: nat) {
    ByteAt(m', dst, j) == ByteAt(m, src, j)
  }

  /** The n bytes at dst in m' are the n bytes at src in m. */
  ghost predicate BytesCopied(m: Memory, m': Memory, dst: int, src: int, n: nat) {
    forall j: nat | j < n :: ByteCopied(m, m', dst, src, j)
  }

  /** From byte n on the area at dst has not changed. */
  ghost predicate BytesKept(m: Memory, m': Memory, dst: int, n: nat) {
    forall j: nat | j >= n :: ByteCopied(m, m', dst, dst, j)
  }

  ghost predicate WordCopied(m: Memory, m': Memory, dst: int, src: int, i: int) {
    Word(m', dst + 8 * i) == Word(m, src + 8 * i)
  }

  /** The first k words at dst are those at src, and nothing but them has changed. */
  ghost predicate WordsCopied(m: Memory, m': Memory, dst: int, src: int, k: int) {
    && (forall i | 0 <= i < k :: WordCopied(m, m', dst, src, i))
    && (forall w {:trigger Word(m', w)} | w < dst || w >= dst + 8 * k :: Word(m', w) == Word(m, w))
  }

  lemma CopyOneWord(m: Memory, m': Memory, dst: int, src: int, k: int)
    requires WordsCopied(m, m', dst, src, k) && k >= 0
    requires src + 8 * k < dst || src + 8 * k >= dst + 8 * k
    ensures WordsCopied(m, m'[dst + 8 * k := Word(m', src + 8 * k)], dst, src, k + 1)
  {
    var m2 := m'[dst + 8 * k := Word(m', src + 8 * k)];
    forall i | 0 <= i < k + 1 ensures WordCopied(m, m2, dst, src, i) {
      assert i < k ==> WordCopied(m, m', dst, src, i);
      assert Word(m', src + 8 * k) == Word(m, src + 8 * k);
    }
    forall w {:trigger Word(m2, w)} | w < dst || w >= dst + 8 * (k + 1) ensures Word(m2, w) == Word(m, w) {
      assert Word(m', w) == Word(m, w);
    }
  }

  /** The first n / 8 words at dst are copied, and the first n % 8 bytes of the next one, d, are merged into it. */
  ghost predicate TailMerged(m: Memory, m': Memory, dst: int, src: int, n: nat, d: int) {
    var a := 8 * (n / 8);
    && (forall i | 0 <= i < n / 8 :: WordCopied(m, m', dst, src, i))
    && d == Word(m, dst + a) && Word(m', dst + a) == (if n % 8 > 0 then Merge(d, Word(m, src + a), n % 8) else d)
    && (forall w {:trigger Word(m', w)} | w >= dst + a + 8 :: Word(m', w) == Word(m, w))
  }

  /** Byte j is in a copied word, in the merged one, or in one that has been left alone. */
  lemma CopiedByte(m: Memory, m': Memory, dst: int, src: int, n: nat, d: int, j: nat)
    requires TailMerged(m, m', dst, src, n, d)
    ensures ByteCopied(m, m', dst, if j < n then src else dst, j)
  {
    if j / 8 < n / 8 {
      assert WordCopied(m, m', dst, src, j / 8);
    } else if j / 8 == n / 8 && n % 8 > 0 {
      MergedByte(d, Word(m, src + 8 * (n / 8)), n % 8, j % 8);
    }
  }

  /** Copying n / 8 words and merging the last n % 8 bytes into the next word copies n bytes and no more. */
  lemma CopiedBytes(m: Memory, m': Memory, dst: int, src: int, n: nat, d: int)
    requires TailMerged(m, m', dst, src, n, d)
    ensures BytesCopied(m, m', dst, src, n) && BytesKept(m, m', dst, n)
  {
    hide TailMerged, ByteCopied;
    forall j: nat | j < n ensures ByteCopied(m, m', dst, src, j) {
      CopiedByte(m, m', dst, src, n, d, j);
    }
    forall j: nat | j >= n ensures ByteCopied(m, m', dst, dst, j) {
      CopiedByte(m, m', dst, src, n, d, j);
    }
  }

  lemma CopyTail(m: Memory, m1: Memory, m2: Memory, dst: int, src: int, k: int, v: int)
    requires WordsCopied(m, m1, dst, src, k) && k >= 0 && m2 == m1[dst + 8 * k := v]
    ensures forall i | 0 <= i < k :: WordCopied(m, m2, dst, src, i)
    ensures forall w {:trigger Word(m2, w)} | w < dst || w >= dst + 8 * k + 8 :: Word(m2, w) == Word(m, w)
  {
    forall i | 0 <= i < k ensures WordCopied(m, m2, dst, src, i) {
      assert WordCopied(m, m1, dst, src, i);
    }
    forall w {:trigger Word(m2, w)} | w < dst || w >= dst + 8 * k + 8 ensures Word(m2, w) == Word(m, w) {
      assert Word(m1, w) == Word(m, w);
    }
  }
}
