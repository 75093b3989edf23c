/** The allocator of lab1/myMalloc.c as a state machine over layouts and free lists: what allocate_object,
    deallocate_object and the growth loop do, apart from the words in which they do it. */
module HeapModel {
  import opened HeapLayout
  import opened LayoutTheorems
  import opened FreeLists

  /** One answer of sbrk(ARENA_SIZE). */
  datatype Answer = NoMemory | Grant(base: int)

  datatype Heap = Heap(
    sent: int,              // address of freelistSentinels
    arena: int,             // ARENA_SIZE
    b: Layout,
    rings: Rings,
    last: int,              // lastFencePost
    granted: seq<int>,      // what sbrk has returned so far
    answers: seq<Answer>)   // what sbrk will answer from now on; it fails when the answers run out

  // ---- what sbrk promises ----

  ghost predicate AwayFrom(x: int, y: int, arena: int) {
    x + arena <= y || y + arena <= x
  }

  /** Chunks still to come are aligned, above the sentinels, and overlap nothing granted before. */
  ghost predicate OsOk(sent: int, arena: int, granted: seq<int>, answers: seq<Answer>) {
    && (forall j | 0 <= j < |answers| && answers[j].Grant? ::
         answers[j].base % 8 == 0 && answers[j].base >= SentinelEnd(sent))
    && (forall i, j | 0 <= i < |granted| && 0 <= j < |answers| && answers[j].Grant? ::
         AwayFrom(granted[i], answers[j].base, arena))
    && (forall i, j | 0 <= i < j < |answers| && answers[i].Grant? && answers[j].Grant? ::
         AwayFrom(answers[i].base, answers[j].base, arena))
  }

  ghost predicate GrantedAt(granted: seq<int>, arena: int, i: int, x: int) {
    0 <= i < |granted| && granted[i] <= x < granted[i] + arena
  }

  ghost predicate GrantedByte(granted: seq<int>, arena: int, x: int) {
    exists i :: GrantedAt(granted, arena, i, x)
  }

  /** The number of bytes obtained from sbrk. */
  ghost function GrantedBytes(granted: seq<int>, arena: int): int {
    if granted == [] then 0 else GrantedBytes(granted[..|granted| - 1], arena) + arena
  }

  /** The blocks cover exactly the bytes obtained from sbrk, and their sizes add up to them. */
  ghost predicate Accounted(b: Layout, granted: seq<int>, arena: int) {
    && (forall x {:trigger Covered(b, x)} :: Covered(b, x) <==> GrantedByte(granted, arena, x))
    && Total(b) == GrantedBytes(granted, arena)
  }

  ghost predicate Sized(h: Heap) {
    h.arena % 8 == 0 && h.arena >= 528 && h.sent % 8 == 0 && h.sent > 0
  }

  /** What holds at every moment, also between the steps of one call: all of the heap invariant but
      coalescing, with the free blocks in `off` on no list. */
  ghost predicate Base(h: Heap, off: set<int>) {
    && Sized(h)
    && Core(h.b) && Aligned(h.b) && Above(h.b, h.sent)
    && ListsOk(h.b, h.sent, h.rings, off)
    && h.last in h.b && h.b[h.last].state == RightFence
    && Accounted(h.b, h.granted, h.arena)
    && OsOk(h.sent, h.arena, h.granted, h.answers)
  }

  /** The heap invariant. */
  ghost predicate Inv(h: Heap) {
    Base(h, {}) && Coalesced(h.b)
  }

  // ---- the search of allocate_object ----

  ghost predicate Fits(b: Layout, a: int, t: int) {
    a in b && b[a].size >= t
  }

  ghost function FirstFit(b: Layout, q: seq<int>, t: int, k: nat): (p: nat)
    requires k <= |q|
    ensures k <= p <= |q|
    ensures p < |q| ==> Fits(b, q[p], t)
    ensures forall j | k <= j < p :: !Fits(b, q[j], t)
    decreases |q| - k
  {
    if k == |q| || Fits(b, q[k], t) then k else FirstFit(b, q, t, k + 1)
  }

  datatype Spot = Nowhere | At(addr: int)

  /** The first fitting block of the first list, from list i upwards, that has one. */
  ghost function Search(b: Layout, rings: Rings, t: int, i: nat): (s: Spot)
    requires |rings| == N_LISTS && i <= N_LISTS
    requires forall j | 0 <= j < N_LISTS :: |rings[j]| > 0
    decreases N_LISTS - i
  {
    if i == N_LISTS then Nowhere else
      var p := FirstFit(b, rings[i], t, 1);
      if p < |rings[i]| then At(rings[i][p]) else Search(b, rings, t, i + 1)
  }

  lemma SearchSound(b: Layout, sent: int, rings: Rings, t: int, i: nat)
    requires ListsOk(b, sent, rings, {}) && i <= N_LISTS
    requires forall j | 0 <= j < N_LISTS :: |rings[j]| > 0
    ensures var s := Search(b, rings, t, i);
      s.At? ==> FreeAt(b, s.addr) && b[s.addr].size >= t && IndexOf(b[s.addr].size) >= i
    decreases N_LISTS - i
  {
    if i < N_LISTS {
      assert RingOk(b, sent, rings[i], i, {});
      var p := FirstFit(b, rings[i], t, 1);
      if p == |rings[i]| {
        SearchSound(b, sent, rings, t, i + 1);
      }
    }
  }

  // ---- accounting for bytes ----

  lemma SetStateTotal(b: Layout, a: int, s: State)
    requires a in b
    ensures Total(SetState(b, a, s)) == Total(b)
  {
    TotalUpdate(b, a, b[a].(state := s));
  }

  lemma SetStateAccounted(b: Layout, a: int, s: State, granted: seq<int>, arena: int)
    requires a in b && Accounted(b, granted, arena)
    ensures Accounted(SetState(b, a, s), granted, arena)
  {
    forall x {:trigger Covered(SetState(b, a, s), x)}
      ensures Covered(SetState(b, a, s), x) <==> Covered(b, x)
    {
      SetStateCovers(b, a, s, x);
    }
    SetStateTotal(b, a, s);
  }

  lemma SplitAccounted(b: Layout, a: int, t: int, granted: seq<int>, arena: int)
    requires Core(b) && FreeAt(b, a) && MIN_BLOCK <= t <= b[a].size - MIN_BLOCK
    requires Accounted(b, granted, arena)
    ensures a + b[a].size in b && Accounted(Split(b, a, t), granted, arena)
  {
    SplitTotal(b, a, t);
    forall x {:trigger Covered(Split(b, a, t), x)}
      ensures Covered(Split(b, a, t), x) <==> Covered(b, x)
    {
      SplitCovers(b, a, t, x);
    }
  }

  lemma AbsorbAccounted(b: Layout, a: int, granted: seq<int>, arena: int)
    requires Core(b) && FreeAt(b, a) && FreeAt(b, a + b[a].size) && Accounted(b, granted, arena)
    ensures var r := a + b[a].size; r + b[r].size in b && Accounted(Absorb(b, a), granted, arena)
  {
    AbsorbTotal(b, a);
    forall x {:trigger Covered(Absorb(b, a), x)}
      ensures Covered(Absorb(b, a), x) <==> Covered(b, x)
    {
      AbsorbCovers(b, a, x);
    }
  }

  lemma NotYetGranted(h: Heap, x: int)
    requires OsOk(h.sent, h.arena, h.granted, h.answers) && |h.answers| > 0 && h.answers[0].Grant?
    requires h.answers[0].base <= x < h.answers[0].base + h.arena
    ensures !GrantedByte(h.granted, h.arena, x)
  {
    forall i | 0 <= i < |h.granted| ensures !GrantedAt(h.granted, h.arena, i, x) {
      assert AwayFrom(h.granted[i], h.answers[0].base, h.arena);
    }
  }

  lemma GrantVacant(h: Heap)
    requires Base(h, {}) && |h.answers| > 0 && h.answers[0].Grant?
    ensures var g := h.answers[0].base; Vacant(h.b, g, g + h.arena)
  {
    var g := h.answers[0].base;
    forall a | a in h.b ensures a + h.b[a].size <= g || g + h.arena <= a {
      if a + h.b[a].size > g && g + h.arena > a {
        var x := if a < g then g else a;
        assert InBlock(h.b, a, x) && Covered(h.b, x);
        NotYetGranted(h, x);
      }
    }
  }

  lemma GrantedMore(granted: seq<int>, arena: int, g: int, x: int)
    ensures GrantedByte(granted + [g], arena, x) <==> GrantedByte(granted, arena, x) || g <= x < g + arena
  {
    var more := granted + [g];
    if i :| GrantedAt(granted, arena, i, x) {
      assert GrantedAt(more, arena, i, x);
    }
    if g <= x < g + arena {
      assert GrantedAt(more, arena, |granted|, x);
    }
    if i :| GrantedAt(more, arena, i, x) {
      assert i < |granted| ==> GrantedAt(granted, arena, i, x);
    }
  }

  lemma AddChunkAccounted(b: Layout, g: int, granted: seq<int>, arena: int)
    requires Core(b) && Vacant(b, g, g + arena) && arena >= 64 && Accounted(b, granted, arena)
    ensures Accounted(AddChunk(b, g, arena), granted + [g], arena)
  {
    var b' := AddChunk(b, g, arena);
    forall x {:trigger Covered(b', x)}
      ensures Covered(b', x) <==> GrantedByte(granted + [g], arena, x)
    {
      GrantedMore(granted, arena, g, x);
      AddChunkCovers(b, g, arena, x);
    }
    AddChunkTotal(b, g, arena);
    assert (granted + [g])[..|granted|] == granted;
  }

  lemma ExtendAccounted(b: Layout, last: int, granted: seq<int>, arena: int)
    requires Core(b) && last in b && b[last].state == RightFence && FreeAt(b, last - b[last].left)
    requires Vacant(b, last + HEADER, last + HEADER + arena) && arena >= 64 && Accounted(b, granted, arena)
    ensures Accounted(Extend(b, last, arena), granted + [last + HEADER], arena)
  {
    var b', g := Extend(b, last, arena), last + HEADER;
    forall x {:trigger Covered(b', x)}
      ensures Covered(b', x) <==> GrantedByte(granted + [g], arena, x)
    {
      GrantedMore(granted, arena, g, x);
      ExtendCovers(b, last, arena, x);
    }
    ExtendTotal(b, last, arena);
    assert (granted + [g])[..|granted|] == granted;
  }

  lemma AddChunkCoalesced(b: Layout, g: int, arena: int)
    requires Core(b) && Coalesced(b) && Vacant(b, g, g + arena) && arena >= 64
    ensures Coalesced(AddChunk(b, g, arena))
  {
    forall x ensures !FreePair(AddChunk(b, g, arena), x) {
      assert !FreePair(b, x);
      assert x in b ==> RightOk(b, x);
    }
  }

  lemma ExtendCoalesced(b: Layout, last: int, arena: int)
    requires Core(b) && Coalesced(b) && last in b && b[last].state == RightFence && FreeAt(b, last - b[last].left)
    requires Vacant(b, last + HEADER, last + HEADER + arena) && arena >= 64
    ensures Coalesced(Extend(b, last, arena))
  {
    forall x ensures !FreePair(Extend(b, last, arena), x) {
      assert !FreePair(b, x) && LeftOk(b, last);
      assert x in b ==> RightOk(b, x);
    }
  }


  // ---- the steps between which the heap keeps Base ----

  /** Block a leaves its list. */
  ghost function Taken(h: Heap, a: int): Heap
    requires a in h.b && |h.rings| == N_LISTS
  {
    h.(rings := Delist(h.rings, IndexOf(h.b[a].size), a))
  }

  /** Block a enters the list of its size. */
  ghost function Listing(h: Heap, a: int): Heap
    requires a in h.b && |h.rings| == N_LISTS
  {
    h.(rings := Enlist(h.rings, IndexOf(h.b[a].size), a))
  }

  ghost function WithState(h: Heap, a: int, s: State): Heap
    requires a in h.b
  {
    h.(b := SetState(h.b, a, s))
  }

  lemma DelistBase(h: Heap, off: set<int>, off': set<int>, x: int)
    requires Base(h, off) && FreeAt(h.b, x) && x !in off && off' == off + {x}
    ensures Base(Taken(h, x), off')
  {
    DelistOk(h.b, h.sent, h.rings, off, off', x);
  }

  lemma EnlistBase(h: Heap, off: set<int>, off': set<int>, x: int)
    requires Base(h, off) && FreeAt(h.b, x) && x in off && off' == off - {x}
    ensures Base(Listing(h, x), off')
  {
    EnlistOk(h.b, h.sent, h.rings, off, off', x);
  }

  lemma SplitBase(h: Heap, a: int, t: int)
    requires Base(h, {a}) && FreeAt(h.b, a) && t % 8 == 0 && MIN_BLOCK <= t <= h.b[a].size - MIN_BLOCK
    ensures a + h.b[a].size in h.b && Base(h.(b := Split(h.b, a, t)), {a, a + t})
  {
    assert RightOk(h.b, a);
    var b' := Split(h.b, a, t);
    InsideIsFresh(h.b, a, a + t);
    SplitCore(h.b, a, t);
    SplitAligned(h.b, a, t);
    SplitAccounted(h.b, a, t, h.granted, h.arena);
    ListsKept(h.b, b', h.sent, h.rings, {a}, {a, a + t});
  }

  lemma UseBase(h: Heap, a: int)
    requires Base(h, {a}) && FreeAt(h.b, a)
    ensures Base(WithState(h, a, Used), {})
  {
    SetStateCore(h.b, a, Used);
    SetStateAligned(h.b, a, Used);
    SetStateAccounted(h.b, a, Used, h.granted, h.arena);
    ListsKept(h.b, SetState(h.b, a, Used), h.sent, h.rings, {a}, {});
  }

  lemma FreeBase(h: Heap, a: int)
    requires Base(h, {}) && UsedAt(h.b, a)
    ensures Base(WithState(h, a, Free), {a})
  {
    SetStateCore(h.b, a, Free);
    SetStateAligned(h.b, a, Free);
    SetStateAccounted(h.b, a, Free, h.granted, h.arena);
    ListsKept(h.b, SetState(h.b, a, Free), h.sent, h.rings, {}, {a});
  }

  lemma AbsorbBase(h: Heap, a: int, off: set<int>)
    requires FreeAt(h.b, a) && FreeAt(h.b, a + h.b[a].size)
    requires off == {a, a + h.b[a].size} && Base(h, off)
    ensures var r := a + h.b[a].size; r + h.b[r].size in h.b && Loose(h.(b := Absorb(h.b, a)), a)
  {
    AbsorbCore(h.b, a);
    AbsorbAligned(h.b, a);
    AbsorbAccounted(h.b, a, h.granted, h.arena);
    ListsKept(h.b, Absorb(h.b, a), h.sent, h.rings, off, {a});
  }

  /** sbrk's next answer is a chunk. */
  ghost predicate Granting(h: Heap) {
    |h.answers| > 0 && h.answers[0].Grant?
  }

  /** The heap after sbrk has failed. */
  ghost function Denied(h: Heap): Heap {
    h.(answers := if |h.answers| == 0 then [] else h.answers[1..])
  }

  lemma DeniedBase(h: Heap, off: set<int>)
    requires Base(h, off)
    ensures Base(Denied(h), off)
  {
    if |h.answers| > 0 {
      OsStep(h, off);
    }
  }

  /** The heap just after sbrk answered g and allocate_chunk wrote its headers. */
  ghost function WithChunk(h: Heap, g: int): Heap
    requires |h.answers| > 0
  {
    h.(b := AddChunk(h.b, g, h.arena), last := g + h.arena - HEADER,
       granted := h.granted + [g], answers := h.answers[1..])
  }

  lemma OsStep(h: Heap, off: set<int>)
    requires Base(h, off) && |h.answers| > 0
    ensures OsOk(h.sent, h.arena, h.granted, h.answers[1..])
    ensures h.answers[0].Grant? ==> OsOk(h.sent, h.arena, h.granted + [h.answers[0].base], h.answers[1..])
  {
  }

  lemma WithChunkBase(h: Heap)
    requires Base(h, {}) && |h.answers| > 0 && h.answers[0].Grant?
    ensures var g := h.answers[0].base;
      Vacant(h.b, g, g + h.arena) && Base(WithChunk(h, g), {g + HEADER})
  {
    hide Accounted, Vacant;
    var g := h.answers[0].base;
    GrantVacant(h);
    AddChunkCore(h.b, g, h.arena);
    AddChunkAligned(h.b, g, h.arena);
    AddChunkAccounted(h.b, g, h.granted, h.arena);
    ListsKept(h.b, AddChunk(h.b, g, h.arena), h.sent, h.rings, {}, {g + HEADER});
    OsStep(h, {});
  }

  /** The heap after the contiguous chunk has been merged into the free block l before the old fence post. */
  ghost function Extended(h: Heap): Heap
    requires |h.answers| > 0 && h.last in h.b && h.last - h.b[h.last].left in h.b
  {
    h.(b := Extend(h.b, h.last, h.arena), last := h.last + h.arena,
       granted := h.granted + [h.last + HEADER], answers := h.answers[1..])
  }

  lemma ExtendedBase(h: Heap, l: int)
    requires Base(h, {l}) && |h.answers| > 0 && h.answers[0] == Grant(h.last + HEADER)
    requires l == h.last - h.b[h.last].left && FreeAt(h.b, l)
    requires Vacant(h.b, h.last + HEADER, h.last + HEADER + h.arena)
    ensures Base(Extended(h), {l})
  {
    ExtendCore(h.b, h.last, h.arena);
    ExtendAligned(h.b, h.last, h.arena);
    ExtendAccounted(h.b, h.last, h.granted, h.arena);
    ListsKept(h.b, Extend(h.b, h.last, h.arena), h.sent, h.rings, {l}, {l});
    OsStep(h, {l});
  }

  // ---- carving a block ----

  ghost predicate Carvable(h: Heap, a: int, t: int) {
    FreeAt(h.b, a) && t % 8 == 0 && MIN_BLOCK <= t <= h.b[a].size
  }

  /** All but the first t bytes of block a become a listed free block. */
  ghost function Cut(h: Heap, a: int, t: int): Heap
    requires |h.rings| == N_LISTS && a in h.b && a + h.b[a].size in h.b && t > 0
  {
    Listing(h.(b := Split(h.b, a, t)), a + t)
  }

  /** Take t bytes from the front of the free block a, or all of it when less than 32 would remain. */
  ghost function Place(h: Heap, a: int, t: int): Heap
    requires Inv(h) && Carvable(h, a, t)
  {
    assert RightOk(h.b, a);
    var h1 := Taken(h, a);
    WithState(if h.b[a].size - t >= MIN_BLOCK then Cut(h1, a, t) else h1, a, Used)
  }

  lemma SplitCoalesced(b: Layout, a: int, t: int)
    requires Core(b) && Coalesced(b) && FreeAt(b, a) && MIN_BLOCK <= t <= b[a].size - MIN_BLOCK
    ensures a + b[a].size in b && Coalesced(SetState(Split(b, a, t), a, Used))
  {
    assert RightOk(b, a);
    InsideIsFresh(b, a, a + t);
    var b' := SetState(Split(b, a, t), a, Used);
    forall x ensures !FreePair(b', x) {
      assert !FreePair(b, if x == a + t then a else x);
      assert x in b ==> RightOk(b, x);
    }
  }

  lemma UseCoalesced(b: Layout, a: int)
    requires Coalesced(b) && a in b
    ensures Coalesced(SetState(b, a, Used))
  {
    forall x ensures !FreePair(SetState(b, a, Used), x) {
      assert !FreePair(b, x);
    }
  }

  lemma CutBase(h: Heap, a: int, t: int)
    requires Base(h, {a}) && FreeAt(h.b, a) && t % 8 == 0 && MIN_BLOCK <= t <= h.b[a].size - MIN_BLOCK
    ensures a + h.b[a].size in h.b && Base(Cut(h, a, t), {a}) && FreeAt(Cut(h, a, t).b, a)
  {
    hide IndexOf;
    SplitBase(h, a, t);
    InsideIsFresh(h.b, a, a + t);
    EnlistBase(h.(b := Split(h.b, a, t)), {a, a + t}, {a}, a + t);
  }

  lemma PlaceInv(h: Heap, a: int, t: int)
    requires Inv(h) && Carvable(h, a, t)
    ensures Inv(Place(h, a, t))
  {
    hide IndexOf;
    DelistBase(h, {}, {a}, a);
    var h1 := Taken(h, a);
    if h.b[a].size - t >= MIN_BLOCK {
      CutBase(h1, a, t);
      UseBase(Cut(h1, a, t), a);
      SplitCoalesced(h.b, a, t);
    } else {
      UseBase(h1, a);
      UseCoalesced(h.b, a);
    }
  }

  // ---- growing the heap ----

  /** The guard of lab1/myMalloc.c:172: the next chunk is contiguous with the last fence post and the
      block before that fence post is allocated. */
  ghost predicate Collides(h: Heap) {
    && |h.answers| > 0 && h.answers[0] == Grant(h.last + HEADER)
    && h.last in h.b && UsedAt(h.b, h.last - h.b[h.last].left)
  }

  /** The block before lastFencePost is an ordinary block. */
  lemma LastNeighbour(h: Heap)
    requires Inv(h)
    ensures h.last in h.b && h.b[h.last].state == RightFence
    ensures var l := h.last - h.b[h.last].left;
      l in h.b && !h.b[l].Fence() && l + h.b[l].size == h.last && l < h.last
    ensures |h.rings| == N_LISTS && h.arena >= 528
  {
    assert LeftOk(h.b, h.last);
    assert RightOk(h.b, h.last - h.b[h.last].left);
  }

  ghost predicate CanGrow(h: Heap) {
    Granting(h) && !Collides(h)
  }

  ghost function Grown(h: Heap): Heap
    requires Inv(h) && CanGrow(h)
  {
    var g := h.answers[0].base;
    LastNeighbour(h);
    if g == h.last + HEADER then
      var l := h.last - h.b[h.last].left;
      Listing(Extended(Taken(h, l)), l)
    else
      Listing(WithChunk(h, g), g + HEADER)
  }

  lemma ExtendInv(h: Heap)
    requires Inv(h) && CanGrow(h) && h.answers[0].base == h.last + HEADER
    ensures Inv(Grown(h))
  {
    hide Accounted, OsOk, ListsOk, Core, IndexOf;
    GrantVacant(h);
    LastNeighbour(h);
    var l := h.last - h.b[h.last].left;
    DelistBase(h, {}, {l}, l);
    var h1 := Taken(h, l);
    ExtendedBase(h1, l);
    var h2 := Extended(h1);
    EnlistBase(h2, {l}, {}, l);
    ExtendCoalesced(h.b, h.last, h.arena);
    assert Grown(h) == Listing(h2, l);
  }

  lemma GrownInv(h: Heap)
    requires Inv(h) && CanGrow(h)
    ensures Inv(Grown(h))
  {
    hide Core, Coalesced, IndexOf, Accounted, OsOk, ListsOk, Aligned, Above;
    var g := h.answers[0].base;
    if g == h.last + HEADER {
      ExtendInv(h);
    } else {
      WithChunkBase(h);
      var h1 := WithChunk(h, g);
      EnlistBase(h1, {g + HEADER}, {}, g + HEADER);
      AddChunkCoalesced(h.b, g, h.arena);
    }
  }

  // ---- allocate_object ----

  datatype Outcome = Got(addr: int) | Failed | Collision

  lemma RingsNonempty(h: Heap)
    requires Inv(h)
    ensures forall j | 0 <= j < N_LISTS :: |h.rings[j]| > 0
  {
    forall j | 0 <= j < N_LISTS ensures |h.rings[j]| > 0 {
      assert RingOk(h.b, h.sent, h.rings[j], j, {});
    }
  }

  ghost predicate BlockSize(t: int) {
    t % 8 == 0 && t >= MIN_BLOCK
  }

  /** The block size that serves a request of n bytes: header plus payload, 8-aligned, at least 32. */
  function BlockBytes(n: int): (t: int)
    requires n > 0
    ensures BlockSize(t) && t % 8 == 0 && t - 16 >= n && t >= 32
    ensures t > 32 ==> t - 16 < n + 8
  {
    var aligned := n + 7 - (n + 7) % 8;
    HEADER + if aligned < MIN_DATA then MIN_DATA else aligned
  }

  /** The block that the search of allocate_object finds for t bytes, header included. */
  ghost function Chosen(h: Heap, t: int): (s: Spot)
    requires Inv(h) && BlockSize(t)
    ensures s.At? ==> Carvable(h, s.addr, t)
  {
    RingsNonempty(h);
    SearchSound(h.b, h.sent, h.rings, t, IndexOf(t));
    Search(h.b, h.rings, t, IndexOf(t))
  }

  /** allocate_object for t bytes, header included. */
  ghost function Alloc(h: Heap, t: int): (r: (Heap, Outcome))
    requires Inv(h) && BlockSize(t)
    decreases |h.answers|
  {
    var s := Chosen(h, t);
    if s.At? then (Place(h, s.addr, t), Got(s.addr))
    else if !Granting(h) then (Denied(h), Failed)
    else if Collides(h) then (h, Collision)
    else
      GrownInv(h);
      Alloc(Grown(h), t)
  }

  // The block before the last fence post is free.
  ghost predicate FreeEnd(b: Layout, last: int) { last in b && FreeAt(b, last - b[last].left) }

  lemma ExtendNeighbour(b: Layout, last: int, arena: int)
    requires FreeEnd(b, last) && arena > 0 && b[last - b[last].left].size == b[last].left && b[last].left > 0
    ensures FreeEnd(Extend(b, last, arena), last + arena)
  {
  }

  lemma AddChunkNeighbour(b: Layout, g: int, arena: int)
    requires arena >= 64
    ensures FreeEnd(AddChunk(b, g, arena), g + arena - HEADER)
  {
  }

  /** The layout of the grown heap and its last fence post. */
  lemma GrownLayout(h: Heap)
    requires Inv(h) && CanGrow(h)
    ensures h.last in h.b && h.last - h.b[h.last].left in h.b
    ensures var g := h.answers[0].base;
      if g == h.last + HEADER
      then Grown(h).b == Extend(h.b, h.last, h.arena) && Grown(h).last == h.last + h.arena
      else Grown(h).b == AddChunk(h.b, g, h.arena) && Grown(h).last == g + h.arena - HEADER
  {
    hide Base, Coalesced;
    LastNeighbour(h);
  }

  lemma GrownFreeEnd(h: Heap)
    requires Inv(h) && CanGrow(h)
    ensures FreeEnd(Grown(h).b, Grown(h).last)
  {
    hide Base, Coalesced, Extend, AddChunk, Grown;
    LastNeighbour(h);
    GrownLayout(h);
    if h.answers[0].base == h.last + HEADER {
      assert FreeEnd(h.b, h.last);
      ExtendNeighbour(h.b, h.last, h.arena);
    } else {
      AddChunkNeighbour(h.b, h.answers[0].base, h.arena);
    }
  }

  /** After the heap has grown once, the block before lastFencePost is free: the next chunk cannot collide. */
  lemma GrownNoCollision(h: Heap)
    requires Inv(h) && CanGrow(h)
    ensures !Collides(Grown(h))
  {
    GrownFreeEnd(h);
  }

  /** The growth loop meets the collision of Collides in its first round or never. */
  ghost predicate CollidesFor(h: Heap, t: int)
    requires Inv(h) && BlockSize(t)
  {
    Chosen(h, t).Nowhere? && Collides(h)
  }

  lemma {:induction false} AllocInv(h: Heap, t: int)
    requires Inv(h) && BlockSize(t)
    ensures Inv(Alloc(h, t).0)
    decreases |h.answers|
  {
    var s := Chosen(h, t);
    if s.At? {
      PlaceInv(h, s.addr, t);
    } else if CanGrow(h) {
      GrownInv(h);
      AllocInv(Grown(h), t);
    } else {
      DeniedBase(h, {});
    }
  }

  // ---- deallocate_object ----

  ghost predicate Loose(h: Heap, a: int) {
    Base(h, {a}) && FreeAt(h.b, a)
  }

  /** Free neighbours occur only as (left neighbour, a) when `left`, and (a, right neighbour) when `right`. */
  ghost predicate CoalescedBut(b: Layout, a: int, left: bool, right: bool) {
    forall x | FreePair(b, x) ::
      (left && x + b[x].size == a) || (right && x == a)
  }

  lemma CoreOf(h: Heap, off: set<int>)
    requires Base(h, off)
    ensures Core(h.b)
  {
  }

  /** The right neighbour of a free block. */
  lemma RightNeighbour(h: Heap, off: set<int>, a: int)
    requires Base(h, off) && FreeAt(h.b, a)
    ensures |h.rings| == N_LISTS && h.b[a].size > 0 && a + h.b[a].size in h.b
  {
    assert RightOk(h.b, a);
  }

  /** The left neighbour of a free block. */
  lemma LeftNeighbour(h: Heap, off: set<int>, a: int)
    requires Base(h, off) && FreeAt(h.b, a)
    ensures var l := a - h.b[a].left; |h.rings| == N_LISTS && l in h.b && l + h.b[l].size == a && l < a
  {
    assert LeftOk(h.b, a);
  }

  ghost function JoinRight(h: Heap, a: int): Heap
    requires Loose(h, a)
  {
    var r := a + h.b[a].size;
    if FreeAt(h.b, r) then
      RightNeighbour(h, {a}, r);
      Taken(h, r).(b := Absorb(h.b, a))
    else h
  }

  ghost function LeftEnd(h: Heap, a: int): int
    requires a in h.b
  {
    var l := a - h.b[a].left;
    if FreeAt(h.b, l) then l else a
  }

  ghost function JoinLeft(h: Heap, a: int): Heap
    requires Loose(h, a)
  {
    var l := a - h.b[a].left;
    if FreeAt(h.b, l) then
      LeftNeighbour(h, {a}, a);
      RightNeighbour(h, {a}, a);
      Taken(h, l).(b := Absorb(h.b, l))
    else h
  }

  lemma FreedLoose(h: Heap, a: int)
    requires Inv(h) && UsedAt(h.b, a)
    ensures Loose(WithState(h, a, Free), a) && CoalescedBut(WithState(h, a, Free).b, a, true, true)
  {
    FreeBase(h, a);
    var b' := SetState(h.b, a, Free);
    forall x | FreePair(b', x)
      ensures x + b'[x].size == a || x == a
    {
      assert !FreePair(h.b, x);
    }
  }

  lemma AbsorbRightCoalesced(b: Layout, a: int)
    requires Core(b) && CoalescedBut(b, a, true, true) && FreeAt(b, a) && FreeAt(b, a + b[a].size)
    ensures var r := a + b[a].size; r + b[r].size in b && CoalescedBut(Absorb(b, a), a, true, false)
  {
    AbsorbCore(b, a);
    var r, b' := a + b[a].size, Absorb(b, a);
    forall x | FreePair(b', x)
      ensures x + b'[x].size == a
    {
      assert FreePair(b, x) || x == a;
      assert !FreePair(b, r);
    }
  }

  lemma AbsorbLeftCoalesced(b: Layout, a: int)
    requires Core(b) && CoalescedBut(b, a, true, false) && FreeAt(b, a) && FreeAt(b, a - b[a].left)
    ensures var l := a - b[a].left; a == l + b[l].size && a + b[a].size in b && Coalesced(Absorb(b, l))
  {
    assert LeftOk(b, a);
    var l := a - b[a].left;
    AbsorbCore(b, l);
    var b' := Absorb(b, l);
    forall x ensures !FreePair(b', x) {
      assert FreePair(b, x) ==> x + b[x].size == a;
      assert !FreePair(b, a);
      assert x in b ==> RightOk(b, x);
    }
  }

  lemma NothingLeftCoalesced(b: Layout, a: int)
    requires Core(b) && CoalescedBut(b, a, true, false) && FreeAt(b, a) && !FreeAt(b, a - b[a].left)
    ensures Coalesced(b)
  {
    forall x ensures !FreePair(b, x) {
      assert x in b ==> RightOk(b, x);
    }
  }

  lemma JoinRightLoose(h: Heap, a: int)
    requires Loose(h, a)
    ensures Loose(JoinRight(h, a), a)
  {
    hide Base, Core, Absorb;
    var r := a + h.b[a].size;
    if FreeAt(h.b, r) {
      RightNeighbour(h, {a}, a);
      DelistBase(h, {a}, {a, r}, r);
      AbsorbBase(Taken(h, r), a, {a, r});
    }
  }

  lemma JoinRightCoalesced(h: Heap, a: int)
    requires Loose(h, a) && CoalescedBut(h.b, a, true, true)
    ensures CoalescedBut(JoinRight(h, a).b, a, true, false)
  {
    hide Base, Core, Absorb, IndexOf;
    CoreOf(h, {a});
    if FreeAt(h.b, a + h.b[a].size) {
      AbsorbRightCoalesced(h.b, a);
      assert JoinRight(h, a).b == Absorb(h.b, a);
    } else {
      assert !FreePair(h.b, a);
    }
  }

  lemma JoinLeftLoose(h: Heap, a: int)
    requires Loose(h, a)
    ensures Loose(JoinLeft(h, a), LeftEnd(h, a))
  {
    hide Base, Core, Absorb;
    var l := a - h.b[a].left;
    if FreeAt(h.b, l) {
      LeftNeighbour(h, {a}, a);
      DelistBase(h, {a}, {a, l}, l);
      AbsorbBase(Taken(h, l), l, {a, l});
    }
  }

  lemma JoinLeftCoalesced(h: Heap, a: int)
    requires Loose(h, a) && CoalescedBut(h.b, a, true, false)
    ensures Coalesced(JoinLeft(h, a).b)
  {
    hide Base, Core, Coalesced, CoalescedBut, Absorb;
    CoreOf(h, {a});
    if FreeAt(h.b, a - h.b[a].left) {
      AbsorbLeftCoalesced(h.b, a);
      assert JoinLeft(h, a).b == Absorb(h.b, a - h.b[a].left);
    } else {
      NothingLeftCoalesced(h.b, a);
    }
  }

  /** The free, unlisted block a joins its free neighbours and enters a list. */
  ghost function Settle(h: Heap, a: int): Heap
    requires Loose(h, a)
  {
    JoinRightLoose(h, a);
    var h1 := JoinRight(h, a);
    JoinLeftLoose(h1, a);
    Listing(JoinLeft(h1, a), LeftEnd(h1, a))
  }

  lemma SettleInv(h: Heap, a: int)
    requires Loose(h, a) && CoalescedBut(h.b, a, true, true)
    ensures Inv(Settle(h, a))
  {
    hide IndexOf, Core, Accounted, OsOk;
    JoinRightLoose(h, a);
    JoinRightCoalesced(h, a);
    var h1 := JoinRight(h, a);
    JoinLeftLoose(h1, a);
    JoinLeftCoalesced(h1, a);
    var f := LeftEnd(h1, a);
    EnlistBase(JoinLeft(h1, a), {f}, {}, f);
  }

  /** deallocate_object on the live block a. */
  ghost function Release(h: Heap, a: int): Heap
    requires Inv(h) && UsedAt(h.b, a)
  {
    FreedLoose(h, a);
    Settle(WithState(h, a, Free), a)
  }

  lemma ReleaseInv(h: Heap, a: int)
    requires Inv(h) && UsedAt(h.b, a)
    ensures Inv(Release(h, a))
  {
    FreedLoose(h, a);
    SettleInv(WithState(h, a, Free), a);
  }

  // ---- init ----

  /** The heap that init sets up in the first chunk, at g. */
  ghost function Initial(sent: int, arena: int, g: int, answers: seq<Answer>): Heap {
    var rings := seq(N_LISTS, i requires 0 <= i < N_LISTS => [Sentinel(sent, i)]);
    Heap(sent, arena, AddChunk(map[], g, arena), rings[N_LISTS - 1 := [Sentinel(sent, N_LISTS - 1), g + HEADER]],
         g + arena - HEADER, [g], answers)
  }

  lemma EmptyAccounted(arena: int)
    ensures Accounted(map[], [], arena)
  {
    forall x {:trigger Covered(map[], x)} ensures Covered(map[], x) <==> GrantedByte([], arena, x) {
      assert !(exists a :: InBlock(map[], a, x));
    }
  }

  lemma InitialLists(sent: int, arena: int, g: int, answers: seq<Answer>)
    requires arena >= 528 && g >= SentinelEnd(sent)
    ensures var h := Initial(sent, arena, g, answers); ListsOk(h.b, sent, h.rings, {})
  {
    var h := Initial(sent, arena, g, answers);
    var m := g + HEADER;
    assert IndexOf(arena - 2 * HEADER) == N_LISTS - 1;
    forall i {:trigger RingOk(h.b, sent, h.rings[i], i, {})} | 0 <= i < N_LISTS
      ensures RingOk(h.b, sent, h.rings[i], i, {})
    {
      assert h.rings[i] == if i == N_LISTS - 1 then [Sentinel(sent, i), m] else [Sentinel(sent, i)];
    }
    forall a | Listed(h.b, {}, a) ensures a in h.rings[IndexOf(h.b[a].size)] {
      assert a == m && m == h.rings[N_LISTS - 1][1];
    }
  }

  lemma InitialOs(sent: int, arena: int, answers: seq<Answer>)
    requires OsOk(sent, arena, [], answers) && |answers| > 0 && answers[0].Grant?
    ensures OsOk(sent, arena, [answers[0].base], answers[1..])
    ensures answers[0].base % 8 == 0 && answers[0].base >= SentinelEnd(sent)
  {
  }

  lemma InitialLayout(sent: int, arena: int, g: int)
    requires arena % 8 == 0 && arena >= 528 && g % 8 == 0 && g >= SentinelEnd(sent)
    ensures var b := AddChunk(map[], g, arena);
      && Core(b) && Coalesced(b) && Aligned(b) && Above(b, sent) && Accounted(b, [] + [g], arena)
  {
    EmptyAccounted(arena);
    AddChunkCore(map[], g, arena);
    AddChunkAligned(map[], g, arena);
    AddChunkAccounted(map[], g, [], arena);
    AddChunkCoalesced(map[], g, arena);
  }

  /** init establishes the heap invariant when its sbrk succeeds. */
  lemma InitialInv(sent: int, arena: int, answers: seq<Answer>)
    requires arena % 8 == 0 && arena >= 528 && sent % 8 == 0 && sent > 0
    requires OsOk(sent, arena, [], answers) && |answers| > 0 && answers[0].Grant?
    ensures Inv(Initial(sent, arena, answers[0].base, answers[1..]))
  {
    var g := answers[0].base;
    InitialOs(sent, arena, answers);
    InitialLayout(sent, arena, g);
    InitialLists(sent, arena, g, answers[1..]);
    assert [] + [g] == [g];
  }
}
