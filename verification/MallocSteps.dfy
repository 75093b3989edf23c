/** The stores of lab1/myMalloc.c, one group at a time: which words they touch, and of which heap the
    memory is a picture afterwards. */
module MallocSteps {
  import opened HeapLayout
  import opened LayoutTheorems
  import opened FreeLists
  import opened HeapModel
  import opened HeapMemory
  import opened HeapTheorems
  import opened Numbers

  const UNALLOCATED := 0
  const ALLOCATED := 1
  const FENCEPOST := 2

  // ---- the accessors of myMalloc.h; the state mask is 0x3 ----

  function SizeIn(word: int): int {
    word - word % 4
  }

  function StateIn(word: int): int {
    word % 4
  }

  function Pack(size: int, state: int): int {
    SizeIn(size) + StateIn(state)
  }

  function SetSize(word: int, size: int): int {
    size + StateIn(word)
  }

  function SetStateOf(word: int, state: int): int {
    SizeIn(word) + state
  }

  lemma Remainder(x: int, q: int, r: int)
    requires x == 4 * q + r && 0 <= r < 4
    ensures x % 4 == r
  {
  }

  lemma Unpack(size: int, s: State)
    requires size % 8 == 0
    ensures SizeIn(size + Code(s)) == size && StateIn(size + Code(s)) == Code(s)
    ensures Pack(size, Code(s)) == size + Code(s)
  {
    var q := size / 8;
    Remainder(size + Code(s), 2 * q, Code(s));
    Remainder(size, 2 * q, 0);
    Remainder(Code(s), 0, Code(s));
  }

  lemma ReadTag(h: Heap, off: set<int>, m: Memory, a: int)
    requires Base(h, off) && a in h.b && TagAt(m, h.b, a)
    ensures SizeIn(Word(m, a)) == h.b[a].size && StateIn(Word(m, a)) == Code(h.b[a].state)
    ensures Word(m, a + LEFT) == h.b[a].left
  {
    assert AlignedAt(h.b, a);
    Unpack(h.b[a].size, h.b[a].state);
  }

  /** What the search reads at position k of list i. */
  lemma ReadNode(h: Heap, m: Memory, i: int, k: int)
    requires Base(h, {}) && Threaded(m, h.rings) && Mapped(m, h)
    requires 0 <= i < N_LISTS && 0 <= k < |h.rings[i]|
    ensures h.rings[i][0] == Sentinel(h.sent, i) && h.rings[i][k] > 0
    ensures h.rings[i][k] + NEXT in m && Next(m, h.rings[i][k]) == h.rings[i][After(k, |h.rings[i]|)]
    ensures k > 0 ==> h.rings[i][k] != h.rings[i][0] && FreeAt(h.b, h.rings[i][k])
  {
    var q := h.rings[i];
    RingNode(h, {}, i, q[k]);
    NodeMapped(h, {}, m, q[k]);
    assert RingPtrs(m, q);
    assert Next(m, q[k]) == q[After(k, |q|)];
  }

  lemma SplitStoresKeep(h: Heap, off: set<int>, m: Memory, a: int, t: int)
    requires Base(h, off) && Threaded(m, h.rings) && FreeAt(h.b, a)
    requires MIN_BLOCK <= t <= h.b[a].size - MIN_BLOCK
    ensures var m' := SplitStores(m, a, h.b[a].size, t);
      Threaded(m', h.rings) && PayloadKept(h.b, m, m')
  {
    var r := a + h.b[a].size;
    assert RightOk(h.b, a);
    var m' := SplitStores(m, a, h.b[a].size, t);
    NotLink(h, off, a, a + t);
    NotLink(h, off, a, a + t + LEFT);
    NotLink(h, off, r, r + LEFT);
    ThreadedKept(h, off, m, m');
    var m1 := m[a + t := h.b[a].size - t];
    var m2 := m1[a + t + LEFT := t];
    MetaWrite(h.b, m, a, a + t, h.b[a].size - t);
    MetaWrite(h.b, m1, a, a + t + LEFT, t);
    MetaWrite(h.b, m2, r, r + LEFT, h.b[a].size - t);
  }

  lemma SplitMapped(h: Heap, m: Memory, a: int, t: int)
    requires Base(h, {a}) && Mapped(m, h)
    requires FreeAt(h.b, a) && t % 8 == 0 && MIN_BLOCK <= t <= h.b[a].size - MIN_BLOCK
    ensures var r, rest := a + h.b[a].size, h.b[a].size - t;
      && r in h.b && a + t in m && a + t + LEFT in m && r + LEFT in m
      && Pack(rest, UNALLOCATED) == rest && SizeIn(rest) == rest
  {
    assert RightOk(h.b, a) && AlignedAt(h.b, a);
    SplitAligned(a, h.b[a].size, t);
    BlockMapped(h, {a}, m, a, a + t);
    BlockMapped(h, {a}, m, a, a + t + LEFT);
    HeaderMapped(h, {a}, m, a + h.b[a].size);
    Unpack(h.b[a].size - t, Free);
  }

  lemma SplitAligned(a: int, size: int, t: int)
    requires a % 8 == 0 && size % 8 == 0 && t % 8 == 0
    ensures (a + t) % 8 == 0 && (a + t + LEFT) % 8 == 0 && (size - t) % 8 == 0
  {
  }

  /** The stores that set up a split-off block stay in mapped memory and give it right tags. */
  lemma SplitStoresFit(h: Heap, m: Memory, a: int, t: int)
    requires Base(h, {a}) && Threaded(m, h.rings) && Mapped(m, h) && Tags(m, h.b)
    requires FreeAt(h.b, a) && t % 8 == 0 && MIN_BLOCK <= t <= h.b[a].size - MIN_BLOCK
    ensures a + h.b[a].size in h.b && a + t !in h.b
    ensures var m', b' := SplitStores(m, a, h.b[a].size, t), Split(h.b, a, t);
      && m'.Keys == m.Keys && Base(h.(b := b'), {a, a + t})
      && Threaded(m', h.rings) && TagsBut(m', b', a) && Word(m', a) == Word(m, a)
      && PayloadKept(h.b, m, m')
  {
    SplitMapped(h, m, a, t);
    InsideIsFresh(h.b, a, a + t);
    SplitTags(h.b, m, a, t);
    SplitBase(h, a, t);
    SplitStoresKeep(h, {a}, m, a, t);
  }

  /** A store to the size word of block a that makes its tag right. */
  lemma SizeStore(h: Heap, off: set<int>, m: Memory, a: int)
    requires Base(h, off) && Threaded(m, h.rings) && Mapped(m, h) && a in h.b && TagsBut(m, h.b, a)
    ensures var m' := m[a := h.b[a].size + Code(h.b[a].state)];
      a in m && Threaded(m', h.rings) && Tags(m', h.b) && PayloadKept(h.b, m, m')
  {
    var v := h.b[a].size + Code(h.b[a].state);
    HeaderMapped(h, off, m, a);
    SizeWritten(h.b, m, a);
    NotLink(h, off, a, a);
    ThreadedKept(h, off, m, m[a := v]);
    MetaWrite(h.b, m, a, a, v);
  }

  /** Marking block a allocated, and writing its size once more into its right neighbour. */
  lemma UseStores(h: Heap, m: Memory, a: int)
    requires Base(h, {a}) && Threaded(m, h.rings) && Mapped(m, h) && FreeAt(h.b, a) && Tags(m, h.b)
    ensures var r := a + h.b[a].size;
      var m' := m[a := h.b[a].size + ALLOCATED];
      && r in h.b && a in m && r + LEFT in m && m'[r + LEFT := h.b[a].size] == m'
      && Threaded(m', h.rings) && Tags(m', SetState(h.b, a, Used)) && PayloadKept(h.b, m, m')
  {
    var r, size := a + h.b[a].size, h.b[a].size;
    var m1 := m[a := size + ALLOCATED];
    assert RightOk(h.b, a);
    HeaderMapped(h, {a}, m, a);
    HeaderMapped(h, {a}, m, r);
    StateWritten(h.b, m, a, Used);
    assert TagAt(m1, SetState(h.b, a, Used), r);
    assert m1[r + LEFT := size] == m1;
    NotLink(h, {a}, a, a);
    ThreadedKept(h, {a}, m, m1);
    MetaWrite(h.b, m, a, a, size + ALLOCATED);
  }

  lemma SizeArithmetic(h: Heap, off: set<int>, a: int)
    requires Base(h, off) && a in h.b
    ensures var s := h.b[a].size;
      && SizeIn(s) == s && StateIn(s) == 0 && SizeIn(s + ALLOCATED) == s && StateIn(s + ALLOCATED) == ALLOCATED
  {
    assert AlignedAt(h.b, a);
    Unpack(h.b[a].size, Free);
    Unpack(h.b[a].size, Used);
  }

  // ---- absorbing a neighbour ----

  lemma Stamped(word: int, n: int)
    requires StateIn(word) == 0 && SizeIn(n) == n
    ensures SetSize(word, n) == n && n % 4 == 0
  {
  }

  /** What the two stores of lines 230-232 and 239-241 compute. */
  lemma AbsorbArithmetic(h: Heap, h': Heap, off: set<int>, m: Memory, a: int, n: int)
    requires Base(h, off) && Base(h', {a}) && Tags(m, h.b) && FreeAt(h.b, a) && a in h'.b && h'.b[a].size == n
    ensures SetSize(Word(m, a), n) == n && SizeIn(n) == n && n % 4 == 0
  {
    hide Base, SizeIn, StateIn, SetSize;
    assert TagAt(m, h.b, a);
    SizeArithmetic(h, off, a);
    SizeArithmetic(h', {a}, a);
    Stamped(Word(m, a), n);
  }

  /** The heap h' and its memory after block a has swallowed its right neighbour. */
  lemma AbsorbMemory(h: Heap, off: set<int>, m: Memory, a: int) returns (h': Heap)
    requires FreeAt(h.b, a) && FreeAt(h.b, a + h.b[a].size) && off == {a, a + h.b[a].size}
    requires Base(h, off) && Threaded(m, h.rings) && Mapped(m, h) && Tags(m, h.b)
    ensures var r := a + h.b[a].size;
      var rr, n := r + h.b[r].size, h.b[a].size + h.b[r].size;
      var m' := AbsorbStores(m, a, n, rr);
      && rr in h.b && h' == h.(b := Absorb(h.b, a)) && FreeAt(h'.b, a)
      && a in m && rr + LEFT in m && SetSize(Word(m, a), n) == n && SizeIn(n) == n
      && Base(h', {a}) && Threaded(m', h'.rings) && Mapped(m', h') && Tags(m', h'.b)
      && PayloadKept(h.b, m, m') && DeadKept(h.b, m, h'.b, m')
  {
    hide Base, Core, Threaded, Tags, SizeIn, SetSize;
    CoreOf(h, off);
    AbsorbBase(h, a, off);
    AbsorbTags(h.b, m, a);
    RightNeighbour(h, off, a);
    RightNeighbour(h, off, a + h.b[a].size);
    var r := a + h.b[a].size;
    var rr, n := r + h.b[r].size, h.b[a].size + h.b[r].size;
    h' := h.(b := Absorb(h.b, a));
    HeaderMapped(h, off, m, a);
    HeaderMapped(h, off, m, rr);
    AbsorbKeeps(h, off, m, a, rr, n);
    AbsorbArithmetic(h, h', off, m, a, n);
    AbsorbKeepsDead(h.b, m, a, n);
  }

  // ---- a fresh chunk ----

  /** Memory after sbrk mapped the words of [g, g + arena): the system hands out zeroed pages. */
  function WithPages(m: Memory, g: int, arena: int): Memory {
    m + map w | g <= w < g + arena && w % 8 == 0 :: 0
  }

  /** The tags that allocate_chunk stores: two fence posts and the block between them. */
  ghost function ChunkStores(m: Memory, g: int, arena: int): Memory {
    var r := g + arena - HEADER;
    m[g := HEADER + FENCEPOST][g + LEFT := HEADER]
     [r := HEADER + FENCEPOST][r + LEFT := arena - 2 * HEADER]
     [g + HEADER := arena - 2 * HEADER][g + HEADER + LEFT := HEADER]
  }

  lemma PagesUnseen(h: Heap, m: Memory, g: int, w: int)
    requires Mapped(m, h)
    requires forall x | g <= x < g + h.arena :: !GrantedByte(h.granted, h.arena, x)
    requires g >= SentinelEnd(h.sent)
    ensures Word(WithPages(m, g, h.arena), w) == Word(m, w)
  {
  }

  lemma ChunkTags(b: Layout, m: Memory, g: int, arena: int)
    requires Core(b) && Vacant(b, g, g + arena) && arena >= 64 && Tags(m, b)
    ensures Tags(ChunkStores(m, g, arena), AddChunk(b, g, arena))
    ensures PayloadKept(b, m, ChunkStores(m, g, arena))
  {
    var m', b' := ChunkStores(m, g, arena), AddChunk(b, g, arena);
    forall a {:trigger TagAt(m', b', a)} | a in b' ensures TagAt(m', b', a) {
      assert a in b ==> TagAt(m, b, a);
    }
    forall a, w {:trigger Payload(b, a, w)} | Payload(b, a, w) ensures Word(m', w) == Word(m, w) {
      assert a + b[a].size <= g || g + arena <= a;
    }
  }

  lemma ChunkThreaded(h: Heap, m: Memory, g: int)
    requires Base(h, {}) && Vacant(h.b, g, g + h.arena) && g >= SentinelEnd(h.sent) && Threaded(m, h.rings)
    ensures Threaded(ChunkStores(m, g, h.arena), h.rings)
  {
    var m' := ChunkStores(m, g, h.arena);
    forall w | LinkWord(h.b, h.sent, w) ensures Word(m', w) == Word(m, w) {
      var x :| LinkOf(h.b, h.sent, x, w);
      assert FreeAt(h.b, x) ==> x + h.b[x].size <= g || g + h.arena <= x;
    }
    ThreadedKept(h, {}, m, m');
  }

  lemma PagesMapped(h: Heap, m: Memory, g: int)
    requires Mapped(m, h) && |h.answers| > 0
    ensures Mapped(WithPages(m, g, h.arena), WithChunk(h, g))
  {
    var m', h' := WithPages(m, g, h.arena), WithChunk(h, g);
    forall w
      ensures w in m' <==>
        IsWord(w) && (h.sent <= w < SentinelEnd(h.sent) || GrantedByte(h'.granted, h.arena, w))
    {
      GrantedMore(h.granted, h.arena, g, w);
    }
  }

  lemma PagesDomain(m: Memory, g: int, arena: int)
    requires g % 8 == 0 && arena % 8 == 0 && arena >= 64
    ensures var m', r := WithPages(m, g, arena), g + arena - HEADER;
      && g in m' && g + LEFT in m' && r in m' && r + LEFT in m' && g + HEADER in m' && g + HEADER + LEFT in m'
  {
    ChunkWordsAligned(g, arena);
  }

  lemma ChunkWords(h: Heap, m: Memory, g: int)
    requires Base(h, {}) && |h.answers| > 0 && h.answers[0] == Grant(g)
    ensures var m', r := WithPages(m, g, h.arena), g + h.arena - HEADER;
      && g in m' && g + LEFT in m' && r in m' && r + LEFT in m' && g + HEADER in m' && g + HEADER + LEFT in m'
      && ChunkStores(m', g, h.arena).Keys == m'.Keys
  {
    PagesDomain(m, g, h.arena);
  }

  lemma ChunkWordsAligned(g: int, arena: int)
    requires g % 8 == 0 && arena % 8 == 0
    ensures (g + LEFT) % 8 == 0 && (g + HEADER) % 8 == 0 && (g + HEADER + LEFT) % 8 == 0
    ensures (g + arena - HEADER) % 8 == 0 && (g + arena - HEADER + LEFT) % 8 == 0
  {
  }

  lemma PagesKeep(h: Heap, m: Memory, g: int)
    requires Base(h, {}) && |h.answers| > 0 && h.answers[0] == Grant(g)
    requires Threaded(m, h.rings) && Mapped(m, h) && Tags(m, h.b)
    ensures var m1 := WithPages(m, g, h.arena);
      Tags(m1, h.b) && Threaded(m1, h.rings) && PayloadKept(h.b, m, m1)
  {
    var m1 := WithPages(m, g, h.arena);
    forall x | g <= x < g + h.arena ensures !GrantedByte(h.granted, h.arena, x) {
      NotYetGranted(h, x);
    }
    forall w ensures Word(m1, w) == Word(m, w) {
      PagesUnseen(h, m, g, w);
    }
    ThreadedKept(h, {}, m, m1);
    forall a {:trigger TagAt(m1, h.b, a)} | a in h.b ensures TagAt(m1, h.b, a) {
      assert TagAt(m, h.b, a);
    }
  }

  lemma ChunkKeeps(h: Heap, m: Memory, g: int)
    requires Base(h, {}) && |h.answers| > 0 && h.answers[0] == Grant(g)
    requires Threaded(m, h.rings) && Mapped(m, h) && Tags(m, h.b)
    requires Vacant(h.b, g, g + h.arena) && g >= SentinelEnd(h.sent)
    ensures var m' := ChunkStores(WithPages(m, g, h.arena), g, h.arena);
      Tags(m', AddChunk(h.b, g, h.arena)) && Threaded(m', h.rings) && PayloadKept(h.b, m, m')
  {
    var m1 := WithPages(m, g, h.arena);
    PagesKeep(h, m, g);
    ChunkTags(h.b, m1, g, h.arena);
    ChunkThreaded(h, m1, g);
    PayloadTrans(h.b, h.b, m, m1, ChunkStores(m1, g, h.arena));
  }

  lemma ChunkMapped(h: Heap, m: Memory, g: int)
    requires Base(h, {}) && |h.answers| > 0 && h.answers[0] == Grant(g) && Mapped(m, h)
    ensures Mapped(ChunkStores(WithPages(m, g, h.arena), g, h.arena), WithChunk(h, g))
  {
    PagesMapped(h, m, g);
    ChunkWords(h, m, g);
  }

  lemma ChunkFits(h: Heap, m: Memory, g: int)
    requires Base(h, {}) && |h.answers| > 0 && h.answers[0] == Grant(g)
    requires Threaded(m, h.rings) && Mapped(m, h) && Tags(m, h.b)
    ensures var m' := ChunkStores(WithPages(m, g, h.arena), g, h.arena);
      && Tags(m', WithChunk(h, g).b) && Threaded(m', h.rings) && Mapped(m', WithChunk(h, g))
      && PayloadKept(h.b, m, m') && Base(WithChunk(h, g), {g + HEADER})
  {
    WithChunkBase(h);
    GrantVacant(h);
    ChunkKeeps(h, m, g);
    ChunkMapped(h, m, g);
  }

  /** The chunk's memory before and after the merge into the free block l before the old fence post. */
  ghost function MergeStores(m: Memory, l: int, r: int, merged: int): Memory {
    m[l := merged][r + LEFT := merged]
  }

  lemma MergeTags(b: Layout, m: Memory, last: int, arena: int)
    requires Core(b) && last in b && b[last].state == RightFence && FreeAt(b, last - b[last].left)
    requires Vacant(b, last + HEADER, last + HEADER + arena) && arena >= 64
    requires Tags(m, AddChunk(b, last + HEADER, arena))
    ensures var l := last - b[last].left;
      Tags(MergeStores(m, l, last + arena, b[l].size + arena), Extend(b, last, arena))
  {
    var l, b1, b' := last - b[last].left, AddChunk(b, last + HEADER, arena), Extend(b, last, arena);
    var m' := MergeStores(m, l, last + arena, b[l].size + arena);
    assert LeftOk(b, last);
    assert TagAt(m, b1, last + arena);
    forall a {:trigger TagAt(m', b', a)} | a in b' ensures TagAt(m', b', a) {
      if a in b {
        assert TagAt(m, b1, a);
        if a != l { HeadersApart(b, a, l); }
      }
    }
  }

  lemma ChunkUsed(h: Heap)
    requires Base(h, {}) && Granting(h)
    ensures UsedWithin(h.b, AddChunk(h.b, h.answers[0].base, h.arena))
  {
    GrantVacant(h);
  }

  /** The two stores of the merge touch no pointer and no payload. */
  lemma MergeStoresKeep(h: Heap, off: set<int>, m: Memory, l: int, r: int, merged: int)
    requires Base(h, off) && Threaded(m, h.rings) && Mapped(m, h) && FreeAt(h.b, l) && r in h.b && h.b[r].Fence()
    ensures var m' := MergeStores(m, l, r, merged);
      l in m && r + LEFT in m && m'.Keys == m.Keys && Threaded(m', h.rings) && PayloadKept(h.b, m, m')
  {
    HeaderMapped(h, off, m, l);
    HeaderMapped(h, off, m, r);
    var m1 := m[l := merged];
    var m' := m1[r + LEFT := merged];
    NotLink(h, off, l, l);
    NotLink(h, off, r, r + LEFT);
    ThreadedKept(h, off, m, m');
    MetaWrite(h.b, m, l, l, merged);
    MetaWrite(h.b, m1, r, r + LEFT, merged);
    PayloadTrans(h.b, h.b, m, m1, m');
  }

  lemma ExtendedBlock(b: Layout, last: int, arena: int)
    requires Core(b) && last in b && b[last].state == RightFence && arena >= 64
    requires Vacant(b, last + HEADER, last + HEADER + arena)
    requires var l := last - b[last].left; FreeAt(b, l) && l + b[l].size == last
    ensures var (l, b') := (last - b[last].left, Extend(b, last, arena));
      UsedWithin(b, b') && FreeAt(b', l) && b'[l].size == last + arena - l
  {
  }

  /** The model of the heap after the merge, before block l returns to a list. */
  lemma MergeModel(h: Heap, l: int) returns (h2: Heap)
    requires Inv(h) && CanGrow(h) && h.answers[0] == Grant(h.last + HEADER) && l == h.last - h.b[h.last].left
    ensures FreeAt(h.b, l) && UsedWithin(h.b, h2.b) && Base(h2, {l}) && FreeAt(h2.b, l)
    ensures h2.b == Extend(h.b, h.last, h.arena) && h2.b[l].size == h.last + h.arena - l
    ensures h2.rings == Taken(h, l).rings && h2.granted == h.granted + [h.last + HEADER]
    ensures h2.sent == h.sent && h2.arena == h.arena && |h2.rings| == N_LISTS
    ensures Listing(h2, l) == Grown(h)
  {
    hide Base, Core, Vacant, Coalesced, Extend;
    LastNeighbour(h);
    MergePlace(h, l);
    GrantVacant(h);
    ExtendedBlock(h.b, h.last, h.arena);
    DelistBase(h, {}, {l}, l);
    ExtendedBase(Taken(h, l), l);
    h2 := Extended(Taken(h, l));
  }

  /** The free block l ends where the heap ended before the chunk came. */
  lemma MergePlace(h: Heap, l: int)
    requires Inv(h) && CanGrow(h) && h.answers[0] == Grant(h.last + HEADER) && l == h.last - h.b[h.last].left
    ensures Core(h.b) && h.last in h.b && h.b[h.last].state == RightFence && FreeAt(h.b, l) && l < h.last
    ensures Vacant(h.b, h.last + HEADER, h.last + HEADER + h.arena) && h.arena >= 64
    ensures FreeAt(AddChunk(h.b, h.last + HEADER, h.arena), l)
  {
    LastNeighbour(h);
    GrantVacant(h);
  }

  lemma MergedSize(h: Heap, off: set<int>, l: int)
    requires Base(h, off) && l in h.b
    ensures Pack(h.b[l].size, UNALLOCATED) == h.b[l].size
  {
    assert AlignedAt(h.b, l);
    Unpack(h.b[l].size, Free);
  }

  /** The two stores of the merge are in mapped memory and make it a memory of h2. */
  ghost predicate MergeReady(h2: Heap, m: Memory, l: int, r: int) {
    var m' := MergeStores(m, l, r, r - l);
    && l in m && r + LEFT in m && Pack(r - l, UNALLOCATED) == r - l
    && Base(h2, {l}) && FreeAt(h2.b, l)
    && Threaded(m', h2.rings) && Mapped(m', h2) && Tags(m', h2.b)
  }

  /** What the merge makes of a memory m in which the block l has just left its list: h1 is the heap
      before the two stores, h2 the heap after them. */
  lemma MergeStep(b: Layout, last: int, h1: Heap, h2: Heap, off: set<int>, m: Memory, l: int, r: int)
    requires r == last + h1.arena
    requires Core(b) && last in b && b[last].state == RightFence && l == last - b[last].left && FreeAt(b, l)
    requires Vacant(b, last + HEADER, last + HEADER + h1.arena) && h1.arena >= 64
    requires Base(h1, off) && h1.b == AddChunk(b, last + HEADER, h1.arena) && FreeAt(h1.b, l)
    requires UsedWithin(b, h1.b)
    requires Threaded(m, h1.rings) && Mapped(m, h1) && Tags(m, h1.b)
    requires Base(h2, {l}) && h2.b == Extend(b, last, h1.arena) && h2.b[l].size == last + h1.arena - l
    requires h2.rings == h1.rings && h2.granted == h1.granted && h2.sent == h1.sent && h2.arena == h1.arena
    ensures MergeReady(h2, m, l, r)
    ensures PayloadKept(b, m, MergeStores(m, l, r, r - l))
  {
    MergedSize(h2, {l}, l);
    MergeStoresKeep(h1, off, m, l, r, r - l);
    MergeTags(b, m, last, h1.arena);
    PayloadTrans(b, h1.b, m, m, MergeStores(m, l, r, r - l));
  }

  /** The words of a header at f, inside the free block x, and what packing the size `rest` gives. */
  lemma RestArithmetic(x: int, size: int, f: int)
    requires x % 8 == 0 && size % 8 == 0 && f % 8 == 0
    ensures (x + size - f) % 8 == 0
  {
  }

  lemma WordAfter(f: int, k: int)
    requires f % 8 == 0
    ensures IsWord(f + 8 * k)
  {
  }

  lemma FourWords(h: Heap, off: set<int>, m: Memory, x: int, f: int)
    requires Base(h, off) && Mapped(m, h) && x in h.b
    requires x <= f && f + MIN_BLOCK <= x + h.b[x].size && f % 8 == 0
    ensures forall k | 0 <= k < 4 :: f + 8 * k in m
  {
    forall k | 0 <= k < 4 ensures f + 8 * k in m {
      WordAfter(f, k);
      BlockMapped(h, off, m, x, f + 8 * k);
    }
  }

  lemma RestWords(h: Heap, off: set<int>, m: Memory, x: int, f: int, rest: int)
    requires Base(h, off) && Mapped(m, h) && FreeAt(h.b, x)
    requires x <= f && f + rest == x + h.b[x].size && rest >= MIN_BLOCK && f % 8 == 0
    ensures forall k | 0 <= k < 4 :: f + 8 * k in m
    ensures Pack(rest, UNALLOCATED) == rest && SizeIn(rest) == rest
  {
    FourWords(h, off, m, x, f);
    assert AlignedAt(h.b, x);
    RestArithmetic(x, h.b[x].size, f);
    Unpack(rest, Free);
  }

  lemma RequestArithmetic(h: Heap, off: set<int>, hdr: int, total: int)
    requires Base(h, off) && hdr in h.b && BlockSize(total)
    ensures (hdr + total) % 8 == 0 && Pack(total, ALLOCATED) == total + ALLOCATED
  {
    assert AlignedAt(h.b, hdr);
    Unpack(total, Used);
  }

  // ---- the branch for an allocated last block ----

  /** A chunk has been formatted behind the old fence post: hdr and fp are its fence posts, the block between them is
      on no list, and l is a live block. */
  ghost predicate Branch(h: Heap, m: Memory, hdr: int, l: int, fp: int) {
    && Base(h, {hdr + HEADER}) && Threaded(m, h.rings) && Mapped(m, h) && Tags(m, h.b)
    && hdr in h.b && h.b[hdr].state == LeftFence && FreeAt(h.b, hdr + HEADER)
    && fp in h.b && fp == hdr + HEADER + h.b[hdr + HEADER].size && h.b[fp].Fence() && UsedAt(h.b, l)
  }

  lemma BehindWords(h: Heap, m: Memory, hdr: int, l: int, fp: int)
    requires Branch(h, m, hdr, l, fp)
    ensures hdr in m && hdr + LEFT in m && l in m && fp + LEFT in m
    ensures l + HEADER <= hdr || l >= fp + HEADER
    ensures Word(m, l) == h.b[l].size + ALLOCATED && SizeIn(Word(m, l)) == h.b[l].size
    ensures hdr >= SentinelEnd(h.sent) && l >= SentinelEnd(h.sent)
  {
    var off := {hdr + HEADER};
    assert TagAt(m, h.b, l);
    ReadTag(h, off, m, l);
    HeaderMapped(h, off, m, l);
    HeaderMapped(h, off, m, hdr);
    HeaderMapped(h, off, m, fp);
    HeadersApart(h.b, l, hdr);
    assert ApartAt(h.b, hdr + HEADER, l) && ApartAt(h.b, fp, l);
  }

  /** The word z is outside the new chunk, but for the words of free payloads and lists, and outside the header l. */
  ghost predicate Outside(z: int, hdr: int, l: int, fp: int) {
    (z < hdr || z >= fp + HEADER) && z != l && z != l + LEFT
  }

  /** The two words outside the block at f that entering the list with sentinel s changes. */
  ghost predicate TailOutside(m: Memory, s: int, hdr: int, l: int, fp: int) {
    s + PREV in m && Prev(m, s) + NEXT in m && Outside(s + PREV, hdr, l, fp) && Outside(Prev(m, s) + NEXT, hdr, l, fp)
  }

  lemma FreeOutside(h: Heap, m: Memory, hdr: int, l: int, fp: int, p: int)
    requires Branch(h, m, hdr, l, fp) && FreeAt(h.b, p) && p != hdr + HEADER
    ensures Outside(p + NEXT, hdr, l, fp)
  {
    hide Tags, Threaded, Mapped;
    assert ApartAt(h.b, p, hdr) && ApartAt(h.b, hdr, p);
    assert ApartAt(h.b, p, hdr + HEADER) && ApartAt(h.b, hdr + HEADER, p);
    assert ApartAt(h.b, p, fp) && ApartAt(h.b, fp, p);
    assert ApartAt(h.b, p, l) && ApartAt(h.b, l, p);
  }

  lemma SentinelOutside(h: Heap, m: Memory, hdr: int, l: int, fp: int, x: int)
    requires Branch(h, m, hdr, l, fp) && IsSentinel(h.sent, x)
    ensures Outside(x + NEXT, hdr, l, fp) && Outside(x + PREV, hdr, l, fp) && x + SENTINEL_SIZE <= SentinelEnd(h.sent)
  {
    BehindWords(h, m, hdr, l, fp);
  }

  lemma BehindTail(h: Heap, m: Memory, hdr: int, l: int, fp: int, i: int)
    requires Branch(h, m, hdr, l, fp) && 0 <= i < N_LISTS
    ensures var (s, p) := (Sentinel(h.sent, i), Prev(m, Sentinel(h.sent, i)));
      && TailOutside(m, s, hdr, l, fp) && LinkWord(h.b, h.sent, s + PREV) && LinkWord(h.b, h.sent, p + NEXT)
      && s + SENTINEL_SIZE <= SentinelEnd(h.sent)
  {
    hide Base, Tags, Threaded, Mapped, Outside, LinkWord;
    var s, p := Sentinel(h.sent, i), Prev(m, Sentinel(h.sent, i));
    TailNode(h, {hdr + HEADER}, m, i);
    SentinelOutside(h, m, hdr, l, fp, s);
    if IsSentinel(h.sent, p) {
      SentinelOutside(h, m, hdr, l, fp, p);
    } else {
      FreeOutside(h, m, hdr, l, fp, p);
    }
  }

  /** Lines 174-176. */
  ghost function BehindStores(m: Memory, hdr: int, total: int, left: int): Memory {
    m[hdr := total + ALLOCATED][hdr + LEFT := left]
  }

  /** Lines 184-187 and 189. */
  ghost function RestStores(m: Memory, f: int, rest: int, fp: int, total: int): Memory {
    if rest >= MIN_BLOCK then m[f := rest][f + LEFT := total][fp + LEFT := rest] else m[fp + LEFT := total]
  }

  /** What the branch leaves of the chunk: a free block with right tags behind the returned one, or, when less than 32
      bytes remain, nothing but the left size of the fence post, which then passes over them. */
  ghost predicate RestOf(m: Memory, hdr: int, total: int, fp: int) {
    var (f, rest) := (hdr + total, fp - (hdr + total));
    if rest >= MIN_BLOCK then Word(m, f) == rest && Word(m, f + LEFT) == total && Word(m, fp + LEFT) == rest
    else Word(m, fp + LEFT) == total
  }

  ghost function RestListed(m: Memory, f: int, rest: int, fp: int, total: int, s: int): Memory {
    var m' := RestStores(m, f, rest, fp, total);
    if rest >= MIN_BLOCK then Linked4(m', s, Prev(m', s), f) else m'
  }

  /** The words that the rest of the branch leaves alone. */
  lemma RestStored(m: Memory, hdr: int, l: int, fp: int, total: int, s: int)
    requires TailOutside(m, s, hdr, l, fp) && total >= MIN_BLOCK && hdr + total <= fp
    requires l + HEADER <= hdr || l >= fp + HEADER
    ensures var m' := RestListed(m, hdr + total, fp - (hdr + total), fp, total, s);
      && RestOf(m', hdr, total, fp)
      && Word(m', hdr) == Word(m, hdr) && Word(m', hdr + LEFT) == Word(m, hdr + LEFT) && Word(m', l) == Word(m, l)
  {
  }

  /** What FreeRest needs of memory. */
  ghost predicate RestReady(m: Memory, sent: int, f: int, rest: int, fp: int) {
    && fp + LEFT in m && fp >= f + rest && f >= SentinelEnd(sent)
    && (rest >= MIN_BLOCK ==>
          && Pack(rest, UNALLOCATED) == rest && SizeIn(rest) == rest
          && f in m && f + LEFT in m && f + NEXT in m && f + PREV in m
          && TailReady(m, sent, Sentinel(sent, IndexOf(rest))))
  }

  ghost predicate TailReady(m: Memory, sent: int, s: int) {
    s + SENTINEL_SIZE <= SentinelEnd(sent) && s + PREV in m && Prev(m, s) + NEXT in m
  }

  lemma RestHeader(h: Heap, m: Memory, hdr: int, l: int, fp: int, total: int)
    requires Branch(h, m, hdr, l, fp) && (hdr + total) % 8 == 0 && total >= HEADER && hdr + total + MIN_BLOCK <= fp
    ensures var f, rest := hdr + total, fp - (hdr + total);
      && Pack(rest, UNALLOCATED) == rest && SizeIn(rest) == rest
      && f in m && f + LEFT in m && f + NEXT in m && f + PREV in m
  {
    var f := hdr + total;
    RestWords(h, {hdr + HEADER}, m, hdr + HEADER, f, fp - f);
    assert f + 8 * 0 in m && f + 8 * 1 in m && f + 8 * 2 in m && f + 8 * 3 in m;
  }

  lemma TailStaysReady(h: Heap, m: Memory, hdr: int, l: int, fp: int, total: int, i: int)
    requires Branch(h, m, hdr, l, fp) && 0 <= i < N_LISTS
    ensures TailReady(BehindStores(m, hdr, total, h.b[l].size), h.sent, Sentinel(h.sent, i))
  {
    BehindTail(h, m, hdr, l, fp, i);
    hide Branch;
  }

  lemma BranchReady(h: Heap, m: Memory, hdr: int, l: int, fp: int, total: int)
    requires Branch(h, m, hdr, l, fp) && BlockSize(total) && hdr + total <= fp
    ensures RestReady(BehindStores(m, hdr, total, h.b[l].size), h.sent, hdr + total, fp - (hdr + total), fp)
  {
    hide Base, Tags, Threaded, Mapped, TailReady, Pack, SizeIn, Sentinel, SentinelEnd, IndexOf;
    BehindWords(h, m, hdr, l, fp);
    RequestArithmetic(h, {hdr + HEADER}, hdr, total);
    var f, rest := hdr + total, fp - (hdr + total);
    if rest >= MIN_BLOCK {
      RestHeader(h, m, hdr, l, fp, total);
      TailStaysReady(h, m, hdr, l, fp, total, IndexOf(rest));
    }
  }

  lemma LinkWrite(h: Heap, off: set<int>, m: Memory, w: int, v: int)
    requires Base(h, off) && LinkWord(h.b, h.sent, w)
    ensures PayloadKept(h.b, m, m[w := v])
  {
    forall a, w' {:trigger Payload(h.b, a, w')} | Payload(h.b, a, w') ensures w' != w {
      NotLink(h, off, a, w');
    }
  }

  lemma BehindKeeps(h: Heap, m: Memory, hdr: int, l: int, fp: int, total: int)
    requires Branch(h, m, hdr, l, fp)
    ensures PayloadKept(h.b, m, BehindStores(m, hdr, total, h.b[l].size))
  {
    MetaWrite(h.b, m, hdr, hdr, total + ALLOCATED);
    MetaWrite(h.b, m[hdr := total + ALLOCATED], hdr, hdr + LEFT, h.b[l].size);
  }

  lemma RestStoresKeep(h: Heap, m: Memory, m1: Memory, hdr: int, l: int, fp: int, total: int)
    requires Branch(h, m, hdr, l, fp) && total >= MIN_BLOCK && hdr + total <= fp
    ensures PayloadKept(h.b, m1, RestStores(m1, hdr + total, fp - (hdr + total), fp, total))
  {
    var f, rest := hdr + total, fp - (hdr + total);
    if rest >= MIN_BLOCK {
      MetaWrite(h.b, m1, hdr + HEADER, f, rest);
      MetaWrite(h.b, m1[f := rest], hdr + HEADER, f + LEFT, total);
      MetaWrite(h.b, m1[f := rest][f + LEFT := total], fp, fp + LEFT, rest);
    } else {
      MetaWrite(h.b, m1, fp, fp + LEFT, total);
    }
  }

  lemma RestLinksKeep(h: Heap, m: Memory, m2: Memory, hdr: int, l: int, fp: int, f: int, i: int)
    requires Branch(h, m, hdr, l, fp) && 0 <= i < N_LISTS && hdr + HEADER <= f <= fp - MIN_BLOCK
    requires Prev(m2, Sentinel(h.sent, i)) == Prev(m, Sentinel(h.sent, i))
    ensures var s := Sentinel(h.sent, i); PayloadKept(h.b, m2, Linked4(m2, s, Prev(m2, s), f))
  {
    hide Tags, Threaded, Mapped, Outside, Sentinel, SentinelEnd, IndexOf;
    var s := Sentinel(h.sent, i);
    var p := Prev(m2, s);
    BehindTail(h, m, hdr, l, fp, i);
    var m3 := m2[f + NEXT := s];
    var m4 := m3[f + PREV := p];
    MetaWrite(h.b, m2, hdr + HEADER, f + NEXT, s);
    MetaWrite(h.b, m3, hdr + HEADER, f + PREV, p);
    LinkWrite(h, {hdr + HEADER}, m4, p + NEXT, f);
    LinkWrite(h, {hdr + HEADER}, m4[p + NEXT := f], s + PREV, f);
  }

  /** What the branch promises of its words. */
  ghost predicate BehindDone(h: Heap, m: Memory, m': Memory, hdr: int, l: int, total: int) {
    && UsedAt(h.b, l) && PayloadKept(h.b, m, m')
    && Word(m', hdr) == total + ALLOCATED && Word(m', hdr + LEFT) == h.b[l].size
    && Word(m', l) == h.b[l].size + ALLOCATED
  }

  lemma HeaderStored(h: Heap, m: Memory, hdr: int, l: int, fp: int, total: int)
    requires Branch(h, m, hdr, l, fp)
    ensures BehindDone(h, m, BehindStores(m, hdr, total, h.b[l].size), hdr, l, total)
  {
    BehindWords(h, m, hdr, l, fp);
    BehindKeeps(h, m, hdr, l, fp, total);
  }

  lemma BranchKeeps(h: Heap, m: Memory, hdr: int, l: int, fp: int, total: int, i: int)
    requires Branch(h, m, hdr, l, fp) && total >= MIN_BLOCK && hdr + total <= fp && 0 <= i < N_LISTS
    ensures var m1 := BehindStores(m, hdr, total, h.b[l].size);
      PayloadKept(h.b, m, RestListed(m1, hdr + total, fp - (hdr + total), fp, total, Sentinel(h.sent, i)))
  {
    var m1 := BehindStores(m, hdr, total, h.b[l].size);
    var f, rest := hdr + total, fp - (hdr + total);
    var m2 := RestStores(m1, f, rest, fp, total);
    BehindKeeps(h, m, hdr, l, fp, total);
    RestStoresKeep(h, m, m1, hdr, l, fp, total);
    PayloadTrans(h.b, h.b, m, m1, m2);
    if rest >= MIN_BLOCK {
      var s := Sentinel(h.sent, i);
      BehindTail(h, m, hdr, l, fp, i);
      RestLinksKeep(h, m, m2, hdr, l, fp, f, i);
      PayloadTrans(h.b, h.b, m, m2, Linked4(m2, s, Prev(m2, s), f));
    }
  }

  /** The whole branch, when the request fits in the chunk. */
  lemma BranchStored(h: Heap, m: Memory, hdr: int, l: int, fp: int, total: int, i: int)
    requires Branch(h, m, hdr, l, fp) && total >= MIN_BLOCK && hdr + total <= fp && 0 <= i < N_LISTS
    ensures var m1 := BehindStores(m, hdr, total, h.b[l].size);
      var m2 := RestListed(m1, hdr + total, fp - (hdr + total), fp, total, Sentinel(h.sent, i));
      RestOf(m2, hdr, total, fp) && BehindDone(h, m, m2, hdr, l, total)
  {
    hide Base, Tags, Threaded, Mapped;
    BehindTail(h, m, hdr, l, fp, i);
    BehindWords(h, m, hdr, l, fp);
    RestStored(BehindStores(m, hdr, total, h.b[l].size), hdr, l, fp, total, Sentinel(h.sent, i));
    BranchKeeps(h, m, hdr, l, fp, total, i);
  }

  /** What Grow reports: sbrk failed, the heap grew, or the chunk collided with a live last block and the
      block at hdr was put behind the old fence post; Fault when the stores for it left the chunk. */
  datatype Growth = Exhausted | Grew | Behind(hdr: int) | Fault

  /** What the branch for a collision leaves behind: a block whose left_size is the size of the live block
      before the old fence post. */
  ghost predicate PlacedBehind(h0: Heap, m: Memory, hdr: int, total: int)
    requires h0.last in h0.b
  {
    var l := h0.last - h0.b[h0.last].left;
    && UsedAt(h0.b, l) && hdr == h0.last + HEADER
    && Word(m, hdr) == total + ALLOCATED && Word(m, hdr + LEFT) == h0.b[l].size
    && Word(m, l) == h0.b[l].size + ALLOCATED
  }

  /** All that a colliding call does to memory: when the request does not fit in the chunk, up to the first store
      outside it. */
  ghost predicate Collided(h0: Heap, m0: Memory, m: Memory, total: int)
    requires h0.last in h0.b
  {
    && PlacedBehind(h0, m, h0.last + HEADER, total) && PayloadKept(h0.b, m0, m)
    && (total <= h0.arena - HEADER ==> RestOf(m, h0.last + HEADER, total, h0.last + h0.arena))
  }

  /** What one turn of the growth loop makes of heap h0 and memory m0. */
  ghost predicate GrowOutcome(h0: Heap, m0: Memory, h: Heap, m: Memory, g: Growth, total: int)
    requires Inv(h0)
  {
    && (g == Exhausted <==> !Granting(h0)) && (g == Grew <==> CanGrow(h0))
    && (g == Exhausted ==> h == Denied(h0) && m == m0)
    && (g == Grew ==> h == Grown(h0) && PayloadKept(h0.b, m0, m))
    && (Collides(h0) ==>
          Collided(h0, m0, m, total) && g == if total > h0.arena - HEADER then Fault else Behind(h0.last + HEADER))
  }

  /** The branch is entered when the block before the last fence post is live. */
  lemma EnterBranch(h0: Heap, h: Heap, m: Memory, l: int)
    requires Inv(h0) && Granting(h0) && h0.answers[0] == Grant(h0.last + HEADER) && h == WithChunk(h0, h0.last + HEADER)
    requires Base(h, {h0.last + 2 * HEADER}) && Threaded(m, h.rings) && Mapped(m, h) && Tags(m, h.b)
    requires l == h0.last - h0.b[h0.last].left && UsedAt(h.b, l)
    ensures Collides(h0) && Branch(h, m, h0.last + HEADER, l, h0.last + h0.arena)
  {
    hide Threaded, Mapped, Tags, Core, ListsOk, Accounted, OsOk;
    LastNeighbour(h0);
    GrantVacant(h0);
    ReadLast(h0, h);
  }

  lemma LeaveBranch(h0: Heap, h: Heap, m0: Memory, m1: Memory, m: Memory, total: int)
    requires Inv(h0) && Collides(h0) && h == WithChunk(h0, h0.last + HEADER)
    requires PayloadKept(h0.b, m0, m1)
    requires var l := h0.last - h0.b[h0.last].left; BehindDone(h, m1, m, h0.last + HEADER, l, total)
    requires total <= h0.arena - HEADER ==> RestOf(m, h0.last + HEADER, total, h0.last + h0.arena)
    ensures Collided(h0, m0, m, total)
  {
    hide Base, RestOf;
    ChunkUsed(h0);
    ReadLast(h0, h);
    PayloadTrans(h0.b, h.b, m0, m1, m);
  }

  /** What line 170 and the test of line 172 read. */
  lemma ReadLast(h0: Heap, h: Heap)
    requires Inv(h0) && Granting(h0) && h == WithChunk(h0, h0.answers[0].base)
    ensures var l := h0.last - h0.b[h0.last].left;
      && h0.last in h.b && h.b[h0.last].left == h0.b[h0.last].left
      && l in h0.b && l in h.b && h.b[l] == h0.b[l]
      && (UsedAt(h0.b, l) || FreeAt(h0.b, l))
  {
    LastNeighbour(h0);
    GrantVacant(h0);
  }

  /** Marking the live block a free: its address becomes dead, nothing else about dead addresses changes. */
  lemma FreeStore(h: Heap, m: Memory, a: int)
    requires Base(h, {}) && UsedAt(h.b, a) && Threaded(m, h.rings) && Mapped(m, h) && Tags(m, h.b)
    ensures var m', b' := m[a := h.b[a].size], SetState(h.b, a, Free);
      && a in m && Word(m, a) == h.b[a].size + ALLOCATED && SetStateOf(Word(m, a), UNALLOCATED) == h.b[a].size
      && Base(WithState(h, a, Free), {a}) && Threaded(m', h.rings) && Tags(m', b')
      && PayloadKept(b', m, m') && DeadKept(h.b, m, b', m') && Dead(b', m', a)
  {
    var b', m' := SetState(h.b, a, Free), m[a := h.b[a].size];
    FreeBase(h, a);
    HeaderMapped(h, {}, m, a);
    assert TagAt(m, h.b, a);
    SizeArithmetic(h, {}, a);
    StateWritten(h.b, m, a, Free);
    NotLink(h, {}, a, a);
    ThreadedKept(h, {}, m, m');
    assert PayloadKept(b', m, m') by { MetaWrite(b', m, a, a, h.b[a].size); }
    forall x {:trigger Dead(b', m', x)} | Dead(h.b, m, x) ensures Dead(b', m', x) {
      var c :| DeadIn(h.b, m, c, x);
      assert ApartAt(h.b, c, a) && ApartAt(h.b, a, c);
      assert DeadIn(b', m', c, x);
    }
    assert AlignedAt(h.b, a);
    assert DeadIn(b', m', a, a);
  }

  lemma ReadOne(h: Heap, off: set<int>, m: Memory, a: int)
    requires Base(h, off) && Tags(m, h.b) && Mapped(m, h) && a in h.b
    ensures a in m && a + LEFT in m && SizeIn(Word(m, a)) == h.b[a].size && Word(m, a + LEFT) == h.b[a].left
    ensures StateIn(Word(m, a)) == UNALLOCATED <==> FreeAt(h.b, a)
  {
    HeaderMapped(h, off, m, a);
    assert TagAt(m, h.b, a);
    ReadTag(h, off, m, a);
  }

  /** The words of freelistSentinels, in static storage: zero at first. */
  function Statics(sent: int): Memory {
    map w | sent <= w < SentinelEnd(sent) && w % 8 == 0 :: 0
  }

  lemma InitialMapped(sent: int, arena: int, g: int, answers: seq<Answer>)
    ensures Mapped(WithPages(Statics(sent), g, arena), Initial(sent, arena, g, answers))
  {
    var m, h := WithPages(Statics(sent), g, arena), Initial(sent, arena, g, answers);
    forall w
      ensures w in m <==>
        IsWord(w) && (h.sent <= w < SentinelEnd(h.sent) || GrantedByte(h.granted, h.arena, w))
    {
      assert GrantedAt(h.granted, h.arena, 0, w) <==> g <= w < g + arena;
      assert GrantedByte(h.granted, h.arena, w) <==> g <= w < g + arena;
    }
  }

  lemma InitialTags(m: Memory, g: int, arena: int)
    requires arena >= 528
    ensures Tags(ChunkStores(m, g, arena), AddChunk(map[], g, arena))
  {
    ChunkTags(map[], m, g, arena);
  }

  /** The lists that init links. */
  lemma InitialThreaded(m: Memory, sent: int, arena: int, g: int, answers: seq<Answer>)
    requires g >= SentinelEnd(sent)
    requires forall i {:trigger Sentinel(sent, i)} | 0 <= i < N_LISTS - 1 ::
      Next(m, Sentinel(sent, i)) == Sentinel(sent, i) && Prev(m, Sentinel(sent, i)) == Sentinel(sent, i)
    requires var s := Sentinel(sent, N_LISTS - 1);
      Next(m, s) == g + HEADER && Prev(m, s) == g + HEADER && Next(m, g + HEADER) == s && Prev(m, g + HEADER) == s
    ensures Threaded(m, Initial(sent, arena, g, answers).rings)
  {
    var rings := Initial(sent, arena, g, answers).rings;
    forall i {:trigger RingPtrs(m, rings[i])} | 0 <= i < N_LISTS ensures RingPtrs(m, rings[i]) {
      assert rings[i][0] == Sentinel(sent, i);
    }
  }

  lemma InitialWords(sent: int, arena: int, g: int, answers: seq<Answer>)
    requires g % 8 == 0 && arena % 8 == 0 && arena >= 528
    ensures var h, m := Initial(sent, arena, g, answers), ChunkStores(WithPages(Statics(sent), g, arena), g, arena);
      Mapped(m, h) && Tags(m, h.b)
  {
    InitialMapped(sent, arena, g, answers);
    InitialTags(WithPages(Statics(sent), g, arena), g, arena);
    PagesDomain(Statics(sent), g, arena);
  }

  lemma InitialTagsKept(m: Memory, m': Memory, sent: int, g: int, arena: int)
    requires arena >= 528 && g >= SentinelEnd(sent) && Tags(m, AddChunk(map[], g, arena))
    requires forall w | w >= SentinelEnd(sent) && w != g + HEADER + NEXT && w != g + HEADER + PREV ::
      Word(m', w) == Word(m, w)
    ensures Tags(m', AddChunk(map[], g, arena))
  {
    var b := AddChunk(map[], g, arena);
    forall a {:trigger TagAt(m', b, a)} | a in b ensures TagAt(m', b, a) {
      assert TagAt(m, b, a);
    }
  }

  lemma {:induction false} GotPositive(h: Heap, t: int)
    requires Inv(h) && BlockSize(t)
    ensures var o := Alloc(h, t).1; o.Got? ==> o.addr > 0
    decreases |h.answers|
  {
    var s := Chosen(h, t);
    if s.Nowhere? && CanGrow(h) {
      GrownInv(h);
      GotPositive(Grown(h), t);
    }
  }

  /** The words of a copy of n bytes between two live blocks. */
  lemma CopyPlace(h: Heap, m: Memory, d: int, s: int, n: nat)
    requires Base(h, {}) && Mapped(m, h) && UsedAt(h.b, d) && UsedAt(h.b, s) && d != s
    requires n <= h.b[d].size - HEADER && n <= h.b[s].size - HEADER
    ensures 8 * (n / 8) <= h.b[d].size - HEADER && 8 * (n / 8) <= h.b[s].size - HEADER
    ensures n % 8 > 0 ==> 8 * (n / 8) + 8 <= h.b[d].size - HEADER && 8 * (n / 8) + 8 <= h.b[s].size - HEADER
    ensures s + h.b[s].size <= d || d + h.b[d].size <= s
  {
    assert AlignedAt(h.b, d) && AlignedAt(h.b, s);
    assert ApartAt(h.b, d, s) && ApartAt(h.b, s, d);
  }

  lemma CopyWord(h: Heap, m: Memory, d: int, s: int, k: nat)
    requires Base(h, {}) && Mapped(m, h) && UsedAt(h.b, d) && UsedAt(h.b, s)
    requires 8 * k + 8 <= h.b[d].size - HEADER && 8 * k + 8 <= h.b[s].size - HEADER
    ensures d + HEADER + 8 * k in m && s + HEADER + 8 * k in m && IsWord(d + HEADER + 8 * k)
    ensures Payload(h.b, d, d + HEADER + 8 * k)
  {
    assert AlignedAt(h.b, d) && AlignedAt(h.b, s);
    BlockMapped(h, {}, m, d, d + HEADER + 8 * k);
    BlockMapped(h, {}, m, s, s + HEADER + 8 * k);
  }

  // ---- my_realloc ----

  lemma BytesSame(b: Layout, a: int, m: Memory, m': Memory, j: nat)
    requires PayloadKept(b, m, m') && UsedAt(b, a) && j < b[a].size - HEADER
    ensures ByteAt(m', a + HEADER, j) == ByteAt(m, a + HEADER, j)
  {
    assert Payload(b, a, a + HEADER + 8 * (j / 8));
  }

  /** Heap h1 is h0 with one more live block, d, with room for size bytes. */
  ghost predicate NewBlock(h0: Heap, h1: Heap, d: int, size: int) {
    Inv(h1) && OneMore(h0.b, h1.b, d) && h1.b[d].size - HEADER >= size
  }

  /** The payload of block s has moved to d, new in h1, and s is free: the first bytes are the same, as many as fit,
      and no other live block has changed. */
  ghost predicate Moved(h0: Heap, h1: Heap, h: Heap, m0: Memory, m: Memory, s: int, d: int, size: int)
    requires UsedAt(h0.b, s) && size > 0
  {
    && NewBlock(h0, h1, d, size) && h == Release(h1, s)
    && UsedAt(h.b, d) && h.b[d].size == h1.b[d].size
    && PayloadKept(SetState(h0.b, s, Free), m0, m)
    && (var n := Min(size, h0.b[s].size - HEADER); n >= 0 && BytesCopied(m0, m, d + HEADER, s + HEADER, n))
  }

  /** What my_realloc(ptr, size) does when it returns p. */
  ghost predicate Realloced(h0: Heap, h: Heap, m0: Memory, m: Memory, ptr: int, size: int, p: int)
    requires Inv(h0) && (ptr == NULL || UsedAt(h0.b, ptr - HEADER))
  {
    if size <= 0 then
      && p == NULL
      && (if ptr == NULL then h == h0 && m == m0 else h == Release(h0, ptr - HEADER) && PayloadKept(h.b, m0, m))
    else
      var (h1, o) := Alloc(h0, BlockBytes(size));
      && o == (if p == NULL then Failed else Got(p - HEADER))
      && (if ptr == NULL || p == NULL then h == h1 && PayloadKept(h0.b, m0, m)
          else Moved(h0, h1, h, m0, m, ptr - HEADER, p - HEADER, size))
  }

  lemma StillUsed(h0: Heap, h: Heap, s: int, d: int, size: int)
    requires NewBlock(h0, h, d, size) && UsedAt(h0.b, s)
    ensures UsedAt(h.b, s) && h.b[s].size == h0.b[s].size && s != d && UsedAt(h.b, d)
  {
    assert UsedAt(h0.b, s) == UsedAt(h.b, s);
  }

  lemma MovedBytes(b0: Layout, b3: Layout, m0: Memory, m1: Memory, m2: Memory, m3: Memory, s: int, d: int, n: nat)
    requires PayloadKept(b0, m0, m1) && PayloadKept(b3, m2, m3) && UsedAt(b0, s) && UsedAt(b3, d)
    requires n <= b0[s].size - HEADER && n <= b3[d].size - HEADER
    requires BytesCopied(m1, m2, d + HEADER, s + HEADER, n)
    ensures BytesCopied(m0, m3, d + HEADER, s + HEADER, n)
  {
    var p, q := d + HEADER, s + HEADER;
    forall j: nat | j < n ensures ByteCopied(m0, m3, p, q, j) {
      BytesSame(b0, s, m0, m1, j);
      assert ByteCopied(m1, m2, p, q, j);
      BytesSame(b3, d, m2, m3, j);
    }
  }

  lemma MoveMeaning(h0: Heap, h1: Heap, m0: Memory, m1: Memory, m2: Memory, m3: Memory, s: int, d: int, size: int)
    requires Inv(h0) && UsedAt(h0.b, s) && size > 0 && NewBlock(h0, h1, d, size) && UsedAt(h1.b, s)
    requires PayloadKept(h0.b, m0, m1)
    requires forall w {:trigger Word(m2, w)} | !(d + HEADER <= w < d + h1.b[d].size) :: Word(m2, w) == Word(m1, w)
    requires var n := Min(size, h0.b[s].size - HEADER);
      n >= 0 && BytesCopied(m1, m2, d + HEADER, s + HEADER, n)
    requires PayloadKept(Release(h1, s).b, m2, m3)
    ensures Moved(h0, h1, Release(h1, s), m0, m3, s, d, size)
  {
    var h3 := Release(h1, s);
    var n := Min(size, h0.b[s].size - HEADER);
    ReleaseMeaning(h1, s);
    assert d != s && UsedAt(h0.b, s) == UsedAt(h1.b, s);
    assert FixedAt(h1.b, d) == FixedAt(h3.b, d);
    assert UsedAt(h3.b, d) && h3.b[d].size == h1.b[d].size;
    MovedBytes(h0.b, h3.b, m0, m1, m2, m3, s, d, n);
    var b := SetState(h0.b, s, Free);
    forall a, w {:trigger Payload(b, a, w)} | Payload(b, a, w) ensures Word(m3, w) == Word(m0, w) {
      assert a != s && UsedAt(h0.b, a) && Payload(h0.b, a, w);
      assert a != d && UsedAt(h1.b, a);
      assert ApartAt(h1.b, a, d) && ApartAt(h1.b, d, a);
      assert FixedAt(h1.b, a) == FixedAt(h3.b, a);
      assert Payload(h3.b, a, w);
    }
  }

  // ---- freeing twice ----

  /** A pointer that may be passed to my_free: NULL, live, or freed since. */
  ghost predicate LiveOrDead(b: Layout, m: Memory, q: int) {
    q == NULL || UsedAt(b, q - HEADER) || Dead(b, m, q - HEADER)
  }

  ghost predicate AllLiveOrDead(b: Layout, m: Memory, qs: seq<int>) {
    forall q | q in qs :: LiveOrDead(b, m, q)
  }

  /** What my_free reads at a pointer that is live or dead. */
  lemma ReadDead(h: Heap, m: Memory, q: int)
    requires Inv(h) && Mapped(m, h) && Tags(m, h.b) && LiveOrDead(h.b, m, q)
    ensures q != NULL ==> q - HEADER in m && (StateIn(Word(m, q - HEADER)) == ALLOCATED <==> UsedAt(h.b, q - HEADER))
    ensures Dead(h.b, m, q - HEADER) ==> !UsedAt(h.b, q - HEADER)
  {
    var x := q - HEADER;
    if Dead(h.b, m, x) {
      var a :| DeadIn(h.b, m, a, x);
      BlockMapped(h, {}, m, a, x);
      if x != a { InsideIsFresh(h.b, a, x); }
    } else if q != NULL {
      ReadOne(h, {}, m, x);
      assert TagAt(m, h.b, x);
      ReadTag(h, {}, m, x);
    }
  }

  lemma LiveOrDeadAfter(b: Layout, m: Memory, b': Layout, m': Memory, qs: seq<int>, a: int)
    requires AllLiveOrDead(b, m, qs) && DeadKept(b, m, b', m') && FixedBut(b, b', a) && Dead(b', m', a)
    ensures AllLiveOrDead(b', m', qs)
  {
    forall q | q in qs ensures LiveOrDead(b', m', q) {
      assert LiveOrDead(b, m, q);
      assert q - HEADER != a ==> FixedAt(b, q - HEADER) == FixedAt(b', q - HEADER);
    }
  }

  /** my_free(p) leaves every pointer live or dead that was so before. */
  lemma FreedOrDead(h: Heap, m: Memory, h': Heap, m': Memory, qs: seq<int>, p: int)
    requires Inv(h) && AllLiveOrDead(h.b, m, qs) && DeadKept(h.b, m, h'.b, m')
    requires if p != NULL && UsedAt(h.b, p - HEADER) then h' == Release(h, p - HEADER) && Dead(h'.b, m', p - HEADER)
             else h' == h && m' == m
    ensures AllLiveOrDead(h'.b, m', qs)
  {
    if p != NULL && UsedAt(h.b, p - HEADER) {
      ReleaseMeaning(h, p - HEADER);
      LiveOrDeadAfter(h.b, m, h'.b, m', qs, p - HEADER);
    }
  }
}
