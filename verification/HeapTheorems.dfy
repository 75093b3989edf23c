/** What malloc and free mean for the layout of the heap, over single calls and over whole runs. */
module HeapTheorems {
  import opened HeapLayout
  import opened LayoutTheorems
  import opened FreeLists
  import opened HeapModel

  // ---- what one call does to the live blocks ----

  /** The fence posts and live blocks of b' are those of b, but for the address a. */
  ghost predicate FixedBut(b: Layout, b': Layout, a: int) {
    forall x {:trigger FixedAt(b, x)} {:trigger FixedAt(b', x)} | x != a ::
      && FixedAt(b, x) == FixedAt(b', x)
      && (FixedAt(b, x) ==> b[x].size == b'[x].size && b[x].state == b'[x].state)
  }

  lemma SetStateFixed(b: Layout, a: int, s: State)
    requires a in b
    ensures FixedBut(b, SetState(b, a, s), a)
  {
  }

  /** Carving makes one block live, at an address that was free, with room for the request and less than
      32 bytes to spare. */
  lemma PlaceMeaning(h: Heap, a: int, t: int)
    requires Inv(h) && Carvable(h, a, t)
    ensures var b' := Place(h, a, t).b;
      FixedBut(h.b, b', a) && FreeAt(h.b, a) && UsedAt(b', a) && t <= b'[a].size < t + MIN_BLOCK
  {
    var b' := Place(h, a, t).b;
    if h.b[a].size - t >= MIN_BLOCK {
      SplitSameFixed(h.b, a, t);
      SetStateFixed(Split(h.b, a, t), a, Used);
    } else {
      SetStateFixed(h.b, a, Used);
    }
  }

  /** Freeing makes one block not live and leaves every other live block and every fence post. */
  lemma ReleaseMeaning(h: Heap, a: int)
    requires Inv(h) && UsedAt(h.b, a)
    ensures var b' := Release(h, a).b; FixedBut(h.b, b', a) && !FixedAt(b', a)
  {
    FreedLoose(h, a);
    SetStateFixed(h.b, a, Free);
    SettleFixed(WithState(h, a, Free), a);
    assert !FixedAt(WithState(h, a, Free).b, a);
  }

  lemma JoinRightFixed(h: Heap, a: int)
    requires Loose(h, a)
    ensures SameFixed(h.b, JoinRight(h, a).b)
  {
    if FreeAt(h.b, a + h.b[a].size) {
      AbsorbSameFixed(h.b, a);
      assert JoinRight(h, a).b == Absorb(h.b, a);
    }
  }

  lemma JoinLeftFixed(h: Heap, a: int)
    requires Loose(h, a)
    ensures SameFixed(h.b, JoinLeft(h, a).b)
  {
    hide Core;
    var l := a - h.b[a].left;
    if FreeAt(h.b, l) {
      LeftNeighbour(h, {a}, a);
      AbsorbSameFixed(h.b, l);
      assert JoinLeft(h, a).b == Absorb(h.b, l);
    }
  }

  lemma SettleFixed(h: Heap, a: int)
    requires Loose(h, a)
    ensures SameFixed(h.b, Settle(h, a).b)
  {
    JoinRightLoose(h, a);
    var h1 := JoinRight(h, a);
    JoinRightFixed(h, a);
    JoinLeftLoose(h1, a);
    JoinLeftFixed(h1, a);
    SameFixedTrans(h.b, h1.b, JoinLeft(h1, a).b);
  }

  lemma SameFixedTrans(b0: Layout, b1: Layout, b2: Layout)
    requires SameFixed(b0, b1) && SameFixed(b1, b2)
    ensures SameFixed(b0, b2)
  {
    forall a {:trigger FixedAt(b0, a)} {:trigger FixedAt(b2, a)}
      ensures FixedAt(b0, a) == FixedAt(b2, a)
      ensures FixedAt(b0, a) ==> b0[a].size == b2[a].size && b0[a].state == b2[a].state
    {
      assert FixedAt(b0, a) == FixedAt(b1, a);
    }
  }

  /** The live blocks of b' are those of b and the block a, which was not live in b. */
  ghost predicate OneMore(b: Layout, b': Layout, a: int) {
    && UsedAt(b', a) && !UsedAt(b, a)
    && forall x {:trigger UsedAt(b, x)} {:trigger UsedAt(b', x)} | x != a ::
      UsedAt(b, x) == UsedAt(b', x) && (UsedAt(b, x) ==> b[x].size == b'[x].size)
  }

  /** Growing changes no live block. */
  lemma ExtendUsed(b: Layout, last: int, arena: int)
    requires Core(b) && last in b && b[last].state == RightFence && FreeAt(b, last - b[last].left)
    requires Vacant(b, last + HEADER, last + HEADER + arena) && arena >= 64
    ensures SameUsed(b, Extend(b, last, arena))
  {
  }

  lemma AddChunkUsed(b: Layout, g: int, arena: int)
    requires Core(b) && Vacant(b, g, g + arena) && arena >= 64
    ensures SameUsed(b, AddChunk(b, g, arena))
  {
  }

  ghost predicate SameUsed(b: Layout, b': Layout) {
    forall x {:trigger UsedAt(b, x)} {:trigger UsedAt(b', x)} ::
      UsedAt(b, x) == UsedAt(b', x) && (UsedAt(b, x) ==> b[x].size == b'[x].size)
  }

  lemma GrownUsed(h: Heap)
    requires Inv(h) && CanGrow(h)
    ensures SameUsed(h.b, Grown(h).b)
  {
    hide Core, Coalesced, Grown, Extend, AddChunk;
    LastNeighbour(h);
    GrantVacant(h);
    GrownLayout(h);
    if h.answers[0].base == h.last + HEADER {
      ExtendUsed(h.b, h.last, h.arena);
    } else {
      AddChunkUsed(h.b, h.answers[0].base, h.arena);
    }
  }

  /** malloc makes exactly one more block live, 8-aligned, with room for the request and less than 32 bytes
      to spare, or, when sbrk fails, none. */
  lemma {:induction false} AllocMeaning(h: Heap, t: int)
    requires Inv(h) && BlockSize(t) && !CollidesFor(h, t)
    ensures var (h', o) := Alloc(h, t);
      && (o.Got? ==> OneMore(h.b, h'.b, o.addr) && t <= h'.b[o.addr].size < t + 32 && o.addr % 8 == 0)
      && (o.Failed? ==> SameUsed(h.b, h'.b))
      && !o.Collision?
    decreases |h.answers|
  {
    var s := Chosen(h, t);
    if s.At? {
      PlaceMeaning(h, s.addr, t);
      PlaceOneMore(h.b, Place(h, s.addr, t).b, s.addr);
      assert AlignedAt(h.b, s.addr);
    } else if CanGrow(h) {
      GrownInv(h);
      GrownUsed(h);
      GrownNoCollision(h);
      AllocMeaning(Grown(h), t);
      var (h', o) := Alloc(Grown(h), t);
      if o.Got? {
        OneMoreFrom(h.b, Grown(h).b, h'.b, o.addr);
      }
    }
  }

  /** The block that malloc returns overlaps no block that was live before. */
  lemma ReturnedApart(h: Heap, t: int, a: int)
    requires Inv(h) && BlockSize(t) && !CollidesFor(h, t) && UsedAt(h.b, a)
    ensures var (h', o) := Alloc(h, t);
      o.Got? ==> UsedAt(h'.b, o.addr) && (a + h.b[a].size <= o.addr || o.addr + h'.b[o.addr].size <= a)
  {
    AllocMeaning(h, t);
    AllocInv(h, t);
    var (h', o) := Alloc(h, t);
    if o.Got? {
      assert UsedAt(h.b, a) == UsedAt(h'.b, a) && a != o.addr;
      assert ApartAt(h'.b, a, o.addr) && ApartAt(h'.b, o.addr, a);
    }
  }

  lemma PlaceOneMore(b: Layout, b': Layout, a: int)
    requires FixedBut(b, b', a) && FreeAt(b, a) && UsedAt(b', a)
    ensures OneMore(b, b', a)
  {
    forall x {:trigger UsedAt(b, x)} {:trigger UsedAt(b', x)} | x != a
      ensures UsedAt(b, x) == UsedAt(b', x) && (UsedAt(b, x) ==> b[x].size == b'[x].size)
    {
      assert FixedAt(b, x) == FixedAt(b', x);
    }
  }

  lemma OneMoreFrom(b0: Layout, b1: Layout, b2: Layout, a: int)
    requires SameUsed(b0, b1) && OneMore(b1, b2, a)
    ensures OneMore(b0, b2, a)
  {
    forall x {:trigger UsedAt(b0, x)} {:trigger UsedAt(b2, x)} | x != a
      ensures UsedAt(b0, x) == UsedAt(b2, x) && (UsedAt(b0, x) ==> b0[x].size == b2[x].size)
    {
      assert UsedAt(b1, x) == UsedAt(b0, x);
    }
    assert UsedAt(b0, a) == UsedAt(b1, a);
  }

  /** malloc fails only after an sbrk that failed; every sbrk before that one succeeded. */
  lemma {:induction false} FailsOnlyWithoutMemory(h: Heap, t: int)
    requires Inv(h) && BlockSize(t) && Alloc(h, t).1.Failed?
    ensures var k := |Alloc(h, t).0.granted| - |h.granted|;
      && 0 <= k <= |h.answers| && (k == |h.answers| || h.answers[k].NoMemory?)
      && forall j | 0 <= j < k :: h.answers[j].Grant?
    decreases |h.answers|
  {
    hide Base, Coalesced, Collides, Grown, Place, Search;
    if CanGrow(h) {
      GrownInv(h);
      GrownAnswers(h);
      FailsOnlyWithoutMemory(Grown(h), t);
      var k := |Alloc(h, t).0.granted| - |h.granted|;
      forall j | 0 <= j < k ensures h.answers[j].Grant? {
        assert j > 0 ==> h.answers[j] == h.answers[1..][j - 1];
      }
    }
  }

  lemma GrownAnswers(h: Heap)
    requires Inv(h) && CanGrow(h)
    ensures h.answers[0].Grant? && Grown(h).answers == h.answers[1..] && |Grown(h).granted| == |h.granted| + 1
  {
  }

  // ---- round trips and the order of frees ----

  /** Freeing the block that a malloc without sbrk has just returned restores the layout: every address,
      size, left size and state. */
  lemma MallocFreeRestores(h: Heap, t: int)
    requires Inv(h) && BlockSize(t) && Chosen(h, t).At?
    ensures var (h', o) := Alloc(h, t);
      o.Got? && Inv(h') && UsedAt(h'.b, o.addr) && Release(h', o.addr).b == h.b
  {
    var a := Chosen(h, t).addr;
    var h1 := Place(h, a, t);
    PlaceInv(h, a, t);
    PlaceMeaning(h, a, t);
    ReleaseInv(h1, a);
    ReleaseMeaning(h1, a);
    var h2 := Release(h1, a);
    FixedBack(h.b, h1.b, h2.b, a);
    CanonicalLayout(h.b, h2.b);
  }

  lemma FixedBack(b0: Layout, b1: Layout, b2: Layout, a: int)
    requires FixedBut(b0, b1, a) && FixedBut(b1, b2, a) && !FixedAt(b0, a) && !FixedAt(b2, a)
    ensures SameFixed(b0, b2)
  {
    forall x {:trigger FixedAt(b0, x)} {:trigger FixedAt(b2, x)}
      ensures FixedAt(b0, x) == FixedAt(b2, x)
      ensures FixedAt(b0, x) ==> b0[x].size == b2[x].size && b0[x].state == b2[x].state
    {
      if x != a {
        assert FixedAt(b0, x) == FixedAt(b1, x);
      }
    }
  }

  ghost predicate AllLive(b: Layout, s: seq<int>) {
    Distinct(s) && forall x | x in s :: UsedAt(b, x)
  }

  lemma ReleaseLive(h: Heap, s: seq<int>)
    requires Inv(h) && s != [] && AllLive(h.b, s)
    ensures Inv(Release(h, s[0])) && AllLive(Release(h, s[0]).b, s[1..])
  {
    ReleaseInv(h, s[0]);
    ReleaseMeaning(h, s[0]);
    var h' := Release(h, s[0]);
    forall x | x in s[1..] ensures UsedAt(h'.b, x) {
      assert x in s && x != s[0] && FixedAt(h.b, x);
    }
  }

  /** Freeing the blocks s one after the other. */
  ghost function ReleaseAll(h: Heap, s: seq<int>): Heap
    requires Inv(h) && AllLive(h.b, s)
    decreases |s|
  {
    if s == [] then h else
      ReleaseLive(h, s);
      ReleaseAll(Release(h, s[0]), s[1..])
  }

  /** The fence posts and live blocks of b' are those of b outside s. */
  ghost predicate FixedOutside(b: Layout, b': Layout, s: seq<int>) {
    forall x {:trigger FixedAt(b, x)} {:trigger FixedAt(b', x)} ::
      && FixedAt(b', x) == (FixedAt(b, x) && x !in s)
      && (FixedAt(b', x) ==> b[x].size == b'[x].size && b[x].state == b'[x].state)
  }

  lemma {:induction false} ReleaseAllMeaning(h: Heap, s: seq<int>)
    requires Inv(h) && AllLive(h.b, s)
    ensures Inv(ReleaseAll(h, s)) && FixedOutside(h.b, ReleaseAll(h, s).b, s)
    decreases |s|
  {
    if s != [] {
      ReleaseLive(h, s);
      ReleaseMeaning(h, s[0]);
      var h1 := Release(h, s[0]);
      ReleaseAllMeaning(h1, s[1..]);
      var b' := ReleaseAll(h, s).b;
      forall x {:trigger FixedAt(h.b, x)} {:trigger FixedAt(b', x)}
        ensures FixedAt(b', x) == (FixedAt(h.b, x) && x !in s)
        ensures FixedAt(b', x) ==> h.b[x].size == b'[x].size && h.b[x].state == b'[x].state
      {
        assert FixedAt(h1.b, x) == (FixedAt(h.b, x) && x != s[0]);
        assert x in s <==> x == s[0] || x in s[1..];
      }
    }
  }

  /** The order in which blocks are freed does not matter for the layout. */
  lemma FreeOrderIrrelevant(h: Heap, s1: seq<int>, s2: seq<int>)
    requires Inv(h) && AllLive(h.b, s1) && AllLive(h.b, s2)
    requires forall x :: x in s1 <==> x in s2
    ensures ReleaseAll(h, s1).b == ReleaseAll(h, s2).b
  {
    ReleaseAllMeaning(h, s1);
    ReleaseAllMeaning(h, s2);
    var b1, b2 := ReleaseAll(h, s1).b, ReleaseAll(h, s2).b;
    forall x {:trigger FixedAt(b1, x)} {:trigger FixedAt(b2, x)}
      ensures FixedAt(b1, x) == FixedAt(b2, x)
      ensures FixedAt(b1, x) ==> b1[x].size == b2[x].size && b1[x].state == b2[x].state
    {
      assert FixedAt(b1, x) == (FixedAt(h.b, x) && x !in s1);
    }
    CanonicalLayout(b1, b2);
  }

  /** Freeing all live blocks, in any order, leaves one free block between the fence posts of every region. */
  lemma FreeAllLeavesOneBlock(h: Heap, s: seq<int>, f: int)
    requires Inv(h) && AllLive(h.b, s) && forall x | UsedAt(h.b, x) :: x in s
    requires f in h.b && h.b[f].state == LeftFence
    ensures var b := ReleaseAll(h, s).b;
      && f in b && FreeAt(b, f + HEADER)
      && (var r := f + HEADER + b[f + HEADER].size; r in b && b[r].state == RightFence)
  {
    ReleaseAllMeaning(h, s);
    NothingLive(h.b, ReleaseAll(h, s).b, s, f);
    OneFreeBlockPerRegion(ReleaseAll(h, s).b, f);
  }

  lemma NothingLive(b: Layout, b': Layout, s: seq<int>, f: int)
    requires FixedOutside(b, b', s) && AllLive(b, s) && forall x | UsedAt(b, x) :: x in s
    requires f in b && b[f].state == LeftFence
    ensures forall a :: !UsedAt(b', a)
    ensures f in b' && b'[f].state == LeftFence
  {
    forall a ensures !UsedAt(b', a) {
      assert FixedAt(b', a) == (FixedAt(b, a) && a !in s);
    }
    assert !UsedAt(b, f) && FixedAt(b', f) == (FixedAt(b, f) && f !in s);
  }

  // ---- the search ----

  /** When no node of list i fits, no free block of that size class is large enough. */
  lemma NoneFits(b: Layout, sent: int, rings: Rings, t: int, i: nat)
    requires ListsOk(b, sent, rings, {}) && i < N_LISTS && Above(b, sent) && |rings[i]| > 0
    requires FirstFit(b, rings[i], t, 1) == |rings[i]|
    ensures forall a | FreeAt(b, a) && IndexOf(b[a].size) == i :: b[a].size < t
  {
    assert RingOk(b, sent, rings[i], i, {});
    forall a | FreeAt(b, a) && IndexOf(b[a].size) == i ensures b[a].size < t {
      assert Listed(b, {}, a);
      var k :| 0 <= k < |rings[i]| && rings[i][k] == a;
      assert a != rings[i][0];
      assert !Fits(b, rings[i][k], t);
    }
  }

  /** The search finds a block whenever a free block is large enough. */
  lemma {:induction false} SearchFinds(b: Layout, sent: int, rings: Rings, t: int, i: nat, a: int)
    requires ListsOk(b, sent, rings, {}) && i <= N_LISTS && Above(b, sent)
    requires forall j | 0 <= j < N_LISTS :: |rings[j]| > 0
    requires FreeAt(b, a) && b[a].size >= t && IndexOf(b[a].size) >= i
    ensures Search(b, rings, t, i).At?
    decreases N_LISTS - i
  {
    if FirstFit(b, rings[i], t, 1) == |rings[i]| {
      NoneFits(b, sent, rings, t, i);
      SearchFinds(b, sent, rings, t, i + 1, a);
    }
  }

  /** The block found is on the first list, from list i on, with a fitting block; no earlier node of it fits. */
  lemma {:induction false} SearchFirst(b: Layout, sent: int, rings: Rings, t: int, i: nat)
    requires ListsOk(b, sent, rings, {}) && i <= N_LISTS && Above(b, sent)
    requires forall j | 0 <= j < N_LISTS :: |rings[j]| > 0
    requires Search(b, rings, t, i).At?
    ensures var c := Search(b, rings, t, i).addr;
      && FreeAt(b, c) && b[c].size >= t
      && (forall a | FreeAt(b, a) && b[a].size >= t && IndexOf(b[a].size) >= i ::
            IndexOf(b[a].size) >= IndexOf(b[c].size))
      && (var q := rings[IndexOf(b[c].size)];
          exists p :: 1 <= p < |q| && q[p] == c && forall k | 1 <= k < p :: !Fits(b, q[k], t))
    decreases N_LISTS - i
  {
    assert RingOk(b, sent, rings[i], i, {});
    var p := FirstFit(b, rings[i], t, 1);
    if p < |rings[i]| {
      assert rings[i][p] in rings[i];
    } else {
      NoneFits(b, sent, rings, t, i);
      SearchFirst(b, sent, rings, t, i + 1);
    }
  }

  /** allocate_object finds a block exactly when some free block is large enough. */
  lemma SearchComplete(h: Heap, t: int)
    requires Inv(h) && BlockSize(t)
    ensures Chosen(h, t).At? <==> exists a :: FreeAt(h.b, a) && h.b[a].size >= t
  {
    RingsNonempty(h);
    if a :| FreeAt(h.b, a) && h.b[a].size >= t {
      IndexMonotone(t, h.b[a].size);
      SearchFinds(h.b, h.sent, h.rings, t, IndexOf(t), a);
    }
  }

  /** Best fit below the last list: the block found has the least sufficient size in the whole heap, and it is
      the head of its list, the one that has been there longest.  On the last list it is the first that fits. */
  lemma BestFit(h: Heap, t: int)
    requires Inv(h) && BlockSize(t) && Chosen(h, t).At?
    ensures var c := Chosen(h, t).addr;
      var q := h.rings[IndexOf(h.b[c].size)];
      && (IndexOf(h.b[c].size) < N_LISTS - 1 ==>
           |q| > 1 && q[1] == c && forall a | FreeAt(h.b, a) && h.b[a].size >= t :: h.b[c].size <= h.b[a].size)
      && exists p :: 1 <= p < |q| && q[p] == c && forall k | 1 <= k < p :: !Fits(h.b, q[k], t)
  {
    RingsNonempty(h);
    SearchFirst(h.b, h.sent, h.rings, t, IndexOf(t));
    var c := Chosen(h, t).addr;
    var i := IndexOf(h.b[c].size);
    var q := h.rings[i];
    if i < N_LISTS - 1 {
      SizeOnList(h, c);
      forall a | FreeAt(h.b, a) && h.b[a].size >= t ensures h.b[c].size <= h.b[a].size {
        IndexMonotone(t, h.b[a].size);
        if IndexOf(h.b[a].size) == i { SizeOnList(h, a); }
      }
      var p :| 1 <= p < |q| && q[p] == c && forall k | 1 <= k < p :: !Fits(h.b, q[k], t);
      assert RingOk(h.b, h.sent, q, i, {});
      assert q[1] in q && q[1] != q[0];
      SizeOnList(h, q[1]);
      assert p > 1 ==> !Fits(h.b, q[1], t);
    }
  }

  lemma SizeOnList(h: Heap, a: int)
    requires Inv(h) && FreeAt(h.b, a) && IndexOf(h.b[a].size) < N_LISTS - 1
    ensures h.b[a].size == MIN_BLOCK + 8 * IndexOf(h.b[a].size)
  {
    assert AlignedAt(h.b, a);
    IndexExact(h.b[a].size);
  }

  // ---- which block malloc takes ----

  ghost predicate SomeFits(h: Heap, t: int) {
    exists a :: FreeAt(h.b, a) && h.b[a].size >= t
  }

  /** The free block c serves t bytes as malloc promises.  Up to 488 bytes, where each list holds one size, it has the
      least sufficient size of all free blocks and is first on its list; beyond that, no block of such a list
      suffices and it is the first on the last list that does. */
  ghost predicate BestFitting(h: Heap, c: int, t: int)
    requires |h.rings| == 59
  {
    && FreeAt(h.b, c) && h.b[c].size >= t
    && if h.b[c].size <= 488 then
         && (forall a | FreeAt(h.b, a) && h.b[a].size >= t :: h.b[c].size <= h.b[a].size)
         && |h.rings[IndexOf(h.b[c].size)]| > 1 && h.rings[IndexOf(h.b[c].size)][1] == c
       else
         && (forall a | FreeAt(h.b, a) && h.b[a].size >= t :: h.b[a].size > 488)
         && exists p :: 1 <= p < |h.rings[58]| && h.rings[58][p] == c && forall k | 1 <= k < p ::
              !(h.rings[58][k] in h.b && h.b[h.rings[58][k]].size >= t)
  }

  lemma ChosenFits(h: Heap, t: int)
    requires Inv(h) && BlockSize(t) && Chosen(h, t).At?
    ensures |h.rings| == 59 && BestFitting(h, Chosen(h, t).addr, t)
  {
    BestFit(h, t);
    RingsNonempty(h);
    SearchFirst(h.b, h.sent, h.rings, t, IndexOf(t));
    var c := Chosen(h, t).addr;
    if IndexOf(h.b[c].size) < 58 {
      SizeOnList(h, c);
    } else {
      var q := h.rings[58];
      var p :| 1 <= p < |q| && q[p] == c && forall k | 1 <= k < p :: !Fits(h.b, q[k], t);
      assert forall k | 1 <= k < p :: !(q[k] in h.b && h.b[q[k]].size >= t);
      forall a | FreeAt(h.b, a) && h.b[a].size >= t ensures h.b[a].size > 488 {
        IndexMonotone(t, h.b[a].size);
      }
    }
  }

  /** Growing k times, each time because nothing fits, makes g of h, in which something does. */
  ghost predicate GrowsUntilFit(h: Heap, t: int, k: nat, g: Heap)
    decreases k
  {
    if SomeFits(h, t) then k == 0 && g == h
    else k > 0 && Inv(h) && CanGrow(h) && GrowsUntilFit(Grown(h), t, k - 1, g)
  }

  /** malloc succeeds whenever a free block is large enough, without sbrk, and otherwise as soon as the heap has grown
      until one is; of the blocks there are then it takes the best fit. */
  lemma {:induction false} AllocTakesBestFit(h: Heap, t: int) returns (k: nat, g: Heap)
    requires Inv(h) && BlockSize(t) && (SomeFits(h, t) || Alloc(h, t).1.Got?)
    ensures Alloc(h, t).1.Got? && GrowsUntilFit(h, t, k, g)
    ensures |g.rings| == 59 && BestFitting(g, Alloc(h, t).1.addr, t)
    ensures FixedBut(g.b, Alloc(h, t).0.b, Alloc(h, t).1.addr)
    ensures |Alloc(h, t).0.granted| == |h.granted| + k
    decreases |h.answers|
  {
    hide Base, Coalesced, Grown, Collides, BestFitting, FixedBut, Place;
    SearchComplete(h, t);
    if Chosen(h, t).At? {
      ChosenFits(h, t);
      PlaceMeaning(h, Chosen(h, t).addr, t);
      PlaceGranted(h, Chosen(h, t).addr, t);
      k, g := 0, h;
    } else {
      GrownInv(h);
      GrownAnswers(h);
      k, g := AllocTakesBestFit(Grown(h), t);
      k := k + 1;
    }
  }

  lemma PlaceGranted(h: Heap, a: int, t: int)
    requires Inv(h) && Carvable(h, a, t)
    ensures Place(h, a, t).granted == h.granted
  {
  }

  // What malloc promises of the block at c.
  ghost predicate Served(h: Heap, t: int, c: int) {
    exists k: nat, g :: GrowsUntilFit(h, t, k, g) && |g.rings| == 59 && BestFitting(g, c, t)
  }

  lemma AllocServes(h: Heap, t: int)
    requires Inv(h) && BlockSize(t)
    ensures SomeFits(h, t) ==> !CollidesFor(h, t) && Alloc(h, t).1.Got?
    ensures |h.rings| == 59 && (Alloc(h, t).1.Got? ==> Served(h, t, Alloc(h, t).1.addr))
    ensures Alloc(h, t).1.Got? && SomeFits(h, t) ==> BestFitting(h, Alloc(h, t).1.addr, t)
  {
    RingsNonempty(h);
    SearchComplete(h, t);
    if SomeFits(h, t) || Alloc(h, t).1.Got? {
      var k, g := AllocTakesBestFit(h, t);
    }
  }

  // ---- first freed, first used ----

  /** A block freed between blocks that are not free goes to the end of the list of its size; no other list changes. */
  lemma FreedGoesLast(h: Heap, a: int)
    requires Inv(h) && UsedAt(h.b, a) && !FreeAt(h.b, a + h.b[a].size) && !FreeAt(h.b, a - h.b[a].left)
    ensures |h.rings| == 59
    ensures var (r, i) := (Release(h, a), IndexOf(h.b[a].size));
      r.rings == h.rings[i := h.rings[i] + [a]] && r.b == SetState(h.b, a, Free)
  {
    hide IndexOf, Core, Absorb, Accounted, OsOk;
    RingsNonempty(h);
    FreedLoose(h, a);
    var h1 := WithState(h, a, Free);
    RightNeighbour(h1, {a}, a);
    LeftNeighbour(h1, {a}, a);
    hide Base;
    assert JoinRight(h1, a) == h1;
    assert JoinLeft(h1, a) == h1;
  }

  // A list from which x is gone, the others in their order, and at whose end y stands.
  ghost predicate MovedOn(q: seq<int>, q': seq<int>, x: int, y: int) {
    exists k :: 0 <= k < |q| && q[k] == x && q' == q[..k] + q[k + 1..] + [y]
  }

  /** The remainder of a block that malloc has cut goes to the end of the list of its size. */
  lemma RemainderGoesLast(h: Heap, a: int, t: int)
    requires Inv(h) && Carvable(h, a, t) && h.b[a].size - t >= 32
    ensures |h.rings| == 59
    ensures var (i, j, r) := (IndexOf(h.b[a].size), IndexOf(h.b[a].size - t), Place(h, a, t).rings);
      && |r| == 59 && (forall k | 0 <= k < 59 && k != i && k != j :: r[k] == h.rings[k])
      && if i == j then MovedOn(h.rings[i], r[i], a, a + t) else r[j] == h.rings[j] + [a + t]
  {
    hide IndexOf, Accounted, OsOk, Aligned;
    RingsNonempty(h);
    assert RightOk(h.b, a);
    InsideIsFresh(h.b, a, a + t);
    assert Listed(h.b, {}, a);
    assert RingOk(h.b, h.sent, h.rings[IndexOf(h.b[a].size)], IndexOf(h.b[a].size), {});
    DelistedRing(h.rings[IndexOf(h.b[a].size)], a);
  }

  lemma DelistedRing(q: seq<int>, a: int)
    requires Distinct(q) && a in q
    ensures exists k :: 0 <= k < |q| && q[k] == a && Without(q, a) == q[..k] + q[k + 1..]
  {
    var k :| 0 <= k < |q| && q[k] == a;
    WithoutAt(q, k);
  }

  /** A chunk that is not contiguous with the last one goes to the end of the last list. */
  lemma ChunkGoesLast(h: Heap)
    requires Inv(h) && CanGrow(h) && h.answers[0].base != h.last + HEADER
    ensures |h.rings| == 59 && Grown(h).rings == h.rings[58 := h.rings[58] + [h.answers[0].base + 16]]
  {
    hide Core, Accounted, OsOk, ListsOk;
    RingsNonempty(h);
    LastNeighbour(h);
    assert IndexOf(h.arena - 32) == 58;
  }

  // The neighbours of a are not free.
  ghost predicate Alone(b: Layout, a: int)
    requires a in b
  {
    !FreeAt(b, a + b[a].size) && !FreeAt(b, a - b[a].left)
  }

  /** Two blocks of one size, up to 488 bytes, freed one after the other: the next malloc of that size returns the one
      that was freed first. */
  lemma FirstFreedFirstUsed(h: Heap, a: int, b: int)
    requires Inv(h) && UsedAt(h.b, a) && UsedAt(h.b, b) && a != b && h.b[a].size == h.b[b].size <= 488
    requires forall x | FreeAt(h.b, x) :: h.b[x].size != h.b[a].size
    requires Alone(h.b, a) && Alone(h.b, b) && a + h.b[a].size != b && b + h.b[b].size != a
    ensures var t := h.b[a].size;
      BlockSize(t) && Inv(Release(h, a)) && UsedAt(Release(h, a).b, b) && Inv(Release(Release(h, a), b))
      && Alloc(Release(Release(h, a), b), t).1 == Got(a)
  {
    hide Base, Alone, Coalesced, IndexOf, Alloc, Core;
    var t := h.b[a].size;
    SizeOfLive(h, a);
    StaysAlone(h, a, b);
    hide Base, Alone, Coalesced;
    var i := IndexOf(t);
    OnlySentinel(h, i, t);
    FreedGoesLast(h, a) by { AloneMeans(h.b, a); }
    ReleaseInv(h, a);
    var h1 := Release(h, a);
    FreedGoesLast(h1, b) by { AloneMeans(h1.b, b); }
    ReleaseInv(h1, b);
    OldestTaken(h, Release(h1, b), a, b, t);
  }

  lemma AloneMeans(b: Layout, a: int)
    requires a in b
    ensures Alone(b, a) <==> !FreeAt(b, a + b[a].size) && !FreeAt(b, a - b[a].left)
  {
  }

  lemma OldestTaken(h: Heap, h2: Heap, a: int, b: int, t: int)
    requires Inv(h2) && BlockSize(t) && t <= 488 && FreeAt(h2.b, a) && h2.b[a].size == t
    requires |h.rings| == |h2.rings| == 59 && |h.rings[IndexOf(t)]| == 1
    requires h2.rings[IndexOf(t)] == h.rings[IndexOf(t)] + [a] + [b]
    ensures Alloc(h2, t).1 == Got(a)
  {
    hide Base, Coalesced, Alloc;
    assert SomeFits(h2, t);
    AllocServes(h2, t);
    var c := Alloc(h2, t).1.addr;
    assert h2.b[c].size == t;
    assert h2.rings[IndexOf(t)][1] == a;
  }

  lemma SizeOfLive(h: Heap, a: int)
    requires Inv(h) && UsedAt(h.b, a)
    ensures BlockSize(h.b[a].size)
    ensures h.b[a].size <= 488 ==> IndexOf(h.b[a].size) < 58 && h.b[a].size == 32 + 8 * IndexOf(h.b[a].size)
  {
    assert AlignedAt(h.b, a);
    if h.b[a].size <= 488 {
      IndexMonotone(h.b[a].size, 488);
      IndexExact(h.b[a].size);
    }
  }

  lemma StaysAlone(h: Heap, a: int, b: int)
    requires Inv(h) && UsedAt(h.b, a) && UsedAt(h.b, b) && a != b && Alone(h.b, b)
    requires a + h.b[a].size != b && b + h.b[b].size != a
    ensures b - h.b[b].left != a && Alone(SetState(h.b, a, Free), b)
  {
    assert LeftOk(h.b, b);
  }

  lemma OnlySentinel(h: Heap, i: nat, t: int)
    requires Inv(h) && i < 58 && t == 32 + 8 * i && forall x | FreeAt(h.b, x) :: h.b[x].size != t
    ensures |h.rings| == 59 && |h.rings[i]| == 1
  {
    var q := h.rings[i];
    assert RingOk(h.b, h.sent, q, i, {});
    if |q| > 1 {
      assert q[1] in q && q[1] != q[0];
      SizeOnList(h, q[1]);
    }
  }

  // ---- the growth loop ----

  /** sbrk's next n answers are chunks that follow each other from base on. */
  ghost predicate Contiguous(answers: seq<Answer>, base: int, arena: int, n: nat) {
    n == 0 || (|answers| > 0 && answers[0] == Grant(base) && Contiguous(answers[1..], base + arena, arena, n - 1))
  }

  /** l is the free block before lastFencePost, and no other free block has t bytes. */
  ghost predicate OnlyCandidate(h: Heap, l: int, t: int)
    requires h.last in h.b
  {
    && l == h.last - h.b[h.last].left && FreeAt(h.b, l)
    && forall a | FreeAt(h.b, a) && a != l :: h.b[a].size < t
  }

  lemma ExtendedCandidate(h: Heap, l: int, t: int)
    requires Inv(h) && OnlyCandidate(h, l, t) && |h.answers| > 0 && h.answers[0] == Grant(h.last + HEADER)
    ensures CanGrow(h) && Inv(Grown(h)) && OnlyCandidate(Grown(h), l, t)
    ensures Grown(h).b[l].size == h.b[l].size + h.arena
    ensures Grown(h).last == h.last + h.arena && Grown(h).answers == h.answers[1..] && Grown(h).arena == h.arena
    ensures |Grown(h).granted| == |h.granted| + 1
  {
    hide IndexOf, Accounted, OsOk, Core, ListsOk;
    GrownInv(h);
    GrantVacant(h);
    LastNeighbour(h);
    var b' := Grown(h).b;
    assert b' == Extend(h.b, h.last, h.arena);
    forall a | FreeAt(b', a) && a != l ensures b'[a].size < t {
      assert FreeAt(h.b, a);
    }
  }

  lemma LeastStep(s: int, arena: int, k: int)
    ensures s + k * arena == s + arena + (k - 1) * arena
  {
  }

  /** With contiguous chunks, and the free block of s bytes at the end of the heap as the only candidate, the
      loop calls sbrk exactly k times for the least k with s + k * ARENA_SIZE >= t, and returns that block. */
  lemma {:induction false} GrowthCount(h: Heap, l: int, t: int, k: nat)
    requires Inv(h) && BlockSize(t) && OnlyCandidate(h, l, t)
    requires Contiguous(h.answers, h.last + HEADER, h.arena, k)
    requires h.b[l].size + k * h.arena >= t && (k > 0 ==> h.b[l].size + (k - 1) * h.arena < t)
    ensures var (h', o) := Alloc(h, t); o == Got(l) && |h'.granted| == |h.granted| + k
    decreases k
  {
    hide Base, Coalesced, Grown, Collides;
    SearchComplete(h, t);
    if k == 0 {
      assert FreeAt(h.b, l) && h.b[l].size >= t;
    } else {
      assert h.b[l].size < t by { NotYetEnough(h.b[l].size, h.arena, k, t); }
      ExtendedCandidate(h, l, t);
      LeastStep(h.b[l].size, h.arena, k);
      if k > 1 { LeastStep(h.b[l].size, h.arena, k - 1); }
      GrowthCount(Grown(h), l, t, k - 1);
    }
  }

  lemma NotYetEnough(s: int, arena: int, k: nat, t: int)
    requires k > 0 && arena > 0 && s + (k - 1) * arena < t
    ensures s < t
  {
  }

  // ---- whole runs ----

  datatype Op = CallMalloc(size: nat) | CallFree(p: int)

  /** The call does not meet a contiguous chunk behind an allocated last block. */
  ghost predicate NoCollision(h: Heap, op: Op)
    requires Inv(h)
  {
    op.CallMalloc? && op.size > 0 ==> !CollidesFor(h, BlockBytes(op.size))
  }

  /** What one call makes of the heap; a free of a pointer that is not live stops the program instead. */
  ghost function Step(h: Heap, op: Op): Heap
    requires Inv(h) && NoCollision(h, op)
  {
    match op
    case CallMalloc(n) => if n == 0 then h else Alloc(h, BlockBytes(n)).0
    case CallFree(p) => if UsedAt(h.b, p - HEADER) then Release(h, p - HEADER) else h
  }

  lemma StepInv(h: Heap, op: Op)
    requires Inv(h) && NoCollision(h, op)
    ensures Inv(Step(h, op))
  {
    match op
    case CallMalloc(n) =>
      if n > 0 {
        AllocInv(h, BlockBytes(n));
      }
    case CallFree(p) =>
      if UsedAt(h.b, p - HEADER) {
        ReleaseInv(h, p - HEADER);
      }
  }

  /** No call of the run collides. */
  ghost predicate Clean(h: Heap, ops: seq<Op>)
    requires Inv(h)
    decreases |ops|
  {
    ops == [] || (NoCollision(h, ops[0]) && (StepInv(h, ops[0]); Clean(Step(h, ops[0]), ops[1..])))
  }

  ghost function Run(h: Heap, ops: seq<Op>): Heap
    requires Inv(h) && Clean(h, ops)
    decreases |ops|
  {
    if ops == [] then h else
      StepInv(h, ops[0]);
      Run(Step(h, ops[0]), ops[1..])
  }

  lemma {:induction false} RunInv(h: Heap, ops: seq<Op>)
    requires Inv(h) && Clean(h, ops)
    ensures Inv(Run(h, ops))
    decreases |ops|
  {
    if ops != [] {
      StepInv(h, ops[0]);
      RunInv(Step(h, ops[0]), ops[1..]);
    }
  }

  lemma {:induction false} BytesAdd(granted: seq<int>, arena: int)
    ensures GrantedBytes(granted, arena) == |granted| * arena
  {
    if granted != [] {
      BytesAdd(granted[..|granted| - 1], arena);
      LeastStep(0, arena, |granted|);
    }
  }

  /** Over every run from init in which no call collides, every byte obtained from sbrk lies in exactly one
      block, and the blocks, fence posts included, add up to the bytes obtained from sbrk. */
  lemma Conservation(sent: int, arena: int, answers: seq<Answer>, ops: seq<Op>)
    requires arena % 8 == 0 && arena >= 528 && sent % 8 == 0 && sent > 0
    requires OsOk(sent, arena, [], answers) && |answers| > 0 && answers[0].Grant?
    ensures Inv(Initial(sent, arena, answers[0].base, answers[1..]))
    ensures var h0 := Initial(sent, arena, answers[0].base, answers[1..]);
      Clean(h0, ops) ==> var h := Run(h0, ops);
      && Total(h.b) == |h.granted| * h.arena
      && (forall x :: GrantedByte(h.granted, h.arena, x) <==> exists a :: InBlock(h.b, a, x))
      && (forall a1, a2, x | InBlock(h.b, a1, x) && InBlock(h.b, a2, x) :: a1 == a2)
  {
    InitialInv(sent, arena, answers);
    var h0 := Initial(sent, arena, answers[0].base, answers[1..]);
    if Clean(h0, ops) {
      RunInv(h0, ops);
      Accounts(Run(h0, ops));
    }
  }

  lemma Accounts(h: Heap)
    requires Inv(h)
    ensures Total(h.b) == |h.granted| * h.arena
    ensures forall x :: GrantedByte(h.granted, h.arena, x) <==> exists a :: InBlock(h.b, a, x)
    ensures forall a1, a2, x | InBlock(h.b, a1, x) && InBlock(h.b, a2, x) :: a1 == a2
  {
    BytesAdd(h.granted, h.arena);
    forall x ensures GrantedByte(h.granted, h.arena, x) <==> exists a :: InBlock(h.b, a, x) {
      assert Covered(h.b, x) <==> GrantedByte(h.granted, h.arena, x);
    }
    forall a1, a2, x | InBlock(h.b, a1, x) && InBlock(h.b, a2, x) ensures a1 == a2 {
      CoveredOnce(h.b, a1, a2, x);
    }
  }
}
