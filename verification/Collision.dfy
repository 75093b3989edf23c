/** The branch of lab1/myMalloc.c:172-193, which runs when sbrk returns a chunk contiguous with the last fence
    post and the block before that fence post is allocated. */
module Collision {
  import opened HeapLayout
  import opened LayoutTheorems
  import opened FreeLists
  import opened HeapModel
  import opened HeapMemory
  import opened HeapTheorems
  import opened MallocSteps
  import opened MyMalloc

  lemma TagDecoded(m: Memory, b: Layout, a: int, t: int)
    requires Core(b) && Aligned(b) && a in b && TagAt(m, b, a) && t % 8 == 0 && Word(m, a) == t + ALLOCATED
    ensures b[a].size == t && b[a].state == Used
  {
    assert AlignedAt(b, a);
  }

  lemma LeftExists(b: Layout, a: int)
    requires Core(b) && a in b && b[a].state != LeftFence
    ensures a - b[a].left in b
  {
    assert LeftOk(b, a);
  }

  /** After the branch no layout that counts both the returned block and the live block before the old fence
      post has symmetric boundary tags. */
  lemma CollisionBreaksTags(h0: Heap, m: Memory, hdr: int, t: int, b: Layout)
    requires Inv(h0) && Collides(h0) && BlockSize(t) && PlacedBehind(h0, m, hdr, t)
    requires Core(b) && Aligned(b) && Tags(m, b) && hdr in b
    ensures h0.last - h0.b[h0.last].left !in b
  {
    var l := h0.last - h0.b[h0.last].left;
    LastNeighbour(h0);
    if l in b {
      assert TagAt(m, b, hdr) && TagAt(m, b, l) && AlignedAt(h0.b, l);
      TagDecoded(m, b, hdr, t);
      TagDecoded(m, b, l, h0.b[l].size);
      InsideIsFresh(b, l, l + HEADER);
      LeftExists(b, hdr);
    }
  }

  /** Some layout with symmetric tags counts the block at hdr and every block that was live before. */
  ghost predicate Consistent(h0: Heap, m: Memory, hdr: int, b: Layout) {
    && Core(b) && Aligned(b) && Tags(m, b) && hdr in b
    && forall a | UsedAt(h0.b, a) :: a in b
  }

  ghost predicate HasLayout(h0: Heap, m: Memory, hdr: int) {
    exists b :: Consistent(h0, m, hdr, b)
  }

  lemma CollidedBreaksTags(h0: Heap, m0: Memory, m: Memory, t: int)
    requires Inv(h0) && Collides(h0) && BlockSize(t) && Collided(h0, m0, m, t)
    ensures h0.last > 0 && !HasLayout(h0, m, h0.last + HEADER)
  {
    NeverConsistent(h0, m, h0.last + HEADER, t);
  }

  lemma NeverConsistent(h0: Heap, m: Memory, hdr: int, t: int)
    requires Inv(h0) && Collides(h0) && BlockSize(t) && PlacedBehind(h0, m, hdr, t)
    ensures !HasLayout(h0, m, hdr)
  {
    forall b ensures !Consistent(h0, m, hdr, b) {
      if Core(b) && Aligned(b) && Tags(m, b) && hdr in b {
        CollisionBreaksTags(h0, m, hdr, t, b);
        assert UsedAt(h0.b, h0.last - h0.b[h0.last].left);
      }
    }
  }

  lemma LiveStays(h0: Heap, h: Heap, hdr: int, t: int)
    requires Inv(h0) && BlockSize(t) && !CollidesFor(h0, t) && Alloc(h0, t) == (h, Got(hdr))
    ensures hdr in h.b && forall a | UsedAt(h0.b, a) :: a in h.b
  {
    hide Inv, Alloc, CollidesFor;
    AllocMeaning(h0, t);
    forall a | UsedAt(h0.b, a) ensures a in h.b {
      assert UsedAt(h.b, a) || a == hdr;
    }
  }

  lemma AllocConsistent(h0: Heap, h: Heap, m: Memory, hdr: int, t: int)
    requires Inv(h0) && BlockSize(t) && !CollidesFor(h0, t)
    requires Alloc(h0, t) == (h, Got(hdr)) && Inv(h) && Tags(m, h.b)
    ensures HasLayout(h0, m, hdr)
  {
    LiveStays(h0, h, hdr, t);
    hide Alloc, CollidesFor;
    assert Consistent(h0, m, hdr, h.b);
  }

  /** Where malloc puts its block: behind the old fence post when the call faulted. */
  ghost function HeaderOf(h0: Heap, p: int, fault: bool): int {
    if fault then h0.last + HEADER else p - HEADER
  }

  /** The tags are consistent after malloc(size) exactly when the call did not collide, whatever the size; the
      condition reads nothing but the heap before the call and the next answer of sbrk.  Only a call that fails
      for want of memory is left aside. */
  method ConsistentIffNoCollision(alloc: Allocator, size: int) returns (p: int, fault: bool)
    requires alloc.Valid() && size > 0
    modifies alloc
    ensures CollidesFor(old(alloc.h), BlockBytes(size)) ==> fault || p != NULL
    ensures fault || p != NULL ==>
      (HasLayout(old(alloc.h), alloc.mem, HeaderOf(old(alloc.h), p, fault)) <==>
        !CollidesFor(old(alloc.h), BlockBytes(size)))
  {
    hide Base, HasLayout, Collided, PayloadKept, Served, BestFitting, SomeFits, Alloc;
    ghost var h0, m0, t := alloc.h, alloc.mem, BlockBytes(size);
    p, fault := alloc.MyMalloc(size);
    if CollidesFor(h0, t) {
      CollidedBreaksTags(h0, m0, alloc.mem, t);
    } else if p != NULL {
      AllocConsistent(h0, alloc.h, alloc.mem, p - HEADER, t);
    }
  }

  /** When 8, 16 or 24 bytes of the chunk remain behind the block, no layout with symmetric tags that counts the
      block counts the fence post of the chunk either, not even after the live block is left out. */
  lemma GapLosesFencePost(h0: Heap, m0: Memory, m: Memory, t: int, b: Layout)
    requires Inv(h0) && BlockSize(t) && Collided(h0, m0, m, t)
    requires 0 < h0.arena - HEADER - t < MIN_BLOCK
    requires Core(b) && Aligned(b) && Tags(m, b) && h0.last + HEADER in b
    ensures h0.last + h0.arena !in b
  {
    var hdr, fp := h0.last + HEADER, h0.last + h0.arena;
    if fp in b {
      assert TagAt(m, b, hdr) && TagAt(m, b, fp);
      TagDecoded(m, b, hdr, t);
      LeftOfPost(b, fp, t);
      InsideIsFresh(b, hdr, fp - t);
    }
  }

  lemma LeftOfPost(b: Layout, fp: int, t: int)
    requires Core(b) && fp in b && b[fp].left == t && t >= MIN_BLOCK
    ensures fp - t in b
  {
    assert LeftOk(b, fp);
  }

  /** Without a free block no search succeeds. */
  lemma NothingFree(h: Heap, t: int)
    requires Inv(h) && BlockSize(t) && forall x :: !FreeAt(h.b, x)
    ensures Chosen(h, t).Nowhere?
  {
    hide Base, Coalesced;
    SearchComplete(h, t);
  }

  lemma FirstBlockTaken(h: Heap, a: int) returns (h': Heap)
    requires Inv(h) && FreeAt(h.b, a) && h.b[a].size >= MIN_BLOCK
    requires forall x | FreeAt(h.b, x) :: x == a
    ensures BlockSize(h.b[a].size) && Alloc(h, h.b[a].size) == (h', Got(a))
    ensures Inv(h') && h'.b == SetState(h.b, a, Used) && h'.answers == h.answers && h'.last == h.last
  {
    assert AlignedAt(h.b, a);
    var t := h.b[a].size;
    SearchComplete(h, t);
    assert Chosen(h, t) == At(a);
    PlaceInv(h, a, t);
    h' := Place(h, a, t);
    assert h'.b == SetState(h.b, a, Used);
  }

  // The heap that init sets up when the next chunk will be contiguous with the first.
  ghost predicate Fresh(h: Heap, g: int) {
    && Inv(h) && h.answers == [Grant(g + h.arena)] && h.last == g + h.arena - HEADER
    && FreeAt(h.b, g + HEADER) && h.b[g + HEADER].size == h.arena - 2 * HEADER
    && h.last in h.b && h.b[h.last].left == h.arena - 2 * HEADER
    && forall x | FreeAt(h.b, x) :: x == g + HEADER
  }

  lemma InitialFresh(sent: int, arena: int, g: int)
    requires arena % 8 == 0 && arena >= 528 && sent % 8 == 0 && sent > 0 && g % 8 == 0 && g >= SentinelEnd(sent)
    ensures OsOk(sent, arena, [], [Grant(g), Grant(g + arena)])
    ensures Fresh(Initial(sent, arena, g, [Grant(g + arena)]), g)
  {
    var answers := [Grant(g), Grant(g + arena)];
    assert answers[1..] == [Grant(g + arena)];
    InitialInv(sent, arena, answers);
  }

  /** Once the block of the first chunk is live, every call of malloc collides. */
  lemma FilledCollides(h0: Heap, h: Heap, g: int, t: int)
    requires Fresh(h0, g) && Inv(h) && h.b == SetState(h0.b, g + HEADER, Used)
    requires h.answers == h0.answers && h.last == h0.last && BlockSize(t)
    ensures CollidesFor(h, t)
  {
    hide Base, Coalesced;
    forall x ensures !FreeAt(h.b, x) {
      assert FreeAt(h0.b, x) ==> x == g + HEADER;
    }
    NothingFree(h, t);
  }

  /** The branch is reached: fill the first chunk with one block, then ask for more, any number of bytes, while
      sbrk is contiguous. */
  lemma CollisionReachable(sent: int, arena: int, g: int, t: int) returns (h0: Heap, h: Heap)
    requires arena % 8 == 0 && arena >= 528 && sent % 8 == 0 && sent > 0 && g % 8 == 0 && g >= SentinelEnd(sent)
    requires t == arena - 2 * HEADER
    ensures OsOk(sent, arena, [], [Grant(g), Grant(g + arena)]) && h0 == Initial(sent, arena, g, [Grant(g + arena)])
    ensures Inv(h0) && BlockSize(t) && Alloc(h0, t) == (h, Got(g + HEADER)) && Inv(h)
    ensures forall t2 | BlockSize(t2) :: CollidesFor(h, t2)
  {
    hide Base, Coalesced, Collides;
    InitialFresh(sent, arena, g);
    h0 := Initial(sent, arena, g, [Grant(g + arena)]);
    h := FirstBlockTaken(h0, g + HEADER);
    forall t2 | BlockSize(t2) ensures CollidesFor(h, t2) {
      FilledCollides(h0, h, g, t2);
    }
  }
}
