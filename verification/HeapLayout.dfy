/** The block structure of the heap of lab1/myMalloc.c, seen apart from the words that store it:
    a map from the address of each header to the size, left size and state that the header records. */
module HeapLayout {

  // Both fence posts carry the state FENCEPOST in memory; their side is implied by their place.
  datatype State = Free | Used | LeftFence | RightFence

  datatype Block = Block(size: int, left: int, state: State) {
    predicate Fence() {
      state == LeftFence || state == RightFence
    }
  }

  type Layout = map<int, Block>

  const HEADER := 16
  const MIN_DATA := 16
  const MIN_BLOCK := 32

  /** What holds of every single header. */
  ghost predicate Shaped(b: Layout) {
    forall a | a in b ::
      && (if b[a].Fence() then b[a].size == HEADER else b[a].size >= MIN_BLOCK)
      && (b[a].state == LeftFence ==> b[a].left == HEADER)
  }

  ghost predicate AlignedAt(b: Layout, a: int)
    requires a in b
  {
    a % 8 == 0 && b[a].size % 8 == 0
  }

  ghost predicate Aligned(b: Layout) {
    forall a {:trigger AlignedAt(b, a)} | a in b :: AlignedAt(b, a)
  }

  /** No two blocks overlap. */
  ghost predicate ApartAt(b: Layout, x: int, y: int)
    requires x in b && y in b
  {
    x < y ==> x + b[x].size <= y
  }

  ghost predicate Apart(b: Layout) {
    forall x, y {:trigger ApartAt(b, x, y)} | x in b && y in b :: ApartAt(b, x, y)
  }

  /** The right neighbour of a block exists and records this block's size; no region is empty. */
  ghost predicate RightOk(b: Layout, a: int)
    requires a in b
  {
    b[a].state != RightFence ==>
      var r := a + b[a].size;
      r in b && b[r].left == b[a].size && b[r].state != LeftFence
      && (b[a].state == LeftFence ==> b[r].state != RightFence)
  }

  /** The left neighbour of a block exists and has the size this block records for it. */
  ghost predicate LeftOk(b: Layout, a: int)
    requires a in b
  {
    b[a].state != LeftFence ==>
      var l := a - b[a].left;
      l in b && b[l].size == b[a].left && b[l].state != RightFence
  }

  ghost predicate Linked(b: Layout) {
    forall a {:trigger RightOk(b, a)} {:trigger LeftOk(b, a)} | a in b :: RightOk(b, a) && LeftOk(b, a)
  }

  /** Boundary tags are symmetric and the blocks tile memory between fence posts. */
  ghost predicate Core(b: Layout) {
    Shaped(b) && Apart(b) && Linked(b)
  }

  ghost predicate FreeAt(b: Layout, a: int) {
    a in b && b[a].state == Free
  }

  ghost predicate UsedAt(b: Layout, a: int) {
    a in b && b[a].state == Used
  }

  /** Block a and its right neighbour are both free. */
  ghost predicate FreePair(b: Layout, a: int) {
    FreeAt(b, a) && FreeAt(b, a + b[a].size)
  }

  /** No two neighbours are both free. */
  ghost predicate Coalesced(b: Layout) {
    forall a :: !FreePair(b, a)
  }

  // ---- the four ways the allocator changes the layout ----

  ghost function SetState(b: Layout, a: int, s: State): Layout
    requires a in b
  {
    b[a := b[a].(state := s)]
  }

  /** Cut block c after t bytes; the rest becomes a free block. */
  ghost function Split(b: Layout, c: int, t: int): Layout
    requires c in b && c + b[c].size in b
  {
    var r := c + b[c].size;
    var rest := b[c].size - t;
    b[c := b[c].(size := t)][c + t := Block(rest, t, Free)][r := b[r].(left := rest)]
  }

  /** Block h swallows its right neighbour. */
  ghost function Absorb(b: Layout, h: int): Layout
    requires h in b && h + b[h].size in b
    requires var r := h + b[h].size; r + b[r].size in b
  {
    var r := h + b[h].size;
    var rr := r + b[r].size;
    var n := b[h].size + b[r].size;
    (b - {r})[h := b[h].(size := n)][rr := b[rr].(left := n)]
  }

  /** A fresh chunk of `arena` bytes at g: fence post, one free block, fence post. */
  ghost function AddChunk(b: Layout, g: int, arena: int): Layout {
    b[g := Block(HEADER, HEADER, LeftFence)]
     [g + HEADER := Block(arena - 2 * HEADER, HEADER, Free)]
     [g + arena - HEADER := Block(HEADER, arena - 2 * HEADER, RightFence)]
  }

  /** A chunk contiguous with the fence post `last`, whose left neighbour is free, extends that neighbour. */
  ghost function Extend(b: Layout, last: int, arena: int): Layout
    requires last in b && last - b[last].left in b
  {
    var l := last - b[last].left;
    var n := b[l].size + arena;
    (b - {last})[l := b[l].(size := n)][last + arena := Block(HEADER, n, RightFence)]
  }

  /** An address strictly inside a block is not the address of another one. */
  lemma InsideIsFresh(b: Layout, c: int, x: int)
    requires Apart(b) && c in b && c < x < c + b[c].size
    ensures x !in b
  {
    assert x in b ==> ApartAt(b, c, x);
  }

  lemma SplitCore(b: Layout, c: int, t: int)
    requires Core(b) && FreeAt(b, c)
    requires MIN_BLOCK <= t <= b[c].size - MIN_BLOCK
    ensures c + b[c].size in b && Core(Split(b, c, t))
  {
    assert RightOk(b, c) && LeftOk(b, c);
    var r := c + b[c].size;
    var b' := Split(b, c, t);
    InsideIsFresh(b, c, c + t);
    forall x, y {:trigger ApartAt(b', x, y)} | x in b' && y in b' ensures ApartAt(b', x, y) {
      assert ApartAt(b, if x == c + t then c else x, if y == c + t then c else y);
      assert x in b ==> ApartAt(b, c, x);
    }
    forall a {:trigger RightOk(b', a)} {:trigger LeftOk(b', a)} | a in b' ensures RightOk(b', a) && LeftOk(b', a) {
      if a in b {
        assert RightOk(b, a) && LeftOk(b, a);
      }
    }
  }

  lemma AbsorbRight(b: Layout, h: int)
    requires Core(b) && h in b && !b[h].Fence() && FreeAt(b, h + b[h].size)
    ensures var r := h + b[h].size; r + b[r].size in b
    ensures var b' := Absorb(b, h); forall a {:trigger RightOk(b', a)} | a in b' :: RightOk(b', a)
  {
    var r := h + b[h].size;
    assert RightOk(b, h) && RightOk(b, r);
    var b' := Absorb(b, h);
    forall a {:trigger RightOk(b', a)} | a in b' ensures RightOk(b', a) {
      assert RightOk(b, a);
    }
  }

  lemma AbsorbLeft(b: Layout, h: int)
    requires Core(b) && h in b && !b[h].Fence() && FreeAt(b, h + b[h].size)
    requires var r := h + b[h].size; r + b[r].size in b
    ensures var b' := Absorb(b, h); forall a {:trigger LeftOk(b', a)} | a in b' :: LeftOk(b', a)
  {
    var r, b' := h + b[h].size, Absorb(b, h);
    forall a {:trigger LeftOk(b', a)} | a in b' ensures LeftOk(b', a) {
      assert LeftOk(b, a);
    }
  }

  lemma AbsorbCore(b: Layout, h: int)
    requires Core(b) && h in b && !b[h].Fence() && FreeAt(b, h + b[h].size)
    ensures var r := h + b[h].size; r + b[r].size in b && Core(Absorb(b, h))
  {
    AbsorbRight(b, h);
    AbsorbLeft(b, h);
    var r, b' := h + b[h].size, Absorb(b, h);
    assert LeftOk(b, r);
    forall x, y {:trigger ApartAt(b', x, y)} | x in b' && y in b' ensures ApartAt(b', x, y) {
      assert ApartAt(b, x, y) && ApartAt(b, r, y);
    }
  }

  lemma SetStateCore(b: Layout, a: int, s: State)
    requires Core(b) && a in b && !b[a].Fence() && s in {Free, Used}
    ensures Core(SetState(b, a, s))
  {
    var b' := SetState(b, a, s);
    forall x, y {:trigger ApartAt(b', x, y)} | x in b' && y in b' ensures ApartAt(b', x, y) {
      assert ApartAt(b, x, y);
    }
    forall x {:trigger RightOk(b', x)} {:trigger LeftOk(b', x)} | x in b' ensures RightOk(b', x) && LeftOk(b', x) {
      assert RightOk(b, x) && LeftOk(b, x);
    }
  }

  /** The interval [lo, hi) meets no block. */
  ghost predicate Vacant(b: Layout, lo: int, hi: int) {
    forall a | a in b :: a + b[a].size <= lo || hi <= a
  }

  lemma AddChunkCore(b: Layout, g: int, arena: int)
    requires Core(b) && Vacant(b, g, g + arena)
    requires arena >= 64
    ensures Core(AddChunk(b, g, arena))
  {
    var b' := AddChunk(b, g, arena);
    forall x, y {:trigger ApartAt(b', x, y)} | x in b' && y in b' ensures ApartAt(b', x, y) {
      assert x in b && y in b ==> ApartAt(b, x, y);
    }
    forall a {:trigger RightOk(b', a)} {:trigger LeftOk(b', a)} | a in b' ensures RightOk(b', a) && LeftOk(b', a) {
      if a in b {
        assert RightOk(b, a) && LeftOk(b, a);
      }
    }
  }

  lemma ExtendCore(b: Layout, last: int, arena: int)
    requires Core(b) && last in b && b[last].state == RightFence
    requires FreeAt(b, last - b[last].left)
    requires Vacant(b, last + HEADER, last + HEADER + arena)
    requires arena >= 64
    ensures Core(Extend(b, last, arena))
  {
    var l := last - b[last].left;
    var b' := Extend(b, last, arena);
    assert LeftOk(b, last);
    forall x, y {:trigger ApartAt(b', x, y)} | x in b' && y in b' ensures ApartAt(b', x, y) {
      assert x in b && y in b ==> ApartAt(b, x, y);
      assert y in b ==> ApartAt(b, last, y);
    }
    forall a {:trigger RightOk(b', a)} {:trigger LeftOk(b', a)} | a in b' ensures RightOk(b', a) && LeftOk(b', a) {
      if a in b {
        assert RightOk(b, a) && LeftOk(b, a);
      } else {
        assert a == last + arena;
      }
    }
  }

  lemma SplitAligned(b: Layout, c: int, t: int)
    requires Aligned(b) && c in b && c + b[c].size in b && t % 8 == 0
    ensures Aligned(Split(b, c, t))
  {
    var b' := Split(b, c, t);
    assert AlignedAt(b, c);
    forall a {:trigger AlignedAt(b', a)} | a in b' ensures AlignedAt(b', a) {
      assert a in b ==> AlignedAt(b, a);
    }
  }

  lemma AbsorbAligned(b: Layout, h: int)
    requires Aligned(b) && h in b && h + b[h].size in b
    requires var r := h + b[h].size; r + b[r].size in b
    ensures Aligned(Absorb(b, h))
  {
    var b' := Absorb(b, h);
    assert AlignedAt(b, h) && AlignedAt(b, h + b[h].size);
    forall a {:trigger AlignedAt(b', a)} | a in b' ensures AlignedAt(b', a) {
      assert AlignedAt(b, a);
    }
  }

  lemma SetStateAligned(b: Layout, c: int, s: State)
    requires Aligned(b) && c in b
    ensures Aligned(SetState(b, c, s))
  {
    var b' := SetState(b, c, s);
    forall a {:trigger AlignedAt(b', a)} | a in b' ensures AlignedAt(b', a) {
      assert AlignedAt(b, a);
    }
  }

  lemma AddChunkAligned(b: Layout, g: int, arena: int)
    requires Aligned(b) && g % 8 == 0 && arena % 8 == 0
    ensures Aligned(AddChunk(b, g, arena))
  {
    var b' := AddChunk(b, g, arena);
    forall a {:trigger AlignedAt(b', a)} | a in b' ensures AlignedAt(b', a) {
      assert a in b ==> AlignedAt(b, a);
    }
  }

  lemma ExtendAligned(b: Layout, last: int, arena: int)
    requires Aligned(b) && last in b && last - b[last].left in b && arena % 8 == 0
    ensures Aligned(Extend(b, last, arena))
  {
    var b' := Extend(b, last, arena);
    assert AlignedAt(b, last) && AlignedAt(b, last - b[last].left);
    forall a {:trigger AlignedAt(b', a)} | a in b' ensures AlignedAt(b', a) {
      assert a in b ==> AlignedAt(b, a);
    }
  }
}
