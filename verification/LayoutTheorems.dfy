/** What the layout of a heap is determined by, and what it accounts for. */
module LayoutTheorems {
  import opened HeapLayout

  // ---- a coalesced layout is determined by its fence posts and its live blocks ----

  ghost predicate FixedAt(b: Layout, a: int) {
    a in b && b[a].state != Free
  }

  /** The two layouts have the same fence posts and the same live blocks. */
  ghost predicate SameFixed(b1: Layout, b2: Layout) {
    forall a {:trigger FixedAt(b1, a)} {:trigger FixedAt(b2, a)} ::
      && FixedAt(b1, a) == FixedAt(b2, a)
      && (FixedAt(b1, a) ==> b1[a].size == b2[a].size && b1[a].state == b2[a].state)
  }

  lemma SplitSameFixed(b: Layout, c: int, t: int)
    requires Core(b) && FreeAt(b, c) && MIN_BLOCK <= t <= b[c].size - MIN_BLOCK
    ensures c + b[c].size in b && SameFixed(b, Split(b, c, t))
  {
    assert RightOk(b, c);
    InsideIsFresh(b, c, c + t);
  }

  lemma AbsorbSameFixed(b: Layout, h: int)
    requires Core(b) && FreeAt(b, h) && FreeAt(b, h + b[h].size)
    ensures var r := h + b[h].size; r + b[r].size in b && SameFixed(b, Absorb(b, h))
  {
    assert RightOk(b, h + b[h].size);
  }

  /** The live blocks of b are live in b', with the same sizes. */
  ghost predicate UsedWithin(b: Layout, b': Layout) {
    forall a {:trigger UsedAt(b, a)} {:trigger UsedAt(b', a)} | UsedAt(b, a) :: UsedAt(b', a) && b'[a].size == b[a].size
  }

  lemma FreeBlockMatches(b1: Layout, b2: Layout, a: int)
    requires Core(b1) && Coalesced(b1) && Core(b2) && Coalesced(b2) && SameFixed(b1, b2)
    requires FreeAt(b1, a)
    ensures FreeAt(b2, a) && b2[a].size == b1[a].size
  {
    assert LeftOk(b1, a) && RightOk(b1, a);
    var l, r := a - b1[a].left, a + b1[a].size;
    assert RightOk(b1, l);
    assert FixedAt(b1, l) by { assert !FreePair(b1, l); }
    assert FixedAt(b1, r) by { assert !FreePair(b1, a); }
    assert FixedAt(b2, r) && FixedAt(b2, l);
    assert RightOk(b2, l);
    assert a in b2 && !FixedAt(b2, a) by { assert !FixedAt(b1, a); }
    assert RightOk(b2, a);
    var r2 := a + b2[a].size;
    assert FixedAt(b2, r2) by { assert !FreePair(b2, a); }
    assert FixedAt(b1, r2);
    assert ApartAt(b1, a, r2) && ApartAt(b2, a, r);
  }

  lemma LeftMatches(b1: Layout, b2: Layout, a: int)
    requires Core(b1) && Coalesced(b1) && Core(b2) && Coalesced(b2) && SameFixed(b1, b2)
    requires a in b1 && a in b2 && b1[a].state == b2[a].state
    ensures b1[a].left == b2[a].left
  {
    if b1[a].state != LeftFence {
      assert LeftOk(b1, a);
      var l := a - b1[a].left;
      if FreeAt(b1, l) {
        FreeBlockMatches(b1, b2, l);
      } else {
        assert FixedAt(b1, l);
      }
      assert RightOk(b2, l);
    }
  }

  /** Two coalesced layouts with the same fence posts and the same live blocks are equal: the order
      in which blocks were split off and given back leaves no trace. */
  lemma CanonicalLayout(b1: Layout, b2: Layout)
    requires Core(b1) && Coalesced(b1) && Core(b2) && Coalesced(b2) && SameFixed(b1, b2)
    ensures b1 == b2
  {
    forall a
      ensures a in b1 <==> a in b2
      ensures a in b1 ==> b1[a] == b2[a]
    {
      if a in b1 && !FixedAt(b1, a) {
        FreeBlockMatches(b1, b2, a);
      }
      if a in b2 && !FixedAt(b2, a) {
        FreeBlockMatches(b2, b1, a);
      }
      assert FixedAt(b1, a) == FixedAt(b2, a);
      if a in b1 {
        LeftMatches(b1, b2, a);
      }
    }
  }

  /** With nothing allocated, every region between fence posts is one free block. */
  lemma OneFreeBlockPerRegion(b: Layout, f: int)
    requires Core(b) && Coalesced(b)
    requires forall a :: !UsedAt(b, a)
    requires f in b && b[f].state == LeftFence
    ensures FreeAt(b, f + HEADER)
    ensures var r := f + HEADER + b[f + HEADER].size; r in b && b[r].state == RightFence
  {
    assert RightOk(b, f);
    assert !UsedAt(b, f + HEADER);
    assert RightOk(b, f + HEADER);
    assert !FreePair(b, f + HEADER);
    assert !UsedAt(b, f + HEADER + b[f + HEADER].size);
  }

  // ---- every byte obtained from the system lies in exactly one block ----

  ghost predicate InBlock(b: Layout, a: int, x: int) {
    a in b && a <= x < a + b[a].size
  }

  ghost predicate Covered(b: Layout, x: int) {
    exists a :: InBlock(b, a, x)
  }

  lemma CoveredOnce(b: Layout, a1: int, a2: int, x: int)
    requires Apart(b) && InBlock(b, a1, x) && InBlock(b, a2, x)
    ensures a1 == a2
  {
    assert ApartAt(b, a1, a2) && ApartAt(b, a2, a1);
  }

  lemma SplitCovers(b: Layout, c: int, t: int, x: int)
    requires Core(b) && FreeAt(b, c) && MIN_BLOCK <= t <= b[c].size - MIN_BLOCK
    ensures c + b[c].size in b && (Covered(Split(b, c, t), x) <==> Covered(b, x))
  {
    assert RightOk(b, c);
    InsideIsFresh(b, c, c + t);
    var b' := Split(b, c, t);
    if a :| InBlock(b, a, x) {
      assert InBlock(b', if a == c && x >= c + t then c + t else a, x);
    }
    if a :| InBlock(b', a, x) {
      assert InBlock(b, if a == c + t then c else a, x);
    }
  }

  lemma AbsorbCovers(b: Layout, h: int, x: int)
    requires Core(b) && h in b && !b[h].Fence() && FreeAt(b, h + b[h].size)
    ensures var r := h + b[h].size; r + b[r].size in b && (Covered(Absorb(b, h), x) <==> Covered(b, x))
  {
    var r := h + b[h].size;
    assert RightOk(b, r);
    var b' := Absorb(b, h);
    if a :| InBlock(b, a, x) {
      assert InBlock(b', if a == r then h else a, x);
    }
    if a :| InBlock(b', a, x) {
      assert InBlock(b, if a == h && x >= r then r else a, x);
    }
  }

  lemma SetStateCovers(b: Layout, a: int, s: State, x: int)
    requires a in b
    ensures Covered(SetState(b, a, s), x) <==> Covered(b, x)
  {
    if y :| InBlock(b, y, x) {
      assert InBlock(SetState(b, a, s), y, x);
    }
    if y :| InBlock(SetState(b, a, s), y, x) {
      assert InBlock(b, y, x);
    }
  }

  lemma AddChunkCovers(b: Layout, g: int, arena: int, x: int)
    requires Core(b) && Vacant(b, g, g + arena) && arena >= 64
    ensures Covered(AddChunk(b, g, arena), x) <==> Covered(b, x) || g <= x < g + arena
  {
    var b' := AddChunk(b, g, arena);
    if a :| InBlock(b, a, x) {
      assert InBlock(b', a, x);
    }
    if g <= x < g + arena {
      var a := if x < g + HEADER then g else if x < g + arena - HEADER then g + HEADER else g + arena - HEADER;
      assert InBlock(b', a, x);
    }
    if a :| InBlock(b', a, x) {
      assert a in b ==> InBlock(b, a, x);
    }
  }

  lemma ExtendCovers(b: Layout, last: int, arena: int, x: int)
    requires Core(b) && last in b && b[last].state == RightFence && FreeAt(b, last - b[last].left)
    requires Vacant(b, last + HEADER, last + HEADER + arena) && arena >= 64
    ensures Covered(Extend(b, last, arena), x) <==> Covered(b, x) || last + HEADER <= x < last + HEADER + arena
  {
    var b' := Extend(b, last, arena);
    var l, n := last - b[last].left, last + arena;
    assert LeftOk(b, last);
    if a :| InBlock(b, a, x) {
      assert InBlock(b', if a == last then l else a, x);
    }
    if last + HEADER <= x < last + HEADER + arena {
      assert InBlock(b', if x < n then l else n, x);
    }
    if a :| InBlock(b', a, x) {
      assert a != l && a != n ==> InBlock(b, a, x);
      assert a == l && x < last ==> InBlock(b, l, x);
      assert a == l && last <= x < last + HEADER ==> InBlock(b, last, x);
    }
  }

  // ---- conservation of bytes ----

  /** The sizes of all blocks, fence posts included, added up. */
  ghost function Total(b: Layout): int {
    if !(exists a :: a in b) then 0 else
      var a :| a in b;
      b[a].size + Total(b - {a})
  }

  lemma {:induction false} TotalRemove(b: Layout, a: int)
    requires a in b
    ensures Total(b) == b[a].size + Total(b - {a})
    decreases |b|
  {
    var c :| c in b && Total(b) == b[c].size + Total(b - {c});
    if c != a {
      TotalRemove(b - {c}, a);
      TotalRemove(b - {a}, c);
      assert b - {c} - {a} == b - {a} - {c};
    }
  }

  lemma TotalUpdate(b: Layout, a: int, v: Block)
    ensures Total(b[a := v]) == Total(b) + v.size - (if a in b then b[a].size else 0)
  {
    TotalRemove(b[a := v], a);
    if a in b {
      TotalRemove(b, a);
      assert b[a := v] - {a} == b - {a};
    } else {
      assert b[a := v] - {a} == b;
    }
  }

  lemma SplitTotal(b: Layout, c: int, t: int)
    requires Core(b) && FreeAt(b, c) && MIN_BLOCK <= t <= b[c].size - MIN_BLOCK
    ensures c + b[c].size in b && Total(Split(b, c, t)) == Total(b)
  {
    assert RightOk(b, c);
    InsideIsFresh(b, c, c + t);
    var r, rest := c + b[c].size, b[c].size - t;
    var b1 := b[c := b[c].(size := t)];
    var b2 := b1[c + t := Block(rest, t, Free)];
    TotalUpdate(b, c, b[c].(size := t));
    TotalUpdate(b1, c + t, Block(rest, t, Free));
    TotalUpdate(b2, r, b[r].(left := rest));
    assert Split(b, c, t) == b2[r := b[r].(left := rest)];
  }

  lemma AbsorbTotal(b: Layout, h: int)
    requires Core(b) && h in b && !b[h].Fence() && FreeAt(b, h + b[h].size)
    ensures var r := h + b[h].size; r + b[r].size in b && Total(Absorb(b, h)) == Total(b)
  {
    var r := h + b[h].size;
    assert RightOk(b, r);
    var rr, n := r + b[r].size, b[h].size + b[r].size;
    TotalRemove(b, r);
    TotalUpdate(b - {r}, h, b[h].(size := n));
    TotalUpdate((b - {r})[h := b[h].(size := n)], rr, b[rr].(left := n));
  }

  lemma AddChunkTotal(b: Layout, g: int, arena: int)
    requires Core(b) && Vacant(b, g, g + arena) && arena >= 64
    ensures Total(AddChunk(b, g, arena)) == Total(b) + arena
  {
    var f, m := Block(HEADER, HEADER, LeftFence), Block(arena - 2 * HEADER, HEADER, Free);
    var e := Block(HEADER, arena - 2 * HEADER, RightFence);
    TotalUpdate(b, g, f);
    TotalUpdate(b[g := f], g + HEADER, m);
    TotalUpdate(b[g := f][g + HEADER := m], g + arena - HEADER, e);
  }

  lemma ExtendTotal(b: Layout, last: int, arena: int)
    requires Core(b) && last in b && b[last].state == RightFence && FreeAt(b, last - b[last].left)
    requires Vacant(b, last + HEADER, last + HEADER + arena) && arena >= 64
    ensures Total(Extend(b, last, arena)) == Total(b) + arena
  {
    assert LeftOk(b, last);
    var l := last - b[last].left;
    var n := b[l].size + arena;
    TotalRemove(b, last);
    TotalUpdate(b - {last}, l, b[l].(size := n));
    TotalUpdate((b - {last})[l := b[l].(size := n)], last + arena, Block(HEADER, n, RightFence));
  }
}
