/** lab1/myMalloc.c itself: the words of memory, the global variables and the functions that change them. */
module MyMalloc {
  import opened HeapLayout
  import opened LayoutTheorems
  import opened FreeLists
  import opened HeapModel
  import opened HeapMemory
  import opened HeapTheorems
  import opened Bytes
  import opened MallocSteps

  class Allocator {
    const sent: int
    const arena: int
    var mem: Memory
    var lastFencePost: int
    var answers: seq<Answer>
    var started: bool    // init has run to its end
    ghost var h: Heap

    /** The list pointers in memory are those of the model. */
    ghost predicate Wired(off: set<int>)
      reads this
    {
      && h.sent == sent && h.arena == arena
      && Base(h, off)
      && Threaded(mem, h.rings)
      && Mapped(mem, h)
    }

    ghost predicate Valid()
      reads this
    {
      && Wired({}) && Coalesced(h.b) && Tags(mem, h.b)
      && h.last == lastFencePost && h.answers == answers
    }

    /** init, run when the program starts.  When its sbrk fails, block is NULL and the store to block->next stops the
        program. */
    constructor (sent: int, arena: int, answers: seq<Answer>)
      requires arena % 8 == 0 && arena >= 528 && sent % 8 == 0 && sent > 0
      requires OsOk(sent, arena, [], answers)
      ensures started <==> |answers| > 0 && answers[0].Grant?
      ensures started ==> Valid() && h == Initial(sent, arena, answers[0].base, answers[1..])
    {
      this.sent, this.arena, this.answers := sent, arena, answers;
      mem, lastFencePost, started := Statics(sent), NULL, false;
      if |answers| > 0 && answers[0].Grant? {
        h := Initial(sent, arena, answers[0].base, answers[1..]);
      }
      new;
      if |answers| > 0 && answers[0].Grant? {
        InitialInv(sent, arena, answers);
        InitialOs(sent, arena, answers);
      }
      var block := AllocateChunk();
      if block != NULL {
        InitLists(block);
        started := true;
      }
    }

    // ---- the accessors, on a block whose tag is right ----

    /** get_size */
    method GetSize(a: int, ghost off: set<int>) returns (size: int)
      requires Wired(off) && Tags(mem, h.b) && a in h.b
      ensures a in mem && size == h.b[a].size
    {
      ReadOne(h, off, mem, a);
      size := SizeIn(mem[a]);
    }

    /** get_state */
    method GetState(a: int, ghost off: set<int>) returns (state: int)
      requires Wired(off) && Tags(mem, h.b) && a in h.b
      ensures a in mem && state == Code(h.b[a].state)
    {
      ReadOne(h, off, mem, a);
      assert TagAt(mem, h.b, a);
      ReadTag(h, off, mem, a);
      state := StateIn(mem[a]);
    }

    /** The test of the search: UNALLOCATED, and large enough. */
    method Suits(a: int, total: int) returns (fit: bool)
      requires Wired({}) && Tags(mem, h.b) && a in h.b
      ensures fit <==> FreeAt(h.b, a) && h.b[a].size >= total
    {
      var state := GetState(a, {});
      var size := GetSize(a, {});
      fit := state == UNALLOCATED && size >= total;
    }

    /** The left size field. */
    method GetLeft(a: int, ghost off: set<int>) returns (left: int)
      requires Wired(off) && Tags(mem, h.b) && a in h.b
      ensures a + LEFT in mem && left == h.b[a].left
    {
      ReadOne(h, off, mem, a);
      left := mem[a + LEFT];
    }

    /** set_state */
    method PutState(a: int, state: int, ghost off: set<int>)
      requires Wired(off) && Tags(mem, h.b) && a in h.b
      modifies this`mem
      ensures a in old(mem) && mem == old(mem)[a := h.b[a].size + state]
    {
      ReadOne(h, off, mem, a);
      mem := mem[a := SetStateOf(mem[a], state)];
    }

    // ---- init ----

    /** Lines 330-334. */
    method EmptyLists()
      requires forall i {:trigger Sentinel(sent, i)} | 0 <= i < N_LISTS ::
        Sentinel(sent, i) + NEXT in mem && Sentinel(sent, i) + PREV in mem
      modifies this`mem
      ensures mem.Keys == old(mem).Keys && forall w | w >= SentinelEnd(sent) :: Word(mem, w) == Word(old(mem), w)
      ensures forall j {:trigger Sentinel(sent, j)} | 0 <= j < N_LISTS ::
        Next(mem, Sentinel(sent, j)) == Sentinel(sent, j) && Prev(mem, Sentinel(sent, j)) == Sentinel(sent, j)
    {
      var i := 0;
      while i < N_LISTS
        invariant 0 <= i <= N_LISTS
        invariant mem.Keys == old(mem).Keys && forall w | w >= SentinelEnd(sent) :: Word(mem, w) == Word(old(mem), w)
        invariant forall j {:trigger Sentinel(sent, j)} | 0 <= j < i ::
          Next(mem, Sentinel(sent, j)) == Sentinel(sent, j) && Prev(mem, Sentinel(sent, j)) == Sentinel(sent, j)
      {
        var freelist := Sentinel(sent, i);
        mem := mem[freelist + NEXT := freelist];
        mem := mem[freelist + PREV := freelist];
        i := i + 1;
      }
    }

    /** Lines 330-340. */
    method InitLists(block: int)
      requires Inv(h) && h.sent == sent && h.arena == arena && h.last == lastFencePost && h.answers == answers
      requires arena % 8 == 0 && arena >= 528 && sent % 8 == 0 && sent > 0 && block - HEADER >= SentinelEnd(sent)
      requires (block - HEADER) % 8 == 0
      requires h == Initial(sent, arena, block - HEADER, answers)
      requires mem == ChunkStores(WithPages(Statics(sent), block - HEADER, arena), block - HEADER, arena)
      modifies this`mem
      ensures Valid()
    {
      ghost var g := block - HEADER;
      ghost var m1 := mem;
      InitialWords(sent, arena, g, answers);
      HeaderMapped(h, {}, mem, block);
      forall i {:trigger Sentinel(sent, i)} | 0 <= i < N_LISTS
        ensures Sentinel(sent, i) + NEXT in mem && Sentinel(sent, i) + PREV in mem
      {
        NodeMapped(h, {}, mem, Sentinel(sent, i));
      }
      EmptyLists();
      InitialTagsKept(m1, mem, sent, g, arena);
      LinkFirst(block);
    }

    /** Lines 336-340: the block becomes the only member of the last list. */
    method LinkFirst(block: int)
      requires Inv(h) && h.sent == sent && h.arena == arena && h.last == lastFencePost && h.answers == answers
      requires block - HEADER >= SentinelEnd(sent) && arena >= 528 && h == Initial(sent, arena, block - HEADER, answers)
      requires Mapped(mem, h) && Tags(mem, h.b)
      requires forall j {:trigger Sentinel(sent, j)} | 0 <= j < N_LISTS ::
        Next(mem, Sentinel(sent, j)) == Sentinel(sent, j) && Prev(mem, Sentinel(sent, j)) == Sentinel(sent, j)
      modifies this`mem
      ensures Valid()
    {
      hide Base, Core, IndexOf;
      ghost var m1 := mem;
      HeaderMapped(h, {}, mem, block);
      assert IsSentinel(sent, Sentinel(sent, N_LISTS - 1));
      NodeMapped(h, {}, mem, Sentinel(sent, N_LISTS - 1));
      var freelist := Sentinel(sent, N_LISTS - 1);
      mem := mem[freelist + NEXT := block];
      mem := mem[freelist + PREV := block];
      mem := mem[block + NEXT := freelist];
      mem := mem[block + PREV := freelist];
      InitialThreaded(mem, sent, arena, block - HEADER, answers);
      InitialTagsKept(m1, mem, sent, block - HEADER, arena);
    }

    method RemoveFromFreelist(blk: int, ghost off: set<int>, ghost off': set<int>)
      requires Wired(off) && Tags(mem, h.b) && FreeAt(h.b, blk) && blk !in off && off' == off + {blk}
      modifies this`mem, this`h
      ensures Wired(off') && Tags(mem, h.b) && h == Taken(old(h), blk)
      ensures SameButLinks(h.b, h.sent, old(mem), mem)
      ensures PayloadKept(h.b, old(mem), mem) && DeepKept(h.b, old(mem), mem)
    {
      ghost var m0 := mem;
      UnlinkThreaded(h, off, mem, blk);
      DelistBase(h, off, off', blk);
      mem := mem[mem[blk + PREV] + NEXT := mem[blk + NEXT]];
      mem := mem[mem[blk + NEXT] + PREV := mem[blk + PREV]];
      assert mem == Unlinked(m0, Prev(m0, blk), Next(m0, blk));
      h := Taken(h, blk);
      LinksKeepContents(h, off', m0, mem);
      TagsKept(h, off', m0, mem);
    }

    /** The stores of insert_into_freelist, wherever they lead. */
    method InsertIntoFreelist(blk: int)
      requires blk in mem && blk + NEXT in mem && blk + PREV in mem
      requires var s := Sentinel(sent, IndexOf(SizeIn(mem[blk])));
        s + PREV in mem && mem[s + PREV] + NEXT in mem && Gap(s, blk)
      modifies this`mem
      ensures var s := Sentinel(sent, IndexOf(SizeIn(old(mem)[blk])));
        mem == Linked4(old(mem), s, Prev(old(mem), s), blk)
    {
      var idx := SizeToListIndex(SizeIn(mem[blk]));
      var sentinel := Sentinel(sent, idx);
      mem := mem[blk + NEXT := sentinel];
      mem := mem[blk + PREV := mem[sentinel + PREV]];
      mem := mem[mem[sentinel + PREV] + NEXT := blk];
      mem := mem[sentinel + PREV := blk];
    }

    /** insert_into_freelist on a free block of the model that is on no list. */
    method EnterList(blk: int, ghost off: set<int>, ghost off': set<int>)
      requires Wired(off) && FreeAt(h.b, blk) && blk in off && off' == off - {blk}
      requires blk in mem && SizeIn(mem[blk]) == h.b[blk].size
      modifies this`mem, this`h
      ensures Wired(off') && h == Listing(old(h), blk)
      ensures SameButLinks(h.b, h.sent, old(mem), mem)
    {
      LinkThreaded(h, off, mem, blk);
      EnlistBase(h, off, off', blk);
      InsertIntoFreelist(blk);
      h := Listing(h, blk);
    }

    // ---- allocate_object ----

    /** The inner search loop, over list i: 0 when none of its blocks is large enough. */
    method SearchList(total: int, i: nat) returns (chosen: int)
      requires Valid() && i < N_LISTS && |h.rings[i]| > 0
      ensures var p := FirstFit(h.b, h.rings[i], total, 1);
        if p < |h.rings[i]| then chosen == h.rings[i][p] && chosen != NULL else chosen == NULL
    {
      hide Accounted, OsOk, Core, Aligned, Above, Threaded, Mapped, Tags;
      ghost var q := h.rings[i];
      ghost var k := 1;
      var sentinel := Sentinel(sent, i);
      ReadNode(h, mem, i, 0);
      if |q| > 1 { ReadNode(h, mem, i, 1); }
      var cur := mem[sentinel + NEXT];
      while cur != sentinel
        invariant 1 <= k <= |q|
        invariant cur == if k == |q| then sentinel else q[k]
        invariant k < |q| ==> cur != sentinel
        invariant FirstFit(h.b, q, total, 1) == FirstFit(h.b, q, total, k)
        decreases |q| - k
      {
        ReadNode(h, mem, i, k);
        var fit := Suits(cur, total);
        if fit {
          return cur;
        }
        cur := mem[cur + NEXT];
        k := k + 1;
        if k < |q| { ReadNode(h, mem, i, k); }
      }
      chosen := NULL;
    }

    /** The two nested search loops: 0 when no listed block is large enough. */
    method FindBlock(total: int, listIndex: int) returns (chosen: int)
      requires Valid() && BlockSize(total) && listIndex == IndexOf(total)
      ensures chosen == match Chosen(h, total) { case Nowhere => NULL case At(a) => a }
    {
      RingsNonempty(h);
      chosen := NULL;
      var i := listIndex;
      while i < N_LISTS
        invariant listIndex <= i <= N_LISTS && chosen == NULL
        invariant Search(h.b, h.rings, total, listIndex) == Search(h.b, h.rings, total, i)
      {
        chosen := SearchList(total, i);
        if chosen != NULL {
          break;
        }
        i := i + 1;
      }
    }

    /** set_size, when only the size of blk is out of date. */
    method WriteSize(blk: int, size: int, ghost off: set<int>)
      requires Wired(off) && blk in h.b && TagsBut(mem, h.b, blk) && size == h.b[blk].size
      requires blk in mem && StateIn(mem[blk]) == Code(h.b[blk].state)
      modifies this`mem
      ensures Wired(off) && Tags(mem, h.b) && PayloadKept(h.b, old(mem), mem)
    {
      SizeStore(h, off, mem, blk);
      mem := mem[blk := SetSize(mem[blk], size)];
    }

    /** Lines 155-157. */
    method MarkAllocated(blk: int)
      requires Wired({blk}) && FreeAt(h.b, blk) && Tags(mem, h.b)
      modifies this`mem, this`h
      ensures Wired({}) && Tags(mem, h.b) && h == WithState(old(h), blk, Used)
      ensures PayloadKept(old(h).b, old(mem), mem)
    {
      UseStores(h, mem, blk);
      UseBase(h, blk);
      PutState(blk, ALLOCATED, {blk});
      h := WithState(h, blk, Used);
      var size := GetSize(blk, {});
      var right := blk + size;
      mem := mem[right + LEFT := size];
    }

    /** Line 138: the chosen block leaves its list. */
    method Take(chosen: int)
      requires Valid() && FreeAt(h.b, chosen)
      modifies this`mem, this`h
      ensures Wired({chosen}) && Tags(mem, h.b) && h == Taken(old(h), chosen)
      ensures PayloadKept(old(h).b, old(mem), mem)
      ensures chosen in mem && SizeIn(mem[chosen]) == h.b[chosen].size && StateIn(mem[chosen]) == UNALLOCATED
    {
      RemoveFromFreelist(chosen, {}, {chosen});
      HeaderMapped(h, {chosen}, mem, chosen);
      assert TagAt(mem, h.b, chosen);
      SizeArithmetic(h, {chosen}, chosen);
    }

    /** Lines 138-153: take the chosen block off its list and split it when 32 bytes or more remain. */
    method Reserve(chosen: int, total: int)
      requires Valid() && BlockSize(total) && Carvable(h, chosen, total)
      modifies this`mem, this`h
      ensures Wired({chosen}) && Tags(mem, h.b) && FreeAt(h.b, chosen)
      ensures chosen + old(h).b[chosen].size in old(h).b
      ensures h == var h1 := Taken(old(h), chosen);
        if h1.b[chosen].size - total >= MIN_BLOCK then Cut(h1, chosen, total) else h1
      ensures PayloadKept(old(h).b, old(mem), mem) && UsedWithin(old(h).b, h.b)
    {
      ghost var b0, m0 := h.b, mem;
      assert RightOk(h.b, chosen);
      Take(chosen);
      var remaining := SizeIn(mem[chosen]) - total;
      ghost var m1 := mem;
      if remaining >= MIN_BLOCK {
        SplitOff(chosen, total, remaining);
        PayloadTrans(b0, b0, m0, m1, mem);
        m1 := mem;
        WriteSize(chosen, total, {chosen});
      } else {
        assert TagAt(mem, h.b, chosen);
        WriteSize(chosen, SizeIn(mem[chosen]), {chosen});
      }
      PayloadTrans(b0, h.b, m0, m1, mem);
    }

    /** Lines 138-157. */
    method Carve(chosen: int, total: int)
      requires Valid() && BlockSize(total) && Carvable(h, chosen, total)
      modifies this`mem, this`h
      ensures Valid() && h == Place(old(h), chosen, total)
      ensures PayloadKept(old(h).b, old(mem), mem)
    {
      Reserve(chosen, total);
      ghost var b1, m1 := h.b, mem;
      MarkAllocated(chosen);
      PayloadTrans(old(h).b, b1, old(mem), m1, mem);
      PlaceInv(old(h), chosen, total);
    }

    /** Lines 142-149. */
    method SplitOff(chosen: int, total: int, remaining: int)
      requires Wired({chosen}) && Tags(mem, h.b)
      requires FreeAt(h.b, chosen) && total % 8 == 0 && total >= MIN_BLOCK
      requires remaining == h.b[chosen].size - total && remaining >= MIN_BLOCK
      modifies this`mem, this`h
      ensures chosen + old(h).b[chosen].size in old(h).b && h == Cut(old(h), chosen, total)
      ensures Wired({chosen}) && TagsBut(mem, h.b, chosen) && Word(mem, chosen) == old(Word(mem, chosen))
      ensures PayloadKept(old(h).b, old(mem), mem) && UsedWithin(old(h).b, h.b)
    {
      hide Base, Core;
      ghost var h0, m0 := h, mem;
      var split := chosen + total;
      SplitMapped(h, mem, chosen, total);
      SplitStoresFit(h, mem, chosen, total);
      mem := mem[split := Pack(remaining, UNALLOCATED)];
      mem := mem[split + LEFT := total];
      var rightAfter := split + SizeIn(mem[split]);
      mem := mem[rightAfter + LEFT := remaining];
      assert mem == SplitStores(m0, chosen, h0.b[chosen].size, total);
      h := h.(b := Split(h.b, chosen, total));
      ghost var m1 := mem;
      EnterList(split, {chosen, split}, {chosen});
      TagsButKept(h, {chosen}, m1, mem, chosen);
      LinksKeepContents(h, {chosen}, m1, mem);
      PayloadTrans(h0.b, h.b, m0, m1, mem);
    }

    // ---- growing the heap ----

    /** sbrk(ARENA_SIZE): -1 on failure. */
    method Sbrk() returns (base: int)
      modifies this`mem, this`answers
      ensures |old(answers)| == 0 ==> base == -1 && mem == old(mem) && answers == []
      ensures |old(answers)| > 0 ==> answers == old(answers)[1..]
      ensures |old(answers)| > 0 && old(answers)[0].NoMemory? ==> base == -1 && mem == old(mem)
      ensures |old(answers)| > 0 && old(answers)[0].Grant? ==>
        base == old(answers)[0].base && mem == WithPages(old(mem), base, arena)
    {
      base := -1;
      if |answers| > 0 {
        if answers[0].Grant? {
          base := answers[0].base;
          mem := WithPages(mem, base, arena);
        }
        answers := answers[1..];
      }
    }

    method InitializeFencepost(fp: int, leftSize: int)
      requires fp in mem && fp + LEFT in mem
      modifies this`mem
      ensures mem == old(mem)[fp := HEADER + FENCEPOST][fp + LEFT := leftSize]
    {
      mem := mem[fp := SetStateOf(mem[fp], FENCEPOST)];
      mem := mem[fp := SetSize(mem[fp], HEADER)];
      mem := mem[fp + LEFT := leftSize];
    }

    /** The header stores of insert_fenceposts and allocate_chunk in a chunk of zeroed pages. */
    method FormatChunk(base: int)
      requires arena >= 64
      requires var r := base + arena - HEADER;
        && base in mem && base + LEFT in mem && r in mem && r + LEFT in mem
        && base + HEADER in mem && base + HEADER + LEFT in mem
      modifies this`mem
      ensures mem == ChunkStores(old(mem), base, arena)
    {
      InitializeFencepost(base, HEADER);
      InitializeFencepost(base + arena - HEADER, arena - 2 * HEADER);
      InitializeBlock(base + HEADER, arena - 2 * HEADER);
    }

    method InitializeBlock(hdr: int, size: int)
      requires hdr in mem && hdr + LEFT in mem
      modifies this`mem
      ensures mem == old(mem)[hdr := size][hdr + LEFT := HEADER]
    {
      mem := mem[hdr := SetStateOf(mem[hdr], UNALLOCATED)];
      mem := mem[hdr := SetSize(mem[hdr], size)];
      mem := mem[hdr + LEFT := HEADER];
    }

    method AllocateChunk() returns (hdr: int)
      requires arena % 8 == 0 && arena >= 528
      requires |answers| > 0 && answers[0].Grant? ==> answers[0].base % 8 == 0 && answers[0].base > 0
      modifies this`mem, this`answers, this`lastFencePost
      ensures answers == if |old(answers)| == 0 then [] else old(answers)[1..]
      ensures hdr == NULL <==> |old(answers)| == 0 || old(answers)[0].NoMemory?
      ensures hdr == NULL ==> mem == old(mem) && lastFencePost == old(lastFencePost)
      ensures hdr != NULL ==>
        var g := old(answers)[0].base;
        && hdr == g + HEADER && lastFencePost == g + arena - HEADER
        && mem == ChunkStores(WithPages(old(mem), g, arena), g, arena)
    {
      var base := Sbrk();
      if base == -1 {
        return NULL;
      }
      PagesDomain(old(mem), base, arena);
      FormatChunk(base);
      hdr := base + HEADER;
      lastFencePost := base + arena - HEADER;
    }

    method NewChunk() returns (newBlock: int)
      requires Valid()
      modifies this
      ensures newBlock == NULL <==> !Granting(old(h))
      ensures newBlock == NULL ==> Valid() && h == Denied(old(h)) && mem == old(mem)
      ensures newBlock != NULL ==> newBlock == old(h).answers[0].base + HEADER
      ensures newBlock != NULL ==> h == WithChunk(old(h), newBlock - HEADER)
      ensures newBlock != NULL ==> Wired({newBlock}) && Tags(mem, h.b)
      ensures newBlock != NULL ==> lastFencePost == h.last && answers == h.answers
      ensures PayloadKept(old(h).b, old(mem), mem)
    {
      ghost var h0, m0 := h, mem;
      newBlock := AllocateChunk();
      if newBlock == NULL {
        DeniedBase(h, {});
        h := Denied(h);
      } else {
        ChunkFits(h0, m0, newBlock - HEADER);
        h := WithChunk(h, newBlock - HEADER);
      }
    }

    /** insert_into_freelist when every tag is right and blk is the only free block off the lists. */
    method PutBack(blk: int)
      requires Wired({blk}) && Tags(mem, h.b) && FreeAt(h.b, blk)
      modifies this`mem, this`h
      ensures Wired({}) && Tags(mem, h.b) && h == Listing(old(h), blk)
      ensures PayloadKept(h.b, old(mem), mem) && DeadKept(h.b, old(mem), h.b, mem)
    {
      ghost var m0 := mem;
      HeaderMapped(h, {blk}, mem, blk);
      assert TagAt(mem, h.b, blk);
      ReadTag(h, {blk}, mem, blk);
      EnterList(blk, {blk}, {});
      TagsKept(h, {}, m0, mem);
      LinksKeepContents(h, {}, m0, mem);
      LinksKeepDead(h, {}, m0, mem);
    }

    /** Lines 196-200: the new chunk is contiguous with a free last block, which swallows it. */
    method MergeLast(leftOfPrev: int, newRightFp: int, ghost h0: Heap)
      requires Inv(h0) && CanGrow(h0) && h0.answers[0] == Grant(h0.last + HEADER)
      requires leftOfPrev == h0.last - h0.b[h0.last].left && newRightFp == h0.last + arena && h0.arena == arena
      requires h == WithChunk(h0, h0.last + HEADER)
      requires Wired({h0.last + 2 * HEADER}) && Tags(mem, h.b)
      modifies this`mem, this`h
      ensures Wired({}) && Tags(mem, h.b) && h == Grown(h0)
      ensures PayloadKept(h0.b, old(mem), mem)
    {
      hide Base, Core, Vacant, Coalesced, Collides, Grown;
      ghost var b1, m0, off := h.b, mem, {h0.last + 2 * HEADER, leftOfPrev};
      ghost var h2 := MergeModel(h0, leftOfPrev);
      ChunkUsed(h0);
      MergePlace(h0, leftOfPrev);
      RemoveFromFreelist(leftOfPrev, {h0.last + 2 * HEADER}, off);
      ghost var m1 := mem;
      MergeStep(h0.b, h0.last, h, h2, off, mem, leftOfPrev, newRightFp);
      StoreMerged(leftOfPrev, newRightFp, h2);
      PayloadTrans(h0.b, b1, m0, m0, m1);
      ghost var m2 := MergeStores(m1, leftOfPrev, newRightFp, newRightFp - leftOfPrev);
      PayloadTrans(h0.b, h0.b, m0, m1, m2);
      PayloadTrans(h0.b, h2.b, m0, m2, mem);
    }

    /** Lines 197-200. */
    method StoreMerged(leftOfPrev: int, newRightFp: int, ghost h2: Heap)
      requires h2.sent == sent && h2.arena == arena && MergeReady(h2, mem, leftOfPrev, newRightFp)
      modifies this`mem, this`h
      ensures Wired({}) && Tags(mem, h.b) && h == Listing(h2, leftOfPrev)
      ensures PayloadKept(h2.b, MergeStores(old(mem), leftOfPrev, newRightFp, newRightFp - leftOfPrev), mem)
    {
      var merged := newRightFp - leftOfPrev;
      ghost var m0 := mem;
      mem := mem[leftOfPrev := Pack(merged, UNALLOCATED)];
      mem := mem[newRightFp + LEFT := merged];
      assert mem == MergeStores(m0, leftOfPrev, newRightFp, merged);
      h := h2;
      PutBack(leftOfPrev);
    }

    /** Lines 183-190: what is left of the chunk becomes a free block when it is large enough. */
    method FreeRest(freeHdr: int, freeSize: int, newRightFp: int, total: int)
      requires RestReady(mem, sent, freeHdr, freeSize, newRightFp)
      modifies this`mem
      ensures mem == RestListed(old(mem), freeHdr, freeSize, newRightFp, total, Sentinel(sent, IndexOf(freeSize)))
    {
      if freeSize >= MIN_BLOCK {
        mem := mem[freeHdr := Pack(freeSize, UNALLOCATED)];
        mem := mem[freeHdr + LEFT := total];
        mem := mem[newRightFp + LEFT := freeSize];
        InsertIntoFreelist(freeHdr);
      } else {
        mem := mem[newRightFp + LEFT := total];
      }
    }

    /** Lines 174-176. */
    method PlaceHeader(hdr: int, leftOfPrev: int, ghost fp: int, total: int)
      requires Branch(h, mem, hdr, leftOfPrev, fp) && BlockSize(total)
      modifies this`mem
      ensures mem == BehindStores(old(mem), hdr, total, h.b[leftOfPrev].size)
    {
      BehindWords(h, mem, hdr, leftOfPrev, fp);
      RequestArithmetic(h, {hdr + HEADER}, hdr, total);
      mem := mem[hdr := Pack(total, ALLOCATED)];
      mem := mem[hdr + LEFT := SizeIn(mem[leftOfPrev])];
    }

    /** Lines 174-193, the branch for a contiguous chunk behind an allocated last block.  The size computation
        wraps around when the request exceeds the chunk; the stores then leave the chunk, reported as `fault`. */
    method PlaceBehindFencepost(hdr: int, leftOfPrev: int, newRightFp: int, total: int) returns (fault: bool)
      requires h.sent == sent && Branch(h, mem, hdr, leftOfPrev, newRightFp) && BlockSize(total)
      modifies this`mem, this`lastFencePost
      ensures fault <==> total > newRightFp - hdr
      ensures BehindDone(h, old(mem), mem, hdr, leftOfPrev, total)
      ensures !fault ==> lastFencePost == newRightFp && RestOf(mem, hdr, total, newRightFp)
      ensures var (m, f) := (BehindStores(old(mem), hdr, total, h.b[leftOfPrev].size), hdr + total);
        var rest := newRightFp - f;
        mem == if fault then m else RestListed(m, f, rest, newRightFp, total, Sentinel(sent, IndexOf(rest)))
    {
      hide Branch, BehindStores, RestListed, RestStores, IndexOf, RestOf, RestReady, BehindDone;
      ghost var m0 := mem;
      PlaceHeader(hdr, leftOfPrev, newRightFp, total);
      var freeHdr := hdr + total;
      var freeSize := newRightFp - freeHdr;
      fault := freeSize < 0;
      if fault {
        HeaderStored(h, m0, hdr, leftOfPrev, newRightFp, total);
      } else {
        BranchReady(h, m0, hdr, leftOfPrev, newRightFp, total);
        FreeRest(freeHdr, freeSize, newRightFp, total);
        BranchStored(h, m0, hdr, leftOfPrev, newRightFp, total, IndexOf(freeSize));
        lastFencePost := newRightFp;
      }
    }

    /** Lines 170-202, for a chunk contiguous with the last fence post. */
    method GrowContiguous(prevLast: int, newBlock: int, total: int, ghost h0: Heap, ghost m0: Memory)
      returns (g: Growth)
      requires PayloadKept(h0.b, m0, mem)
      requires Inv(h0) && Granting(h0) && newBlock == h0.answers[0].base + HEADER && BlockSize(total)
      requires prevLast == h0.last && newBlock - HEADER == prevLast + HEADER
      requires h == WithChunk(h0, newBlock - HEADER) && h.answers == answers && h.last == lastFencePost
      requires Wired({newBlock}) && Tags(mem, h.b)
      modifies this`mem, this`h, this`lastFencePost
      ensures GrowOutcome(h0, m0, h, mem, g, total) && g != Exhausted && (g == Grew ==> Valid())
    {
      hide Base, Core, Coalesced, Branch, Collided;
      var newLeftFp := newBlock - HEADER;
      var newRightFp := newLeftFp + arena - HEADER;
      ReadLast(h0, h);
      var back := GetLeft(prevLast, {newBlock});
      var leftOfPrev := prevLast - back;
      var state := GetState(leftOfPrev, {newBlock});
      if state == ALLOCATED {
        ghost var m1 := mem;
        EnterBranch(h0, h, mem, leftOfPrev);
        var fault := PlaceBehindFencepost(newLeftFp, leftOfPrev, newRightFp, total);
        LeaveBranch(h0, h, m0, m1, mem, total);
        return if fault then Fault else Behind(newLeftFp);
      }
      ghost var m1 := mem;
      MergeLast(leftOfPrev, newRightFp, h0);
      PayloadTrans(h0.b, h0.b, m0, m1, mem);
      lastFencePost := newRightFp;
      GrownInv(h0);
      return Grew;
    }

    /** Lines 203-205: a chunk elsewhere becomes a free block of its own. */
    method GrowApart(newBlock: int, ghost total: int, ghost h0: Heap, ghost m0: Memory)
      requires Inv(h0) && Granting(h0)
      requires newBlock == h0.answers[0].base + HEADER && newBlock - HEADER != h0.last + HEADER
      requires h == WithChunk(h0, newBlock - HEADER) && h.answers == answers && h.last == lastFencePost
      requires Wired({newBlock}) && Tags(mem, h.b) && PayloadKept(h0.b, m0, mem)
      modifies this`mem, this`h
      ensures Valid() && GrowOutcome(h0, m0, h, mem, Grew, total)
    {
      ghost var b1, m1 := h.b, mem;
      ChunkUsed(h0);
      GrantVacant(h0);
      PutBack(newBlock);
      PayloadTrans(h0.b, b1, m0, m1, mem);
      GrownInv(h0);
    }

    /** Lines 162-205. */
    method Grow(total: int) returns (g: Growth)
      requires Valid() && BlockSize(total)
      modifies this
      ensures GrowOutcome(old(h), old(mem), h, mem, g, total)
      ensures g == Exhausted || g == Grew ==> Valid()
    {
      ghost var h0, m0 := h, mem;
      var prevLast := lastFencePost;
      var newBlock := NewChunk();
      if newBlock == NULL {
        return Exhausted;
      }
      if newBlock - HEADER == prevLast + HEADER {
        g := GrowContiguous(prevLast, newBlock, total, h0, m0);
      } else {
        GrowApart(newBlock, total, h0, m0);
        g := Grew;
      }
    }

    /** allocate_object.  NULL means no memory; `fault` means that a store left the heap. */
    method AllocateObject(rawSize: int) returns (hdr: int, fault: bool)
      requires Valid() && rawSize >= 0
      modifies this
      ensures rawSize == 0 ==> hdr == NULL && !fault && h == old(h) && mem == old(mem) && Valid()
      ensures rawSize > 0 && !CollidesFor(old(h), BlockBytes(rawSize)) ==>
        && Valid() && !fault && h == Alloc(old(h), BlockBytes(rawSize)).0
        && Alloc(old(h), BlockBytes(rawSize)).1 == (if hdr == NULL then Failed else Got(hdr))
        && PayloadKept(old(h).b, old(mem), mem)
      ensures rawSize > 0 && CollidesFor(old(h), BlockBytes(rawSize)) ==>
        && Collided(old(h), old(mem), mem, BlockBytes(rawSize)) && (fault <==> BlockBytes(rawSize) > arena - HEADER)
        && hdr == if fault then NULL else old(h).last + HEADER
      ensures rawSize > 0 && SomeFits(old(h), BlockBytes(rawSize)) ==>
        hdr != NULL && |old(h).rings| == 59 && BestFitting(old(h), hdr, BlockBytes(rawSize))
      ensures rawSize > 0 && hdr != NULL && !CollidesFor(old(h), BlockBytes(rawSize)) ==>
        Served(old(h), BlockBytes(rawSize), hdr)
    {
      hide Collided, Chosen, Threaded, Mapped, Tags, Served, SomeFits, BestFitting;
      if rawSize == 0 {
        return NULL, false;
      }
      var total := BlockBytes(rawSize);
      ghost var h0, m0 := h, mem;
      AllocServes(h0, total);
      var listIndex := SizeToListIndex(total);
      fault := false;
      while true
        invariant Valid() && Alloc(h0, total) == Alloc(h, total) && !fault
        invariant (h == h0 && mem == m0) || (!Collides(h) && !CollidesFor(h0, total))
        invariant PayloadKept(h0.b, m0, mem) && UsedWithin(h0.b, h.b)
        decreases |answers|
      {
        ghost var b1, m1 := h.b, mem;
        var chosen := FindBlock(total, listIndex);
        if chosen != NULL {
          Carve(chosen, total);
          PayloadTrans(h0.b, b1, m0, m1, mem);
          return chosen, false;
        }
        ghost var h1 := h;
        var g := Grow(total);
        match g {
          case Exhausted =>
            return NULL, false;
          case Behind(p) =>
            return p, false;
          case Fault =>
            return NULL, true;
          case Grew =>
            GrownNoCollision(h1);
            GrownUsed(h1);
            PayloadTrans(h0.b, b1, m0, m1, mem);
        }
      }
    }

    // ---- deallocate_object ----

    /** Lines 229-232 and 238-241: block a swallows its right neighbour. */
    method AbsorbRightNeighbour(a: int, newSize: int, ghost off: set<int>)
      requires FreeAt(h.b, a) && FreeAt(h.b, a + h.b[a].size) && off == {a, a + h.b[a].size}
      requires Wired(off) && Tags(mem, h.b)
      requires newSize == h.b[a].size + h.b[a + h.b[a].size].size
      modifies this`mem, this`h
      ensures Wired({a}) && Tags(mem, h.b) && FreeAt(h.b, a)
      ensures var b0 := old(h).b; var r := a + b0[a].size;
        r + b0[r].size in b0 && h == old(h).(b := Absorb(b0, a))
      ensures PayloadKept(old(h).b, old(mem), mem)
      ensures DeadKept(old(h).b, old(mem), h.b, mem)
    {
      hide Base, Core, Tags, Threaded, Mapped, SizeIn, SetSize;
      ghost var r, m0 := a + h.b[a].size, mem;
      ghost var h' := AbsorbMemory(h, off, mem, a);
      ghost var rr := r + h.b[r].size;
      mem := mem[a := SetSize(mem[a], newSize)];
      var right := a + SizeIn(mem[a]);
      mem := mem[right + LEFT := newSize];
      assert mem == AbsorbStores(m0, a, newSize, rr);
      h := h';
    }

    /** Lines 226-233. */
    method CoalesceRight(hdr: int)
      requires Wired({hdr}) && Tags(mem, h.b) && FreeAt(h.b, hdr)
      modifies this`mem, this`h
      ensures Wired({hdr}) && Tags(mem, h.b) && h == JoinRight(old(h), hdr) && FreeAt(h.b, hdr)
      ensures PayloadKept(old(h).b, old(mem), mem) && UsedWithin(h.b, old(h).b)
      ensures DeadKept(old(h).b, old(mem), h.b, mem)
    {
      hide Base, Core, IndexOf;
      ghost var b0, m0 := h.b, mem;
      RightNeighbour(h, {hdr}, hdr);
      var size := GetSize(hdr, {hdr});
      var right := hdr + size;
      var state := GetState(right, {hdr});
      if state == UNALLOCATED {
        RemoveFromFreelist(right, {hdr}, {hdr, right});
        ghost var m1 := mem;
        LinksKeepDead(h, {hdr, right}, m0, mem);
        var rightSize := GetSize(right, {hdr, right});
        AbsorbRightNeighbour(hdr, size + rightSize, {hdr, right});
        PayloadTrans(b0, b0, m0, m1, mem);
        DeadTrans(b0, m0, b0, m1, h.b, mem);
      }
    }

    /** Lines 235-243. */
    method CoalesceLeft(hdr: int) returns (f: int)
      requires Wired({hdr}) && Tags(mem, h.b) && FreeAt(h.b, hdr)
      modifies this`mem, this`h
      ensures f == LeftEnd(old(h), hdr)
      ensures Wired({f}) && Tags(mem, h.b) && h == JoinLeft(old(h), hdr) && FreeAt(h.b, f)
      ensures PayloadKept(old(h).b, old(mem), mem) && UsedWithin(h.b, old(h).b)
      ensures DeadKept(old(h).b, old(mem), h.b, mem)
    {
      hide Base, Core;
      ghost var b0, m0 := h.b, mem;
      LeftNeighbour(h, {hdr}, hdr);
      f := hdr;
      var back := GetLeft(hdr, {hdr});
      var left := hdr - back;
      var state := GetState(left, {hdr});
      if state == UNALLOCATED {
        RemoveFromFreelist(left, {hdr}, {hdr, left});
        ghost var m1 := mem;
        LinksKeepDead(h, {hdr, left}, m0, mem);
        var leftSize := GetSize(left, {hdr, left});
        var size := GetSize(hdr, {hdr, left});
        AbsorbRightNeighbour(left, leftSize + size, {hdr, left});
        PayloadTrans(b0, b0, m0, m1, mem);
        DeadTrans(b0, m0, b0, m1, h.b, mem);
        f := left;
      }
    }

    /** deallocate_object.  `aborted` reports the failed assertion after "Double Free Detected". */
    method DeallocateObject(p: int) returns (aborted: bool)
      requires Valid()
      requires p == NULL || (p - HEADER in mem && (StateIn(mem[p - HEADER]) == ALLOCATED ==> UsedAt(h.b, p - HEADER)))
      modifies this`mem, this`h
      ensures aborted <==> p != NULL && !UsedAt(old(h).b, p - HEADER)
      ensures p == NULL || aborted ==> Valid() && h == old(h) && mem == old(mem)
      ensures p != NULL && !aborted ==>
        && Valid() && h == Release(old(h), p - HEADER)
        && PayloadKept(h.b, old(mem), mem) && Dead(h.b, mem, p - HEADER)
      ensures DeadKept(old(h).b, old(mem), h.b, mem)
    {
      if p == NULL {
        return false;
      }
      var hdr := p - HEADER;
      if UsedAt(h.b, hdr) { FreeStore(h, mem, hdr); SizeArithmetic(h, {}, hdr); }
      if StateIn(mem[hdr]) != ALLOCATED {
        return true;
      }
      ghost var h0, m0 := h, mem;
      FreedLoose(h, hdr);
      mem := mem[hdr := SetStateOf(mem[hdr], UNALLOCATED)];
      h := WithState(h, hdr, Free);
      Coalesce(hdr);
      DeadTrans(h0.b, m0, SetState(h0.b, hdr, Free), m0[hdr := h0.b[hdr].size], h.b, mem);
      PayloadNarrow(h.b, SetState(h0.b, hdr, Free), m0, m0[hdr := h0.b[hdr].size]);
      PayloadTrans(h.b, h.b, m0, m0[hdr := h0.b[hdr].size], mem);
      aborted := false;
    }

    /** Lines 226-245: the block just marked free joins its free neighbours and enters a list. */
    method Coalesce(hdr: int)
      requires Wired({hdr}) && Tags(mem, h.b) && FreeAt(h.b, hdr) && CoalescedBut(h.b, hdr, true, true)
      requires h.last == lastFencePost && h.answers == answers
      modifies this`mem, this`h
      ensures Valid()
      ensures h == Settle(old(h), hdr)
      ensures PayloadKept(h.b, old(mem), mem) && UsedWithin(h.b, old(h).b)
      ensures DeadKept(old(h).b, old(mem), h.b, mem)
    {
      ghost var h1, m1 := h, mem;
      CoalesceRight(hdr);
      JoinRightCoalesced(h1, hdr);
      ghost var h2, m2 := h, mem;
      var f := CoalesceLeft(hdr);
      JoinLeftCoalesced(h2, hdr);
      ghost var h3, m3 := h, mem;
      PutBack(f);
      DeadTrans(h1.b, m1, h2.b, m2, h3.b, m3);
      DeadTrans(h1.b, m1, h3.b, m3, h.b, mem);
      PayloadNarrow(h.b, h2.b, m2, m3);
      PayloadNarrow(h.b, h1.b, m1, m2);
      PayloadTrans(h.b, h.b, m1, m2, m3);
      PayloadTrans(h.b, h.b, m1, m3, mem);
    }

    // ---- the public functions ----

    method MyMalloc(size: int) returns (p: int, fault: bool)
      requires Valid() && size >= 0
      modifies this
      ensures size == 0 ==> p == NULL && !fault && h == old(h) && mem == old(mem) && Valid()
      ensures size > 0 && !CollidesFor(old(h), BlockBytes(size)) ==>
        && Valid() && !fault && h == Alloc(old(h), BlockBytes(size)).0
        && Alloc(old(h), BlockBytes(size)).1 == (if p == NULL then Failed else Got(p - HEADER))
        && PayloadKept(old(h).b, old(mem), mem)
      ensures size > 0 && CollidesFor(old(h), BlockBytes(size)) ==>
        && Collided(old(h), old(mem), mem, BlockBytes(size)) && (fault <==> BlockBytes(size) > arena - HEADER)
        && (!fault ==> p == old(h).last + 2 * HEADER)
      ensures size > 0 && SomeFits(old(h), BlockBytes(size)) ==>
        p != NULL && |old(h).rings| == 59 && BestFitting(old(h), p - 16, BlockBytes(size))
      ensures size > 0 && p != NULL && !CollidesFor(old(h), BlockBytes(size)) ==>
        Served(old(h), BlockBytes(size), p - 16)
    {
      hide Served, SomeFits, BestFitting, Alloc, CollidesFor;
      p, fault := NULL, false;
      if size != 0 {
        GotPositive(h, BlockBytes(size));
        var hdr, f := AllocateObject(size);
        fault := f;
        if hdr != NULL {
          p := hdr + HEADER;
        }
      }
    }

    method MyFree(p: int) returns (aborted: bool)
      requires Valid()
      requires p == NULL || (p - HEADER in mem && (StateIn(mem[p - HEADER]) == ALLOCATED ==> UsedAt(h.b, p - HEADER)))
      modifies this`mem, this`h
      ensures Valid() && (aborted <==> p != NULL && !UsedAt(old(h).b, p - HEADER))
      ensures p == NULL || aborted ==> h == old(h) && mem == old(mem)
      ensures p != NULL && !aborted ==>
        && h == Release(old(h), p - HEADER) && PayloadKept(h.b, old(mem), mem) && Dead(h.b, mem, p - HEADER)
      ensures DeadKept(old(h).b, old(mem), h.b, mem)
    {
      aborted := DeallocateObject(p);
    }

    /** The owner of block a stores v into a word of its payload. */
    method Store(a: int, w: int, v: int)
      requires Valid() && Payload(h.b, a, w) && IsWord(w)
      modifies this`mem
      ensures Valid() && mem == old(mem)[w := v] && w in old(mem)
    {
      BlockMapped(h, {}, mem, a, w);
      PayloadStore(h, {}, mem, a, w, v);
      mem := mem[w := v];
    }

    /** memcpy between the payloads of two live blocks. */
    method MemCopy(d: int, s: int, n: nat)
      requires Valid() && UsedAt(h.b, d) && UsedAt(h.b, s) && d != s
      requires n <= h.b[d].size - HEADER && n <= h.b[s].size - HEADER
      modifies this`mem
      ensures Valid()
      ensures BytesCopied(old(mem), mem, d + HEADER, s + HEADER, n) && BytesKept(old(mem), mem, d + HEADER, n)
      ensures forall w {:trigger Word(mem, w)} | !(d + HEADER <= w < d + h.b[d].size) ::
        Word(mem, w) == Word(old(mem), w)
    {
      var dst, src, words, tail, k := d + HEADER, s + HEADER, n / 8, n % 8, 0;
      ghost var m0 := mem;
      CopyPlace(h, mem, d, s, n);
      while k < words
        invariant 0 <= k <= words && Valid() && mem.Keys == m0.Keys
        invariant WordsCopied(m0, mem, dst, src, k)
      {
        CopyWord(h, mem, d, s, k);
        CopyOneWord(m0, mem, dst, src, k);
        Store(d, dst + 8 * k, mem[src + 8 * k]);
        k := k + 1;
      }
      ghost var last, m1 := Word(mem, dst + 8 * k), mem;
      if tail > 0 {
        CopyWord(h, mem, d, s, k);
        assert Word(mem, src + 8 * k) == Word(m0, src + 8 * k);
        Store(d, dst + 8 * k, Merge(mem[dst + 8 * k], mem[src + 8 * k], tail));
        CopyTail(m0, m1, mem, dst, src, k, Merge(last, Word(m0, src + 8 * k), tail));
      }
      CopiedBytes(m0, mem, dst, src, n, last);
    }

    /** Lines 365-370: the contents of block s move to the new block d, and s is freed. */
    method MoveTo(s: int, d: int, size: int, ghost h0: Heap, ghost m0: Memory)
      requires Valid() && size > 0 && UsedAt(h.b, s)
      requires Inv(h0) && UsedAt(h0.b, s) && NewBlock(h0, h, d, size) && PayloadKept(h0.b, m0, mem)
      modifies this`mem, this`h
      ensures Valid() && Moved(h0, old(h), h, m0, mem, s, d, size)
    {
      StillUsed(h0, h, s, d, size);
      var copySize := GetSize(s, {});
      copySize := copySize - HEADER;
      if size < copySize {
        copySize := size;
      }
      ghost var h1, m1 := h, mem;
      MemCopy(d, s, copySize);
      ghost var m2 := mem;
      ReadOne(h, {}, mem, s);
      var aborted := MyFree(s + HEADER);
      MoveMeaning(h0, h1, m0, m1, m2, mem, s, d, size);
    }

    /** my_realloc.  The contents move to the new block; every other live block keeps its own.  Only a move for
        which the call of malloc inside collides is left aside. */
    method MyRealloc(ptr: int, size: int) returns (p: int)
      requires Valid() && size >= 0 && (ptr == NULL || UsedAt(h.b, ptr - HEADER))
      requires ptr != NULL && size > 0 ==> !CollidesFor(h, BlockBytes(size))
      modifies this
      ensures size > 0 && CollidesFor(old(h), BlockBytes(size)) ==> Collided(old(h), old(mem), mem, BlockBytes(size))
      ensures size == 0 || !CollidesFor(old(h), BlockBytes(size)) ==>
        Valid() && Realloced(old(h), h, old(mem), mem, ptr, size, p)
    {
      hide Alloc, CollidesFor;
      if ptr == NULL {
        var fault;
        p, fault := MyMalloc(size);
      } else if size == 0 {
        ReadOne(h, {}, mem, ptr - HEADER);
        var aborted := MyFree(ptr);
        p := NULL;
      } else {
        p := Reallocate(ptr, size);
      }
    }

    /** Lines 363-370. */
    method Reallocate(ptr: int, size: int) returns (p: int)
      requires Valid() && size > 0 && UsedAt(h.b, ptr - HEADER) && !CollidesFor(h, BlockBytes(size))
      modifies this
      ensures Valid() && Realloced(old(h), h, old(mem), mem, ptr, size, p)
    {
      hide Alloc, CollidesFor, Served, BestFitting, SomeFits;
      ghost var h0, m0 := h, mem;
      var fault;
      p, fault := MyMalloc(size);
      if p != NULL {
        AllocMeaning(h0, BlockBytes(size));
        StillUsed(h0, h, ptr - HEADER, p - HEADER, size);
        MoveTo(ptr - HEADER, p - HEADER, size, h0, m0);
      }
    }

    /** my_free of a pointer that is live or dead, with the dead address x in mind. */
    method FreeOne(q: int, ghost others: seq<int>, ghost x: int) returns (aborted: bool)
      requires Valid() && LiveOrDead(h.b, mem, q) && AllLiveOrDead(h.b, mem, others)
      modifies this`mem, this`h
      ensures Valid() && AllLiveOrDead(h.b, mem, others)
      ensures old(Dead(h.b, mem, x)) ==> Dead(h.b, mem, x)
      ensures aborted <==> q != NULL && !UsedAt(old(h).b, q - HEADER)
      ensures q != NULL && !aborted ==> Dead(h.b, mem, q - HEADER)
    {
      ReadDead(h, mem, q);
      ghost var h0, m0 := h, mem;
      aborted := MyFree(q);
      FreedOrDead(h0, m0, h, mem, others, q);
      assert Dead(h0.b, m0, x) ==> Dead(h.b, mem, x);
    }

    /** Free p, then the pointers in `others`, some of which may have been freed before, then p again: as long as
        nothing is allocated in between, the second free of p is caught, also when the block at p was merged into
        its left neighbour in the meantime. */
    method FreeTwice(p: int, others: seq<int>) returns (caught: bool)
      requires Valid() && p != NULL && UsedAt(h.b, p - HEADER) && AllLiveOrDead(h.b, mem, others)
      modifies this`mem, this`h
      ensures Valid() && caught
    {
      var aborted := FreeOne(p, others, p - HEADER);
      var i := 0;
      while i < |others|
        invariant 0 <= i <= |others| && Valid() && Dead(h.b, mem, p - HEADER) && AllLiveOrDead(h.b, mem, others)
      {
        assert others[i] in others;
        aborted := FreeOne(others[i], others, p - HEADER);
        i := i + 1;
      }
      ReadDead(h, mem, p);
      caught := FreeOne(p, others, p - HEADER);
    }
  }
}
