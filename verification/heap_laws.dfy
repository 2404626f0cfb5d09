/** What allocating and freeing mean for each other, and when free blocks of malloc/alloc.c come to touch. */
module HeapLaws {
  import opened HeapMemory
  import opened HeapAllocator

  // ---- freeing after a split ----

  /** The block below `a` is free, so that freeing `a` merges into it. */
  ghost predicate FreeBelow(n: nat, bs: Blocks, a: int)
    requires Layout(n, bs) && a in bs
  {
    a > 0 && bs[Before(n, bs, 0, a)].free
  }

  lemma {:induction false} SameBefore(n: nat, bs: Blocks, bs': Blocks, x: int, a: int)
    requires Layout(n, bs) && Layout(n, bs') && x in bs && a in bs && a in bs' && x < a
    requires forall b :: b in bs && b < a ==> b in bs' && bs'[b] == bs[b]
    ensures Before(n, bs', x, a) == Before(n, bs, x, a)
    decreases a - x
  {
    NextBoundary(n, bs, x);
    hide Layout;
    assert bs'[x] == bs[x] && a < n;
    if End(bs, x) != a {
      SameBefore(n, bs, bs', End(bs, x), a);
    }
  }

  /** Freeing the first part of a split block joins it with the rest, if the rest is seen, and so undoes the split. */
  lemma SplitThenFree(n: nat, bs: Blocks, a: int, size: nat, tail: int)
    requires Layout(n, bs) && a in bs && bs[a].free && Splits(bs[a], size) && tail >= a + META + size
    requires Layout(n, Taken(bs, a, size))
    ensures var bs1 := Taken(bs, a, size);
            && Live(bs1, a) && JoinsNext(bs1, tail, a) && End(bs1, a) == a + META + size && End(bs1, a) !in bs
            && FreedTo(bs1, tail, a) == End(bs, a)
            && FreedFrom(n, bs1, a) == (if FreeBelow(n, bs, a) then Before(n, bs, 0, a) else a)
            && Merge(bs1, FreedFrom(n, bs1, a), End(bs, a), true) ==
               if FreeBelow(n, bs, a) then Merge(bs, Before(n, bs, 0, a), End(bs, a), true) else bs
  {
    var bs1 := Taken(bs, a, size);
    SplitRetiles(n, bs, a, size);
    FirstBlock(n, bs, a);
    assert bs1[a + META + size] == Info(bs[a].size - META - size, true);
    SplitAndMerged(n, bs, a, size);
    hide Layout, IsBoundary, Merge;
    if a > 0 {
      SameBefore(n, bs, bs1, 0, a);
    }
  }

  lemma SplitAndMerged(n: nat, bs: Blocks, a: int, size: nat)
    requires Layout(n, bs) && a in bs && bs[a].free && Splits(bs[a], size)
    ensures Merge(Taken(bs, a, size), a, End(bs, a), true) == bs
    ensures forall lo :: lo + META <= End(bs, a) && lo <= a ==>
              Merge(Taken(bs, a, size), lo, End(bs, a), true) == Merge(bs, lo, End(bs, a), true)
  {
    OnlyStart(n, bs, a);
    hide Layout;
  }

  /**
    A request served by splitting, and the free of its result: the heap is tiled as before, or, if the block below is
    free, with that block and the one taken joined. The block is then the head of the list, so the same request gets
    the same pointer again and needs no more heap.
   */
  method AllocateAndFree(h: Heap, size: nat, more: bool) returns (ptr: int)
    requires h.Valid() && 0 < size && size + META < SBRK_LIMIT
    requires FirstFit(h.blocks, h.freeList, size) < |h.freeList|
    requires Splits(h.blocks[h.freeList[FirstFit(h.blocks, h.freeList, size)]], size)
    modifies h
    ensures h.Valid() && |h.mem| == |old(h.mem)|
    ensures Layout(|old(h.mem)|, old(h.blocks))
    ensures var n, bs, fl := |old(h.mem)|, old(h.blocks), old(h.freeList);
            var a := fl[FirstFit(bs, fl, size)];
            && ptr == a + NODE_SIZE
            && (if FreeBelow(n, bs, a)
                then h.blocks == Merge(bs, Before(n, bs, 0, a), End(bs, a), true) && h.freeList == Without(fl, a)
                else h.blocks == bs && h.freeList == [a] + Without(fl, a) && FirstFit(h.blocks, h.freeList, size) == 0)
  {
    hide Layout, IsBoundary, Tiled, Linked, LinksOf, ListsFree, Keeps, Merge, Before, FirstFit, Without, Taken, Splits;
    hide FreedFrom, FreedTo, JoinsNext, FreeBelow, HeapMemory.Inv;
    ghost var n, bs, fl := |h.mem|, h.blocks, h.freeList;
    ghost var a := fl[FirstFit(bs, fl, size)];
    Chosen(h, size);
    ptr := h.Malloc(size, more);
    HeapShape(h);
    ghost var bs1, fl1, rest := h.blocks, h.freeList, a + META + size;
    SplitThenFree(n, bs, a, size, h.tailMem);
    assert Live(h.blocks, ptr - NODE_SIZE);
    RestDropped(fl, a, rest);
    h.Free(ptr);
    FrontFits(bs, Without(fl, a), a, size);
  }

  lemma HeapShape(h: Heap)
    requires h.Valid()
    ensures Layout(|h.mem|, h.blocks)
  {
    hide BlockAt, Linked, LinksOf;
  }

  lemma Chosen(h: Heap, size: nat)
    requires h.Valid() && FirstFit(h.blocks, h.freeList, size) < |h.freeList|
    ensures var a := h.freeList[FirstFit(h.blocks, h.freeList, size)];
            && Layout(|h.mem|, h.blocks) && a in h.blocks && h.blocks[a].free && h.blocks[a].size >= size && a >= 0
    ensures forall x :: x in h.freeList ==> x in h.blocks
  {
    hide BlockAt, Linked, LinksOf, IsBoundary;
  }

  lemma RestDropped(fl: seq<int>, a: int, rest: int)
    requires rest !in fl
    ensures Without([rest] + Without(fl, a), rest) == Without(fl, a)
  {
    WithoutNothing(Without(fl, a), rest);
    assert ([rest] + Without(fl, a))[1..] == Without(fl, a);
  }

  lemma FrontFits(bs: Blocks, fl: seq<int>, a: int, size: nat)
    requires a in bs && bs[a].size >= size
    ensures FirstFit(bs, [a] + fl, size) == 0
  {
  }

  // ---- free blocks that touch ----

  /** No free block ends where another one starts. */
  ghost predicate Separated(bs: Blocks) {
    forall x :: x in bs && bs[x].free && End(bs, x) in bs ==> !bs[End(bs, x)].free
  }

  /** The block above `a` is free but lies above `tail`, where the lookup does not see it. */
  ghost predicate UnseenFree(bs: Blocks, tail: int, a: int)
    requires a in bs
  {
    End(bs, a) > tail && End(bs, a) in bs && bs[End(bs, a)].free
  }

  /** What freeing `a` does to the neighbours of the block that is free then. */
  lemma FreedNeighbours(n: nat, bs: Blocks, tail: int, a: int)
    requires Layout(n, bs) && Live(bs, a)
    ensures var lo, hi := FreedFrom(n, bs, a), FreedTo(bs, tail, a);
            && lo in bs && lo <= a && lo + META <= hi
            && (forall x :: x in Merge(bs, lo, hi, true) && x != lo ==> x in bs && !(lo <= x < hi))
            && (forall x :: x in bs && !(lo <= x < hi) ==>
                  x in Merge(bs, lo, hi, true) && Merge(bs, lo, hi, true)[x] == bs[x])
            && Merge(bs, lo, hi, true)[lo] == Info(hi - lo - META, true)
            && (lo < a ==> bs[lo].free && End(bs, lo) == a)
            && (hi == End(bs, a) || (End(bs, a) in bs && bs[End(bs, a)].free && End(bs, End(bs, a)) == hi))
            && (JoinsNext(bs, tail, a) <==> hi != End(bs, a))
  {
    FreedRangeIs(n, bs, tail, a);
    if JoinsNext(bs, tail, a) {
      assert End(bs, End(bs, a)) > End(bs, a);
    }
    hide Layout, IsBoundary;
  }

  /**
    Freeing keeps free blocks apart exactly if it does not miss one: if the block above is not free, or is free and
    seen. So after it the block at `lo` has no free neighbour at all.
   */
  lemma FreeKeepsSeparated(n: nat, bs: Blocks, tail: int, a: int)
    requires Layout(n, bs) && Live(bs, a) && Separated(bs)
    ensures var lo, hi := FreedFrom(n, bs, a), FreedTo(bs, tail, a);
            && lo + META <= hi
            && (Separated(Merge(bs, lo, hi, true)) <==> !UnseenFree(bs, tail, a))
  {
    var lo, hi := FreedFrom(n, bs, a), FreedTo(bs, tail, a);
    FreedNeighbours(n, bs, tail, a);
    var bs' := Merge(bs, lo, hi, true);
    if UnseenFree(bs, tail, a) {
      assert bs'[lo].free && End(bs', lo) == hi == End(bs, a) && bs'[hi].free;
    } else {
      forall x | x in bs' && bs'[x].free && End(bs', x) in bs'
        ensures !bs'[End(bs', x)].free
      {
        OneSide(n, bs, tail, a, x);
      }
    }
  }

  lemma OneSide(n: nat, bs: Blocks, tail: int, a: int, x: int)
    requires Layout(n, bs) && Live(bs, a) && Separated(bs) && !UnseenFree(bs, tail, a)
    requires FreedFrom(n, bs, a) + META <= FreedTo(bs, tail, a)
    requires var bs' := Merge(bs, FreedFrom(n, bs, a), FreedTo(bs, tail, a), true);
             x in bs' && bs'[x].free && End(bs', x) in bs'
    ensures var bs' := Merge(bs, FreedFrom(n, bs, a), FreedTo(bs, tail, a), true); !bs'[End(bs', x)].free
  {
    hide Layout, FreedFrom, FreedTo, Merge, Separated;
    var lo, hi := FreedFrom(n, bs, a), FreedTo(bs, tail, a);
    FreedNeighbours(n, bs, tail, a);
    var bs' := Merge(bs, lo, hi, true);
    var e := End(bs', x);
    if x == lo {
      assert e == hi && bs'[hi] == bs[hi];
      if hi != End(bs, a) {
        Apart(bs, End(bs, a));
      }
    } else if e == lo {
      assert bs'[x] == bs[x] && End(bs, x) == lo;
      if lo < a {
        Apart(bs, x);
      } else {
        NotFreeBelow(n, bs, a, x);
      }
    } else {
      assert bs'[x] == bs[x] && bs'[e] == bs[e] && End(bs, x) == e;
      Apart(bs, x);
    }
  }

  lemma Apart(bs: Blocks, x: int)
    requires Separated(bs) && x in bs && bs[x].free && End(bs, x) in bs
    ensures !bs[End(bs, x)].free
  {
  }

  lemma NotFreeBelow(n: nat, bs: Blocks, a: int, x: int)
    requires Layout(n, bs) && a in bs && FreedFrom(n, bs, a) >= a && x in bs && End(bs, x) == a
    ensures !bs[x].free
  {
    BelowIs(n, bs, a);
  }

  /** The block that ends where `a` starts is the one `Before` finds. */
  lemma BelowIs(n: nat, bs: Blocks, a: int)
    requires Layout(n, bs) && a in bs
    ensures 0 in bs && 0 <= a
    ensures forall x :: x in bs && End(bs, x) == a ==> a > 0 && Before(n, bs, 0, a) == x
  {
    FirstBlock(n, bs, a);
    forall x | x in bs && End(bs, x) == a
      ensures a > 0 && Before(n, bs, 0, a) == x
    {
      assert 0 <= x < a;
    }
  }

  /** Allocating keeps free blocks apart: a rest is followed by what followed the block it was cut from. */
  lemma TakenKeepsSeparated(n: nat, bs: Blocks, a: int, size: nat)
    requires Layout(n, bs) && a in bs && bs[a].free && Separated(bs)
    ensures Separated(Taken(bs, a, size))
  {
    if Splits(bs[a], size) {
      SplitRetiles(n, bs, a, size);
    }
    var bs', rest := Taken(bs, a, size), a + META + size;
    forall x | x in bs' && bs'[x].free && End(bs', x) in bs'
      ensures !bs'[End(bs', x)].free
    {
      NextBoundary(n, bs, a);
      if x in bs && x != a {
        NextBoundary(n, bs, x);
        assert bs'[x] == bs[x];
        if End(bs, x) in bs {
          Apart(bs, x);
        }
      } else {
        assert x == rest && End(bs', x) == End(bs, a) && End(bs, a) in bs;
        Apart(bs, a);
      }
    }
  }

  lemma GrownKeepsSeparated(n: nat, bs: Blocks, size: nat)
    requires Layout(n, bs) && Separated(bs)
    ensures Separated(bs[n := Info(size, false)])
  {
    hide IsBoundary;
    var bs' := bs[n := Info(size, false)];
    forall x | x in bs' && bs'[x].free && End(bs', x) in bs'
      ensures !bs'[End(bs', x)].free
    {
      assert bs'[x] == bs[x];
      if End(bs, x) != n {
        Apart(bs, x);
      }
    }
  }

  /** `malloc` never makes free blocks touch. */
  method Allocate(h: Heap, size: nat, more: bool) returns (ptr: int)
    requires h.Valid() && size + META < SBRK_LIMIT && Separated(h.blocks)
    modifies h
    ensures h.Valid() && Separated(h.blocks)
  {
    hide Layout, Linked, LinksOf, BlockAt, IsBoundary, Keeps, Separated, Taken;
    ghost var n, bs, fl := |h.mem|, h.blocks, h.freeList;
    ghost var i := FirstFit(bs, fl, size);
    HeapShape(h);
    if i < |fl| {
      Chosen(h, size);
      TakenKeepsSeparated(n, bs, fl[i], size);
    }
    GrownKeepsSeparated(n, bs, size);
    ptr := h.Malloc(size, more);
  }

  /** `free` makes free blocks touch exactly if the block above is free and out of sight. */
  method Release(h: Heap, ptr: int)
    requires h.Valid() && Live(h.blocks, ptr - NODE_SIZE) && Separated(h.blocks)
    modifies h
    ensures h.Valid()
    ensures Separated(h.blocks) <==> !old(UnseenFree(h.blocks, h.tailMem, ptr - NODE_SIZE))
  {
    hide Layout, Linked, LinksOf, BlockAt, IsBoundary, Keeps, Separated, Merge, FreedFrom, FreedTo;
    HeapShape(h);
    LiveIsNotNull(h, ptr);
    FreeKeepsSeparated(|h.mem|, h.blocks, h.tailMem, ptr - NODE_SIZE);
    h.Free(ptr);
  }

  lemma LiveIsNotNull(h: Heap, ptr: int)
    requires h.Valid() && Live(h.blocks, ptr - NODE_SIZE)
    ensures ptr != NULL
  {
    HeapShape(h);
  }

  /**
    It does happen: with `tail_mem` still at the first of three blocks, freeing the third and then the second leaves
    two free blocks side by side.
   */
  method FreeBlocksCanTouch() returns (h: Heap)
    ensures h.Valid() && !Separated(h.blocks)
  {
    hide Layout, IsBoundary, Tiled, Linked, LinksOf, ListsFree, Keeps, Merge, FreedFrom, FreedTo, JoinsNext, Separated;
    h := new Heap(0);
    var p := h.Malloc(8, true);
    var q := h.Malloc(8, true);
    var r := h.Malloc(8, true);
    var used, free := Info(8, false), Info(8, true);
    assert h.blocks == map[0 := used, 48 := used, 96 := used] && h.tailMem == 0 && r == 128 && q == 80;
    HeapShape(h);
    FreedAlone(|h.mem|, h.blocks, 0, 96, 48);
    h.Free(r);
    assert h.blocks == map[0 := used, 48 := used, 96 := free] && h.tailMem == 0;
    HeapShape(h);
    FreedAlone(|h.mem|, h.blocks, 0, 48, 0);
    h.Free(q);
    assert h.blocks == map[0 := used, 48 := free, 96 := free];
    TouchingPair();
  }

  lemma FreedAlone(n: nat, bs: Blocks, tail: int, a: int, below: int)
    requires Layout(n, bs) && a in bs && below in bs && End(bs, below) == a && !bs[below].free && End(bs, a) > tail
    ensures FreedFrom(n, bs, a) == a && FreedTo(bs, tail, a) == End(bs, a) && !JoinsNext(bs, tail, a)
    ensures Merge(bs, a, End(bs, a), true) == bs[a := Info(bs[a].size, true)]
  {
    hide IsBoundary, Merge;
    BelowIs(n, bs, a);
    FlaggedOnly(n, bs, a);
  }

  lemma FlaggedOnly(n: nat, bs: Blocks, a: int)
    requires Layout(n, bs) && a in bs
    ensures Merge(bs, a, End(bs, a), true) == bs[a := Info(bs[a].size, true)]
  {
    OnlyStart(n, bs, a);
    hide Layout;
  }

  lemma TouchingPair()
    ensures !Separated(map[0 := Info(8, false), 48 := Info(8, true), 96 := Info(8, true)])
  {
    var bs := map[0 := Info(8, false), 48 := Info(8, true), 96 := Info(8, true)];
    assert 48 in bs && bs[48].free && End(bs, 48) == 96;
  }
}