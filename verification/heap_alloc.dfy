/** malloc/alloc.c: first fit over an intrusive free list, with splitting, boundary tags and coalescing. */
module HeapAllocator {
  import opened Arithmetic
  import opened HeapMemory
  import opened Wrappers

  // ---- what the operations do to the blocks ----

  predicate Splits(b: Info, size: nat) {
    b.size >= META + size + SPLIT_THRESHOLD
  }

  /** The blocks after `size` bytes are taken from the free block `a`. */
  ghost function Taken(bs: Blocks, a: int, size: nat): Blocks
    requires a in bs
  {
    if Splits(bs[a], size)
    then bs[a := Info(size, false)][a + META + size := Info(bs[a].size - META - size, true)]
    else bs[a := Info(bs[a].size, false)]
  }

  /** Where the free block that block `a` becomes part of starts: at the block below if that one is free. */
  ghost function FreedFrom(n: nat, bs: Blocks, a: int): (lo: int)
    requires Layout(n, bs) && a in bs
  {
    if a > 0 && bs[Before(n, bs, 0, a)].free then Before(n, bs, 0, a) else a
  }

  /** Whether the block above `a` is seen and free; blocks above `tail` are not seen. */
  ghost predicate JoinsNext(bs: Blocks, tail: int, a: int)
    requires a in bs
  {
    End(bs, a) <= tail && End(bs, a) in bs && bs[End(bs, a)].free
  }

  ghost function FreedTo(bs: Blocks, tail: int, a: int): (hi: int)
    requires a in bs
  {
    if JoinsNext(bs, tail, a) then End(bs, End(bs, a)) else End(bs, a)
  }

  /** The position of the first block of the list that can hold `size` bytes. */
  ghost function FirstFit(bs: Blocks, fl: seq<int>, size: nat): (i: nat)
    ensures i <= |fl|
    ensures i < |fl| ==> fl[i] in bs && bs[fl[i]].size >= size
    ensures forall j :: 0 <= j < i ==> fl[j] !in bs || bs[fl[j]].size < size
  {
    if fl == [] || (fl[0] in bs && bs[fl[0]].size >= size) then 0 else 1 + FirstFit(bs, fl[1..], size)
  }

  function Without(fl: seq<int>, a: int): (r: seq<int>)
    ensures forall x :: x in r <==> x in fl && x != a
  {
    if fl == [] then [] else (if fl[0] == a then [] else [fl[0]]) + Without(fl[1..], a)
  }

  lemma {:induction false} WithoutAt(fl: seq<int>, i: nat)
    requires i < |fl| && (forall x, y :: 0 <= x < y < |fl| ==> fl[x] != fl[y])
    ensures Without(fl, fl[i]) == fl[..i] + fl[i + 1..]
  {
    if i > 0 {
      WithoutAt(fl[1..], i - 1);
      assert fl[..i] == [fl[0]] + fl[1..][..i - 1];
    } else {
      WithoutNothing(fl[1..], fl[0]);
    }
  }

  lemma {:induction false} WithoutNothing(fl: seq<int>, a: int)
    requires a !in fl
    ensures Without(fl, a) == fl
  {
    if fl != [] {
      WithoutNothing(fl[1..], a);
    }
  }

  // ---- single stores of links ----

  ghost predicate PayloadsSame(m: Memory, m': Memory, bs: Blocks) {
    |m'| == |m| && (forall b :: b in bs ==> SameInside(m, m', b + NODE_SIZE, b + NODE_SIZE + bs[b].size))
  }

  lemma PayloadsSameRefl(m: Memory, bs: Blocks)
    requires Tiled(m, bs)
    ensures PayloadsSame(m, m, bs)
  {
    hide IsBoundary;
    assert forall b :: b in bs ==> End(bs, b) <= |m|;
  }

  lemma PayloadsSameTrans(m: Memory, m1: Memory, m2: Memory, bs: Blocks)
    requires PayloadsSame(m, m1, bs) && PayloadsSame(m1, m2, bs)
    ensures PayloadsSame(m, m2, bs)
  {
    forall b | b in bs
      ensures SameInside(m, m2, b + NODE_SIZE, b + NODE_SIZE + bs[b].size)
    {
      assert SameInside(m, m1, b + NODE_SIZE, b + NODE_SIZE + bs[b].size);
    }
  }

  lemma SetPrevEffect(m: Memory, bs: Blocks, a: int, v: int)
    requires Tiled(m, bs) && a in bs
    ensures 0 <= a && a + NODE_SIZE <= |m|
    ensures var m' := SetWord(m, a + 16, v);
            && Tiled(m', bs) && PayloadsSame(m, m', bs)
            && LinksOf(m', bs) == Links(LinksOf(m, bs).prev[a := Some(v)], LinksOf(m, bs).next)
  {
    hide Tiled, WordAt, IsBoundary, SetWord, SameInside, SameLinks, WordOf;
    LinkStore(m, bs, a, 16, v);
    var m' := SetWord(m, a + 16, v);
    forall b | b in bs
      ensures WordOf(m', b + 16) == if b == a then Some(v) else WordOf(m, b + 16)
      ensures WordOf(m', b + 24) == WordOf(m, b + 24)
    {
      if b == a {
        SameWord(m, m', a + 24);
      } else {
        SameLinkWords(m, m', b);
      }
    }
  }

  lemma SetNextEffect(m: Memory, bs: Blocks, a: int, v: int)
    requires Tiled(m, bs) && a in bs
    ensures 0 <= a && a + NODE_SIZE <= |m|
    ensures var m' := SetWord(m, a + 24, v);
            && Tiled(m', bs) && PayloadsSame(m, m', bs)
            && LinksOf(m', bs) == Links(LinksOf(m, bs).prev, LinksOf(m, bs).next[a := Some(v)])
  {
    hide Tiled, WordAt, IsBoundary, SetWord, SameInside, SameLinks, WordOf;
    LinkStore(m, bs, a, 24, v);
    var m' := SetWord(m, a + 24, v);
    forall b | b in bs
      ensures WordOf(m', b + 24) == if b == a then Some(v) else WordOf(m, b + 24)
      ensures WordOf(m', b + 16) == WordOf(m, b + 16)
    {
      if b == a {
        SameWord(m, m', a + 16);
      } else {
        SameLinkWords(m, m', b);
      }
    }
  }

  // ---- the free list after linking and unlinking ----

  /** Linking a node in front of the head. */
  lemma LinkFront(l: Links, head: int, fl: seq<int>, a: int, back: Option<int>)
    requires Linked(l, head, fl) && a !in fl && a in l.next && a in l.prev
    ensures var prev := l.prev[a := back];
            Linked(Links(if fl == [] then prev else prev[fl[0] := Some(a)], l.next[a := Some(head)]), a, [a] + fl)
  {
    var r := [a] + fl;
    assert forall i :: 0 < i < |r| ==> r[i] == fl[i - 1];
    assert forall i :: 0 <= i < |r| ==> At(r, i + 1) == At(fl, i);
  }

  lemma UnlinkHead(l: Links, head: int, fl: seq<int>)
    requires Linked(l, head, fl) && fl != []
    ensures Linked(l, At(fl, 1), fl[1..])
  {
    var r := fl[1..];
    assert forall i :: 0 <= i < |r| ==> r[i] == fl[i + 1];
    assert forall i :: 0 <= i <= |r| ==> At(r, i) == At(fl, i + 1);
  }

  /** Unlinking an inner node: its neighbours now point at each other, and its own links no longer matter. */
  lemma UnlinkInner(l: Links, head: int, fl: seq<int>, i: nat, own: Option<int>)
    requires Linked(l, head, fl) && 0 < i < |fl|
    ensures var next := l.next[fl[i - 1] := Some(At(fl, i + 1))];
            var prev := if i + 1 < |fl| then l.prev[fl[i + 1] := Some(fl[i - 1])] else l.prev;
            Linked(Links(prev[fl[i] := own], next[fl[i] := own]), head, fl[..i] + fl[i + 1..])
  {
    var r := fl[..i] + fl[i + 1..];
    assert forall k :: 0 <= k < |r| ==> r[k] == fl[if k < i then k else k + 1];
  }

  // ---- headers, tags and merging ----

  lemma WordIs(m: Memory, a: int, v: int)
    requires WordAt(m, a, v)
    ensures Word(m, a) == v
  {
    assert m[a] == Part(v, 0);
  }

  lemma HeaderWords(m: Memory, bs: Blocks, a: int)
    requires Tiled(m, bs) && a in bs
    ensures WordAt(m, a, bs[a].size) && Word(m, a) == bs[a].size
    ensures FlagAt(m, a, bs[a].free)
    ensures WordAt(m, a + NODE_SIZE + bs[a].size, bs[a].size) && Word(m, a + NODE_SIZE + bs[a].size) == bs[a].size
    ensures 0 <= a < End(bs, a) <= |m|
  {
    assert BlockAt(m, a, bs[a]);
    hide WordAt, IsBoundary;
    WordIs(m, a, bs[a].size);
    WordIs(m, a + NODE_SIZE + bs[a].size, bs[a].size);
  }

  lemma LinkWords(m: Memory, bs: Blocks, a: int)
    requires a in bs
    ensures LinksOf(m, bs).prev[a].Some? ==>
              var v := LinksOf(m, bs).prev[a].value; WordAt(m, a + 16, v) && Word(m, a + 16) == v
    ensures LinksOf(m, bs).next[a].Some? ==>
              var v := LinksOf(m, bs).next[a].value; WordAt(m, a + 24, v) && Word(m, a + 24) == v
  {
    hide WordAt;
    var l := LinksOf(m, bs);
    if l.prev[a].Some? {
      WordIs(m, a + 16, l.prev[a].value);
    }
    if l.next[a].Some? {
      WordIs(m, a + 24, l.next[a].value);
    }
  }

  lemma MergeRetiles(n: nat, bs: Blocks, lo: int, hi: int, free: bool)
    requires Layout(n, bs) && lo in bs && IsBoundary(n, bs, hi) && End(bs, lo) <= hi
    ensures Retiles(n, bs, Merge(bs, lo, hi, free), lo, hi)
  {
    hide Layout;
    StillBoundary(n, bs, Merge(bs, lo, hi, free), hi);
    hide IsBoundary;
  }

  lemma StillBoundary(n: nat, bs: Blocks, bs': Blocks, x: int)
    requires IsBoundary(n, bs, x) && (x in bs ==> x in bs')
    ensures IsBoundary(n, bs', x)
  {
  }

  lemma MergedBlock(m: Memory, lo: int, hi: int, free: bool)
    requires FlagAt(m, lo, free) && lo + META <= hi <= |m|
    ensures var size: nat := hi - lo - META;
            var m' := SetWord(SetWord(m, lo, size), hi - 8, size);
            BlockAt(m', lo, Info(size, free)) && SameOutside(m, m', lo, hi) && SameLinks(m, m', lo)
  {
  }

  /** Writing the size of the whole range into the header of its first block and the tag of its last. */
  lemma MergeEffect(m: Memory, bs: Blocks, lo: int, hi: int)
    requires Tiled(m, bs) && lo in bs && IsBoundary(|m|, bs, hi) && End(bs, lo) <= hi
    ensures 0 <= lo && hi <= |m|
    ensures var m' := SetWord(SetWord(m, lo, hi - lo - META), hi - 8, hi - lo - META);
            && Tiled(m', Merge(bs, lo, hi, bs[lo].free)) && SameOutside(m, m', lo, hi) && SameLinks(m, m', lo)
            && (forall a :: a in bs && !(lo <= a < hi) ==> SameInside(m, m', a, End(bs, a)))
  {
    hide IsBoundary, BlockAt, WordAt, SameOutside, SameLinks, SameInside;
    HeaderWords(m, bs, lo);
    BoundaryOrder(|m|, bs, hi, lo);
    var bs' := Merge(bs, lo, hi, bs[lo].free);
    MergeRetiles(|m|, bs, lo, hi, bs[lo].free);
    MergedBlock(m, lo, hi, bs[lo].free);
    Retile(m, SetWord(SetWord(m, lo, hi - lo - META), hi - 8, hi - lo - META), bs, bs', lo, hi);
  }

  lemma FlaggedBlock(m: Memory, a: int, b: Info, free: bool)
    requires BlockAt(m, a, b)
    ensures var m' := m[a + 8 := Data(if free then 1 else 0)];
            && BlockAt(m', a, Info(b.size, free)) && SameLinks(m, m', a) && SameOutside(m, m', a, a + META + b.size)
            && SameInside(m, m', a + NODE_SIZE, a + NODE_SIZE + b.size)
  {
  }

  lemma FlagEffect(m: Memory, bs: Blocks, a: int, free: bool)
    requires Tiled(m, bs) && a in bs
    ensures 0 <= a && a + NODE_SIZE <= |m|
    ensures var m', bs' := m[a + 8 := Data(if free then 1 else 0)], bs[a := Info(bs[a].size, free)];
            && Tiled(m', bs') && SameLinks(m, m', a) && PayloadsSame(m, m', bs)
            && (forall b :: b in bs && b != a ==> SameInside(m, m', b, End(bs, b)))
  {
    hide IsBoundary, BlockAt, WordAt, SameLinks, SameOutside, Layout;
    HeaderWords(m, bs, a);
    FlaggedBlock(m, a, bs[a], free);
    FlagRetiles(|m|, bs, a, free);
    var m', bs' := m[a + 8 := Data(if free then 1 else 0)], bs[a := Info(bs[a].size, free)];
    Retile(m, m', bs, bs', a, End(bs, a));
    forall b | b in bs
      ensures b != a ==> SameInside(m, m', b, End(bs, b))
      ensures SameInside(m, m', b + NODE_SIZE, b + NODE_SIZE + bs[b].size)
    {
      if b != a {
        LivePayloadsAreDisjoint(m, bs, a, b);
        assert SameInside(m, m', b, End(bs, b));
      }
    }
  }

  lemma FlagRetiles(n: nat, bs: Blocks, a: int, free: bool)
    requires Layout(n, bs) && a in bs
    ensures Retiles(n, bs, bs[a := Info(bs[a].size, free)], a, End(bs, a))
    ensures forall b :: b in bs && a <= b < End(bs, a) ==> b == a
  {
  }

  // ---- freeing ----

  /** From `lo` to `hi` there is nothing but block `a` and the free neighbours it joins. */
  ghost predicate FreedRange(n: nat, bs: Blocks, a: int, lo: int, hi: int) {
    && lo in bs && IsBoundary(n, bs, hi) && lo <= a < hi && End(bs, lo) <= hi
    && (forall b :: b in bs && lo <= b < hi && b != a ==> bs[b].free)
  }

  lemma FreedRangeIs(n: nat, bs: Blocks, tail: int, a: int)
    requires Layout(n, bs) && Live(bs, a)
    ensures FreedRange(n, bs, a, FreedFrom(n, bs, a), FreedTo(bs, tail, a))
    ensures forall b :: b in bs && FreedFrom(n, bs, a) < b < FreedTo(bs, tail, a) ==>
            b == a || (b == End(bs, a) && JoinsNext(bs, tail, a))
  {
    var lo, hi := FreedFrom(n, bs, a), FreedTo(bs, tail, a);
    NextBoundary(n, bs, a);
    if lo < a {
      NextBoundary(n, bs, lo);
    }
    if JoinsNext(bs, tail, a) {
      NextBoundary(n, bs, End(bs, a));
    }
  }

  lemma FreedLive(n: nat, bs: Blocks, tail: int, a: int)
    requires Layout(n, bs) && Live(bs, a)
    ensures FreedFrom(n, bs, a) + META <= FreedTo(bs, tail, a)
    ensures var bs' := Merge(bs, FreedFrom(n, bs, a), FreedTo(bs, tail, a), true);
            forall b :: Live(bs', b) <==> Live(bs, b) && b != a
  {
    FreedRangeIs(n, bs, tail, a);
    hide FreedFrom, FreedTo, Layout, IsBoundary;
  }

  /** The heap after block `a` was freed into [lo, hi): one free block more or larger, everything live as before. */
  ghost predicate Freed(m: Memory, bs: Blocks, m': Memory, bs': Blocks, a: int, lo: int, hi: int) {
    |m'| == |m| && lo + META <= hi && bs' == Merge(bs, lo, hi, true) && Keeps(m, bs, m', bs', a)
  }

  /** The user bytes of the blocks that start outside [lo, hi) are the same. */
  ghost predicate PayloadsOutside(m: Memory, m': Memory, bs: Blocks, lo: int, hi: int) {
    && |m'| == |m|
    && (forall b :: b in bs && !(lo <= b < hi) ==> SameInside(m, m', b + NODE_SIZE, b + NODE_SIZE + bs[b].size))
  }

  lemma PayloadsOutsideTrans(m: Memory, m1: Memory, m2: Memory, bs: Blocks, lo: int, hi: int)
    requires PayloadsOutside(m, m1, bs, lo, hi) && PayloadsOutside(m1, m2, bs, lo, hi)
    ensures PayloadsOutside(m, m2, bs, lo, hi)
  {
    forall b | b in bs && !(lo <= b < hi)
      ensures SameInside(m, m2, b + NODE_SIZE, b + NODE_SIZE + bs[b].size)
    {
      assert SameInside(m, m1, b + NODE_SIZE, b + NODE_SIZE + bs[b].size);
    }
  }

  lemma SameIsOutside(m: Memory, m': Memory, bs: Blocks, bs': Blocks, lo: int, hi: int)
    requires PayloadsSame(m, m', bs')
    requires forall b :: b in bs && !(lo <= b < hi) ==> b in bs' && bs'[b] == bs[b]
    ensures PayloadsOutside(m, m', bs, lo, hi)
  {
    hide SameInside;
  }

  lemma WholeIsOutside(m: Memory, m': Memory, bs: Blocks, bs': Blocks, lo: int, hi: int)
    requires |m'| == |m| && (forall b :: b in bs' && !(lo <= b < hi) ==> SameInside(m, m', b, End(bs', b)))
    requires forall b :: b in bs && !(lo <= b < hi) ==> b in bs' && bs'[b] == bs[b]
    ensures PayloadsOutside(m, m', bs, lo, hi)
  {
    forall b | b in bs && !(lo <= b < hi)
      ensures SameInside(m, m', b + NODE_SIZE, b + NODE_SIZE + bs[b].size)
    {
      assert SameInside(m, m', b, End(bs', b));
    }
  }

  lemma OutsideOf(m: Memory, m': Memory, bs: Blocks, bs': Blocks, lo: int, hi: int)
    requires PayloadsOutside(m, m', bs', lo, hi)
    requires forall b :: b in bs && !(lo <= b < hi) ==> b in bs' && bs'[b] == bs[b]
    ensures PayloadsOutside(m, m', bs, lo, hi)
  {
    hide SameInside;
  }

  /** Merging the range frees block `a` if the other user bytes are the same. */
  lemma MergeFrees(m: Memory, bs: Blocks, m': Memory, a: int, lo: int, hi: int)
    requires Live(bs, a) && FreedRange(|m|, bs, a, lo, hi) && PayloadsOutside(m, m', bs, lo, hi)
    ensures Freed(m, bs, m', Merge(bs, lo, hi, true), a, lo, hi)
  {
    hide SameInside;
  }

  /** The invariant after merging: the list holds the merged block and the free blocks outside the range. */
  lemma FreedInv(bs: Blocks, fl: seq<int>, m: Memory, head: int, tail: int, fl': seq<int>, lo: int, hi: int)
    requires lo + META <= hi && 0 < |m| && ListsFree(bs, fl)
    requires Tiled(m, Merge(bs, lo, hi, true)) && Linked(LinksOf(m, Merge(bs, lo, hi, true)), head, fl')
    requires forall x :: x in fl' <==> x == lo || (x in fl && !(lo <= x < hi))
    requires tail in bs && (tail <= lo || hi <= tail)
    ensures Inv(m, head, tail, 0, Merge(bs, lo, hi, true), fl')
  {
    hide Tiled, Linked, LinksOf;
  }

  /** A merge in a heap whose links were rewritten before (`m1`) and after it (`m3` to `m4`). */
  lemma MergeIsFree(m0: Memory, bs: Blocks, m1: Memory, m3: Memory, m4: Memory, node: int, lo: int, hi: int)
    requires Live(bs, node) && FreedRange(|m0|, bs, node, lo, hi) && lo + META <= hi
    requires PayloadsSame(m0, m1, bs) && PayloadsOutside(m1, m3, bs, lo, hi)
    requires PayloadsSame(m3, m4, Merge(bs, lo, hi, true))
    ensures Freed(m0, bs, m4, Merge(bs, lo, hi, true), node, lo, hi)
  {
    hide PayloadsSame, PayloadsOutside, FreedRange, Freed;
    SameIsOutside(m0, m1, bs, bs, lo, hi);
    PayloadsOutsideTrans(m0, m1, m3, bs, lo, hi);
    SameIsOutside(m3, m4, bs, Merge(bs, lo, hi, true), lo, hi);
    PayloadsOutsideTrans(m0, m3, m4, bs, lo, hi);
    MergeFrees(m0, bs, m4, node, lo, hi);
  }

  lemma TiledIsLayout(m: Memory, bs: Blocks)
    requires Tiled(m, bs)
    ensures Layout(|m|, bs)
  {
  }

  lemma FirstBlock(n: nat, bs: Blocks, a: int)
    requires Layout(n, bs) && a in bs
    ensures 0 in bs && 0 <= a
  {
  }

  lemma SeenNext(n: nat, bs: Blocks, a: int, tail: int)
    requires Layout(n, bs) && a in bs && tail in bs
    ensures End(bs, a) <= tail ==> End(bs, a) in bs
  {
  }

  /**
    The links of the nodes of a list survive a rewriting of [lo, hi) that keeps the links of `lo` and leaves no other
    node in the range.
   */
  lemma ListKept(m: Memory, bs: Blocks, m': Memory, bs': Blocks, head: int, fl: seq<int>, lo: int, hi: int)
    requires Tiled(m, bs) && Linked(LinksOf(m, bs), head, fl) && |m'| == |m|
    requires forall x :: x in fl ==> x in bs && x in bs' && (x == lo || !(lo <= x < hi))
    requires lo in fl ==> SameLinks(m, m', lo)
    requires forall b :: b in bs && !(lo <= b < hi) ==> SameInside(m, m', b, End(bs, b))
    ensures Linked(LinksOf(m', bs'), head, fl)
  {
    hide LinksOf, Linked, IsBoundary, Layout, BlockAt;
    forall i | 0 <= i < |fl|
      ensures fl[i] in bs' && SameLinks(m, m', fl[i])
    {
      assert fl[i] in fl;
      if fl[i] != lo {
        assert SameInside(m, m', fl[i], End(bs, fl[i]));
      }
    }
    LinkedFrame(m, bs, m', bs', head, fl);
  }

  // ---- allocating ----

  function NewBlock(m: Memory, node: int, size: nat): Memory
    requires 0 <= node && node + META + size == |m|
  {
    var linked := SetWord(SetWord(m, node + 24, NULL), node + 16, NULL);
    var header := SetWord(linked, node, size)[node + 8 := Data(0)];
    SetWord(header, node + NODE_SIZE + size, size)
  }

  lemma NewBlockEffect(m: Memory, node: int, size: nat)
    requires 0 <= node && node + META + size == |m|
    ensures BlockAt(NewBlock(m, node, size), node, Info(size, false))
    ensures SameOutside(m, NewBlock(m, node, size), node, |m|)
  {
    hide HasWord;
  }

  /** A block appended to the heap. */
  lemma Grown(m: Memory, bs: Blocks, m': Memory, size: nat)
    requires Tiled(m, bs) && |m'| == |m| + META + size && SameInside(m, m', 0, |m|)
    requires BlockAt(m', |m|, Info(size, false))
    ensures Tiled(m', bs[|m| := Info(size, false)])
    ensures forall a :: a in bs ==> SameInside(m, m', a, End(bs, a))
  {
    var bs' := bs[|m| := Info(size, false)];
    GrownLayout(|m|, bs, size);
    hide BlockAt, IsBoundary;
    forall a | a in bs
      ensures SameInside(m, m', a, End(bs, a)) && BlockAt(m', a, bs[a])
    {
      NextBoundary(|m|, bs, a);
      BlockFrame(m, m', a, bs[a]);
    }
  }

  lemma GrownLayout(n: nat, bs: Blocks, size: nat)
    requires Layout(n, bs)
    ensures Layout(n + META + size, bs[n := Info(size, false)])
  {
    var bs' := bs[n := Info(size, false)];
    forall a | a in bs
      ensures End(bs', a) <= n && IsBoundary(n + META + size, bs', End(bs', a))
      ensures forall b :: b in bs && a < b ==> End(bs', a) <= b
    {
      NextBoundary(n, bs, a);
    }
  }

  function SplitBlock(m: Memory, node: int, size: nat, rest: nat): Memory
    requires 0 <= node && node + 2 * META + size + rest <= |m|
  {
    var extra := node + META + size;
    var header := SetWord(m, extra, rest)[extra + 8 := Data(1)];
    var tagged := SetWord(header, extra + NODE_SIZE + rest, rest);
    SetWord(SetWord(tagged, node, size)[node + 8 := Data(0)], node + NODE_SIZE + size, size)
  }

  lemma SplitBlockEffect(m: Memory, node: int, size: nat, rest: nat)
    requires 0 <= node && node + 2 * META + size + rest <= |m|
    ensures var m' := SplitBlock(m, node, size, rest);
            && BlockAt(m', node, Info(size, false)) && BlockAt(m', node + META + size, Info(rest, true))
            && SameOutside(m, m', node, node + 2 * META + size + rest)
  {
    hide HasWord;
  }

  lemma SplitRetiles(n: nat, bs: Blocks, a: int, size: nat)
    requires Layout(n, bs) && a in bs && Splits(bs[a], size)
    ensures Retiles(n, bs, Taken(bs, a, size), a, End(bs, a))
    ensures a + META + size !in bs && 0 <= a && End(bs, a) <= n
    ensures forall b :: b in Taken(bs, a, size) && a <= b < End(bs, a) ==> b == a || b == a + META + size
  {
    assert IsBoundary(n, bs, End(bs, a));
  }

  lemma SplitEffect(m: Memory, bs: Blocks, a: int, size: nat)
    requires Tiled(m, bs) && a in bs && Splits(bs[a], size)
    ensures 0 <= a && a + META + bs[a].size <= |m|
    ensures var m' := SplitBlock(m, a, size, bs[a].size - META - size);
            && |m'| == |m| && Tiled(m', Taken(bs, a, size))
            && (forall b :: b in bs && b != a ==> SameInside(m, m', b, End(bs, b)))
  {
    hide BlockAt, IsBoundary, SplitBlock;
    OnlyStart(|m|, bs, a);
    SplitRetiles(|m|, bs, a, size);
    SplitBlockEffect(m, a, size, bs[a].size - META - size);
    Retile(m, SplitBlock(m, a, size, bs[a].size - META - size), bs, Taken(bs, a, size), a, End(bs, a));
  }

  lemma OnlyStart(n: nat, bs: Blocks, a: int)
    requires Layout(n, bs) && a in bs
    ensures forall b :: b in bs && a <= b < End(bs, a) ==> b == a
  {
    hide IsBoundary;
  }

  /** Taking a free block makes it live, large enough, and touches no other live block. */
  lemma TakenLive(n: nat, bs: Blocks, a: int, size: nat)
    requires Layout(n, bs) && a in bs && bs[a].free && bs[a].size >= size
    ensures var bs' := Taken(bs, a, size);
            && (forall b :: Live(bs', b) <==> Live(bs, b) || b == a) && bs'[a].size >= size
            && (forall b :: Live(bs, b) ==> bs'[b] == bs[b])
  {
    if Splits(bs[a], size) {
      SplitRetiles(n, bs, a, size);
    }
  }

  /** No block is larger than asked for by what would be worth a block of its own, and no rest is smaller than that. */
  lemma TakenSlack(n: nat, bs: Blocks, a: int, size: nat)
    requires Layout(n, bs) && a in bs && bs[a].size >= size
    ensures var bs' := Taken(bs, a, size);
            && a in bs' && size <= bs'[a].size < size + 40 + 64 * 1024
            && (End(bs', a) !in bs && End(bs', a) < n ==>
                  End(bs', a) in bs' && bs'[End(bs', a)].free && bs'[End(bs', a)].size >= 64 * 1024)
  {
    if !Splits(bs[a], size) {
      NextBoundary(n, bs, a);
    }
  }

  class Heap {
    var mem: Memory
    var headFree: int
    var tailMem: int
    var startMem: int
    /** The word just below the heap, whatever it is. */
    const below: nat
    ghost var blocks: Blocks
    ghost var freeList: seq<int>

    ghost predicate Valid()
      reads this
    {
      Inv(mem, headFree, tailMem, startMem, blocks, freeList)
    }

    /** Memory is tiled and the list is linked; which blocks are flagged free may be about to change. */
    ghost predicate Linkable()
      reads this
    {
      && Tiled(mem, blocks) && Linked(LinksOf(mem, blocks), headFree, freeList)
      && (forall x :: x in freeList ==> x in blocks)
    }

    constructor (below: nat)
      ensures Valid() && mem == [] && blocks == map[] && freeList == []
    {
      this.below := below;
      mem, headFree, tailMem, startMem := [], NULL, NULL, NULL;
      blocks, freeList := map[], [];
    }

    method SetPrev(node: int, v: int)
      requires Tiled(mem, blocks) && node in blocks
      modifies `mem
      ensures Tiled(mem, blocks) && |mem| == |old(mem)| && PayloadsSame(old(mem), mem, blocks)
      ensures var l := LinksOf(old(mem), blocks); LinksOf(mem, blocks) == Links(l.prev[node := Some(v)], l.next)
    {
      SetPrevEffect(mem, blocks, node, v);
      hide *;
      mem := SetWord(mem, node + 16, v);
    }

    method SetNext(node: int, v: int)
      requires Tiled(mem, blocks) && node in blocks
      modifies `mem
      ensures Tiled(mem, blocks) && |mem| == |old(mem)| && PayloadsSame(old(mem), mem, blocks)
      ensures var l := LinksOf(old(mem), blocks); LinksOf(mem, blocks) == Links(l.prev, l.next[node := Some(v)])
    {
      SetNextEffect(mem, blocks, node, v);
      hide *;
      mem := SetWord(mem, node + 24, v);
    }

    /** `insert_free`: a new head. */
    method InsertFree(node: int)
      requires Linkable() && node in blocks && node !in freeList
      modifies `mem, `headFree, `freeList
      ensures Linkable() && freeList == [node] + old(freeList) && |mem| == |old(mem)|
      ensures PayloadsSame(old(mem), mem, blocks)
    {
      hide Tiled, PayloadsSame, LinksOf;
      ghost var m0 := mem;
      ghost var l := LinksOf(mem, blocks);
      NodesNotNull(mem, blocks, freeList);
      if headFree == NULL {
        SetPrev(node, NULL);
        ghost var m1 := mem;
        SetNext(node, NULL);
        PayloadsSameTrans(m0, m1, mem, blocks);
        headFree := node;
      } else {
        SetNext(node, headFree);
        ghost var m1 := mem;
        SetPrev(node, NULL);
        PayloadsSameTrans(m0, m1, mem, blocks);
        m1 := mem;
        SetPrev(headFree, node);
        PayloadsSameTrans(m0, m1, mem, blocks);
        headFree := node;
      }
      NodesLinked(m0, blocks);
      LinkFront(l, At(freeList, 0), freeList, node, Some(NULL));
      freeList := [node] + freeList;
    }

    /** `remove_free`: the head's own links stay as they are, and so does the back link of the new head. */
    method RemoveFree(node: int, ghost i: nat)
      requires Linkable() && i < |freeList| && freeList[i] == node
      modifies `mem, `headFree, `freeList
      ensures Linkable() && freeList == Without(old(freeList), node) && |mem| == |old(mem)|
      ensures PayloadsSame(old(mem), mem, blocks)
    {
      hide Tiled, PayloadsSame, LinksOf, WordAt;
      ghost var m0, fl := mem, freeList;
      ghost var l := LinksOf(mem, blocks);
      NodesNotNull(mem, blocks, freeList);
      NodesLinked(m0, blocks);
      LinkWords(mem, blocks, node);
      WithoutAt(fl, i);
      if node == headFree {
        assert i == 0;
        UnlinkHead(l, headFree, fl);
        PayloadsSameRefl(m0, blocks);
        headFree := Word(mem, headFree + 24);
        freeList := Without(fl, node);
        return;
      }
      UnlinkInner(l, headFree, fl, i, Some(NULL));
      var prevFree := Word(mem, node + 16);
      var nextFree := Word(mem, node + 24);
      if prevFree != NULL {
        SetNext(prevFree, nextFree);
      }
      ghost var m1 := mem;
      if nextFree != NULL {
        SetPrev(nextFree, prevFree);
        PayloadsSameTrans(m0, m1, mem, blocks);
      }
      m1 := mem;
      SetNext(node, NULL);
      PayloadsSameTrans(m0, m1, mem, blocks);
      m1 := mem;
      SetPrev(node, NULL);
      PayloadsSameTrans(m0, m1, mem, blocks);
      freeList := Without(fl, node);
    }

    method MarkFree(node: int, free: bool)
      requires Tiled(mem, blocks) && node in blocks
      modifies `mem, `blocks
      ensures Tiled(mem, blocks) && blocks == old(blocks)[node := Info(old(blocks)[node].size, free)]
      ensures |mem| == |old(mem)| && SameLinks(old(mem), mem, node) && PayloadsSame(old(mem), mem, old(blocks))
      ensures forall b :: b in old(blocks) && b != node ==> SameInside(old(mem), mem, b, End(old(blocks), b))
    {
      FlagEffect(mem, blocks, node, free);
      hide *;
      mem := mem[node + 8 := Data(if free then 1 else 0)];
      blocks := blocks[node := Info(blocks[node].size, free)];
    }

    /** `update_node_size`: `node` grows to end behind `tag`, which belonged to a later block. */
    method UpdateNodeSize(node: int, tag: int, newSize: int)
      requires Tiled(mem, blocks) && node in blocks && IsBoundary(|mem|, blocks, tag + BTAG_SIZE)
      requires End(blocks, node) <= tag + BTAG_SIZE
      requires blocks[node].size + newSize == tag + BTAG_SIZE - node - META
      modifies `mem, `blocks
      ensures Tiled(mem, blocks) && blocks == Merge(old(blocks), node, tag + BTAG_SIZE, old(blocks)[node].free)
      ensures |mem| == |old(mem)| && SameLinks(old(mem), mem, node)
      ensures forall a :: a in old(blocks) && !(node <= a < tag + BTAG_SIZE) ==>
              SameInside(old(mem), mem, a, End(old(blocks), a))
    {
      hide Tiled, IsBoundary, WordAt, FlagAt, SameOutside, SameInside, SameLinks;
      ghost var bs := blocks;
      HeaderWords(mem, blocks, node);
      MergeEffect(mem, blocks, node, tag + BTAG_SIZE);
      mem := SetWord(mem, node, Word(mem, node) + newSize);
      WordIs(mem, node, tag + BTAG_SIZE - node - META);
      mem := SetWord(mem, tag, Word(mem, node));
      blocks := Merge(bs, node, tag + BTAG_SIZE, bs[node].free);
    }

    /** `update_node_size` on a linked heap: the free list is kept, and so are the user bytes outside the range. */
    method Extend(node: int, tag: int, newSize: int)
      requires Linkable() && node in blocks && IsBoundary(|mem|, blocks, tag + BTAG_SIZE)
      requires End(blocks, node) <= tag + BTAG_SIZE
      requires blocks[node].size + newSize == tag + BTAG_SIZE - node - META
      requires forall x :: x in freeList ==> x == node || !(node <= x < tag + BTAG_SIZE)
      modifies `mem, `blocks
      ensures Linkable() && |mem| == |old(mem)|
      ensures blocks == Merge(old(blocks), node, tag + BTAG_SIZE, old(blocks)[node].free)
      ensures PayloadsOutside(old(mem), mem, old(blocks), node, tag + BTAG_SIZE)
    {
      hide Tiled, Linked, LinksOf, IsBoundary, SameInside, SameLinks, PayloadsOutside;
      ghost var m0, bs := mem, blocks;
      UpdateNodeSize(node, tag, newSize);
      ListKept(m0, bs, mem, blocks, headFree, freeList, node, tag + BTAG_SIZE);
      WholeIsOutside(m0, mem, bs, bs, node, tag + BTAG_SIZE);
    }

    /** `get_next_mem`: the block above, unless it lies above `tail_mem`. */
    function NextMem(node: int): int
      requires HasWord(mem, node)
      reads this
    {
      var cand := node + META + Word(mem, node);
      if cand > tailMem then NULL else cand
    }

    /** `get_prev_mem`: the block below, found through its boundary tag. */
    function PrevMem(node: int): int
      requires node == 0 || HasWord(mem, node - BTAG_SIZE)
      reads this
    {
      var size := if node == 0 then below else Word(mem, node - BTAG_SIZE);
      var prevMem := node - BTAG_SIZE - size - NODE_SIZE;
      if prevMem < startMem then NULL else prevMem
    }

    /** What the two neighbour lookups find. */
    lemma Neighbours(node: int)
      requires Valid() && node in blocks
      ensures WordAt(mem, node, blocks[node].size) && FlagAt(mem, node, blocks[node].free)
      ensures NextMem(node) == if End(blocks, node) <= tailMem then End(blocks, node) else NULL
      ensures End(blocks, node) <= tailMem ==> End(blocks, node) in blocks
      ensures 0 <= node && (node > 0 ==> WordAt(mem, node - BTAG_SIZE, blocks[Before(|mem|, blocks, 0, node)].size))
      ensures PrevMem(node) == if node > 0 then Before(|mem|, blocks, 0, node) else NULL
      ensures (node > 0 ==> PrevMem(node) >= 0) && NextMem(node) >= NULL
    {
      hide WordAt, FlagAt, BlockAt, Linked, Layout, IsBoundary, LinksOf, Tiled, ListsFree, Before;
      TiledIsLayout(mem, blocks);
      HeaderWords(mem, blocks, node);
      SeenNext(|mem|, blocks, node, tailMem);
      if node > 0 {
        FirstBlock(|mem|, blocks, node);
        HeaderWords(mem, blocks, Before(|mem|, blocks, 0, node));
      }
    }

    function IsFree(node: int): bool
      requires 0 <= node && node + NODE_SIZE <= |mem| && mem[node + 8].Data?
      reads this
    {
      mem[node + 8].b != 0
    }

    /** `coalesce_two_blocks_before`. */
    method CoalesceTwoBlocksBefore(node: int, prevNode: int, nextNode: int)
      requires Valid() && Live(blocks, node) && prevNode in blocks && blocks[prevNode].free
      requires End(blocks, prevNode) == node
      requires nextNode == if End(blocks, node) <= tailMem then End(blocks, node) else NULL
      modifies `mem, `tailMem, `blocks
      ensures Valid() && freeList == old(freeList)
      ensures Freed(old(mem), old(blocks), mem, blocks, node, prevNode, End(old(blocks), node))
      ensures tailMem == if End(old(blocks), node) > old(tailMem) then prevNode else old(tailMem)
    {
      hide WordAt, FlagAt, BlockAt, Layout, IsBoundary, Linked, LinksOf, SameInside, SameLinks, PayloadsSame;
      hide PayloadsOutside, Keeps;
      ghost var m0, bs, fl, hi := mem, blocks, freeList, End(blocks, node);
      HeaderWords(mem, blocks, node);
      PairRange(|mem|, blocks, prevNode, node);
      if nextNode == NULL {
        tailMem := prevNode;
      }
      var size := Word(mem, node);
      Extend(prevNode, node + NODE_SIZE + size, META + size);
      MergeFrees(m0, bs, mem, node, prevNode, hi);
      FreedInv(bs, fl, mem, headFree, tailMem, fl, prevNode, hi);
    }

    /** `coalesce_three_blocks`. */
    method CoalesceThreeBlocks(node: int, prevNode: int, nextNode: int)
      requires Valid() && Live(blocks, node) && prevNode in blocks && blocks[prevNode].free
      requires End(blocks, prevNode) == node
      requires nextNode == End(blocks, node) <= tailMem && nextNode in blocks && blocks[nextNode].free
      modifies `mem, `headFree, `tailMem, `blocks, `freeList
      ensures Valid() && freeList == Without(old(freeList), nextNode)
      ensures Freed(old(mem), old(blocks), mem, blocks, node, prevNode, old(End(blocks, nextNode)))
      ensures tailMem == if old(End(blocks, nextNode)) > old(tailMem) then prevNode else old(tailMem)
    {
      hide WordAt, FlagAt, BlockAt, Layout, IsBoundary, Linked, LinksOf, SameInside, SameLinks, PayloadsSame;
      hide PayloadsOutside, Keeps;
      ghost var m0, bs, fl, hi := mem, blocks, freeList, End(blocks, nextNode);
      PairRange(|mem|, blocks, prevNode, node);
      TripleRange(|mem|, blocks, prevNode, node);
      SeenNext(|mem|, blocks, nextNode, tailMem);
      ghost var i :| 0 <= i < |fl| && fl[i] == nextNode;
      RemoveFree(nextNode, i);
      ghost var m1 := mem;
      HeaderWords(mem, blocks, node);
      HeaderWords(mem, blocks, nextNode);
      var nextNextNode := NextMem(nextNode);
      if nextNextNode == NULL {
        tailMem := prevNode;
      }
      var newSize := 2 * META + Word(mem, node) + Word(mem, nextNode);
      Extend(prevNode, nextNode + NODE_SIZE + Word(mem, nextNode), newSize);
      PayloadsSameRefl(mem, blocks);
      MergeIsFree(m0, bs, m1, mem, mem, node, prevNode, hi);
      FreedInv(bs, fl, mem, headFree, tailMem, freeList, prevNode, hi);
    }

    /** Flag `node` free and let it grow over the unlinked block above it. */
    method Absorb(node: int, nextNode: int)
      requires Linkable() && Live(blocks, node) && node !in freeList
      requires nextNode == End(blocks, node) && nextNode in blocks && blocks[nextNode].free && nextNode !in freeList
      modifies `mem, `blocks
      ensures |mem| == |old(mem)| && blocks == Merge(old(blocks), node, old(End(blocks, nextNode)), true) && Linkable()
      ensures PayloadsOutside(old(mem), mem, old(blocks), node, old(End(blocks, nextNode)))
    {
      hide WordAt, FlagAt, BlockAt, Layout, IsBoundary, Linked, LinksOf, SameInside, SameLinks, PayloadsSame;
      hide PayloadsOutside;
      ghost var m1, bs, hi := mem, blocks, End(blocks, nextNode);
      NextRange(|mem|, blocks, node);
      MarkFree(node, true);
      ghost var m2, bs2 := mem, blocks;
      SameIsOutside(m1, m2, bs, bs, node, hi);
      ListKept(m1, bs, m2, bs2, headFree, freeList, node, nextNode);
      HeaderWords(mem, blocks, nextNode);
      StillBoundary(|mem|, bs, bs2, hi);
      Extend(node, nextNode + NODE_SIZE + Word(mem, nextNode), META + Word(mem, nextNode));
      OutsideOf(m2, mem, bs, bs2, node, hi);
      PayloadsOutsideTrans(m1, m2, mem, bs, node, hi);
      assert blocks == Merge(bs, node, hi, true);
    }

    /** `coalesce_two_blocks_after`. */
    method CoalesceTwoBlocksAfter(node: int, nextNode: int)
      requires Valid() && Live(blocks, node)
      requires nextNode == End(blocks, node) <= tailMem && nextNode in blocks && blocks[nextNode].free
      modifies `mem, `headFree, `tailMem, `blocks, `freeList
      ensures Valid() && freeList == [node] + Without(old(freeList), nextNode)
      ensures Freed(old(mem), old(blocks), mem, blocks, node, node, old(End(blocks, nextNode)))
      ensures tailMem == if old(End(blocks, nextNode)) > old(tailMem) then node else old(tailMem)
    {
      hide WordAt, FlagAt, BlockAt, Layout, IsBoundary, Linked, LinksOf, SameInside, SameLinks, PayloadsSame;
      hide PayloadsOutside, Keeps;
      ghost var m0, bs, fl, hi := mem, blocks, freeList, End(blocks, nextNode);
      NextRange(|mem|, blocks, node);
      SeenNext(|mem|, blocks, nextNode, tailMem);
      ghost var i :| 0 <= i < |fl| && fl[i] == nextNode;
      RemoveFree(nextNode, i);
      HeaderWords(mem, blocks, nextNode);
      var nextNextNode := NextMem(nextNode);
      if nextNextNode == NULL {
        tailMem := node;
      }
      ghost var m1 := mem;
      Absorb(node, nextNode);
      ghost var m3 := mem;
      InsertFree(node);
      MergeIsFree(m0, bs, m1, m3, mem, node, node, hi);
      FreedInv(bs, fl, mem, headFree, tailMem, freeList, node, hi);
    }

    /** `free`. */
    method Free(ptr: int)
      requires Valid() && (ptr == NULL || ptr - NODE_SIZE in blocks)
      modifies this
      ensures Valid()
      ensures ptr == NULL || !old(Live(blocks, ptr - NODE_SIZE)) ==>
                mem == old(mem) && blocks == old(blocks) && freeList == old(freeList) &&
                    headFree == old(headFree) && tailMem == old(tailMem)
      ensures ptr != NULL && old(Live(blocks, ptr - NODE_SIZE)) ==>
                var node := ptr - NODE_SIZE;
                var bs, tail := old(blocks), old(tailMem);
                var lo, hi := FreedFrom(|old(mem)|, bs, node), FreedTo(bs, tail, node);
                && Freed(old(mem), bs, mem, blocks, node, lo, hi)
                && Keeps(old(mem), bs, mem, blocks, node) && (forall a :: Live(blocks, a) <==> Live(bs, a) && a != node)
                && freeList == (if lo == node then [node] else []) +
                               (if JoinsNext(bs, tail, node) then Without(old(freeList), End(bs, node))
                                else old(freeList))
                && tailMem == if hi > tail && (lo < node || JoinsNext(bs, tail, node)) then lo else tail
    {
      hide WordAt, BlockAt, Layout, IsBoundary, Linked, ListsFree, Keeps, Merge;
      if ptr == NULL {
        return;
      }
      var node := ptr - NODE_SIZE;
      Neighbours(node);
      if IsFree(node) {
        return;
      }
      FreedLive(|mem|, blocks, tailMem, node);
      var prevNode := PrevMem(node);
      var nextNode := NextMem(node);
      if prevNode != NULL {
        Neighbours(prevNode);
      }
      if nextNode != NULL {
        Neighbours(nextNode);
      }
      var isPrevNeighValid := prevNode != NULL && prevNode >= startMem && IsFree(prevNode);
      var isNextNeighValid := nextNode != NULL && nextNode <= tailMem && IsFree(nextNode);
      if isPrevNeighValid && isNextNeighValid {
        CoalesceThreeBlocks(node, prevNode, nextNode);
      } else if isPrevNeighValid {
        CoalesceTwoBlocksBefore(node, prevNode, nextNode);
      } else if isNextNeighValid {
        CoalesceTwoBlocksAfter(node, nextNode);
      } else {
        FreeAlone(node);
      }
    }

    /** The case with no free neighbour. */
    method FreeAlone(node: int)
      requires Valid() && Live(blocks, node)
      modifies `mem, `headFree, `blocks, `freeList
      ensures Valid() && freeList == [node] + old(freeList)
      ensures Freed(old(mem), old(blocks), mem, blocks, node, node, old(End(blocks, node)))
    {
      hide WordAt, FlagAt, BlockAt, Layout, IsBoundary, Linked, LinksOf, SameInside, SameLinks, PayloadsSame;
      hide PayloadsOutside, Keeps;
      ghost var m0, bs, fl, hi := mem, blocks, freeList, End(blocks, node);
      AloneRange(|mem|, blocks, node);
      OnlyStart(|mem|, blocks, node);
      TailOutside(|mem|, blocks, node, tailMem);
      MarkFree(node, true);
      ghost var m1 := mem;
      assert blocks == Merge(bs, node, hi, true);
      ListKept(m0, bs, m1, blocks, headFree, fl, node, hi);
      SameIsOutside(m0, m1, bs, bs, node, hi);
      InsertFree(node);
      SameIsOutside(m1, mem, bs, blocks, node, hi);
      PayloadsOutsideTrans(m0, m1, mem, bs, node, hi);
      MergeFrees(m0, bs, mem, node, node, hi);
      FreedInv(bs, fl, mem, headFree, tailMem, freeList, node, hi);
    }

    /** `alloc_new`: extend the heap by one block; `more` says whether `sbrk` can. */
    method AllocNew(size: nat, more: bool) returns (ptr: int)
      requires Valid()
      modifies this
      ensures Valid() && freeList == old(freeList) && Keeps(old(mem), old(blocks), mem, blocks, NULL)
      ensures !more ==> ptr == NULL && mem == old(mem) && blocks == old(blocks)
      ensures more ==> ptr == |old(mem)| + NODE_SIZE && |mem| == |old(mem)| + META + size
      ensures more ==> blocks == old(blocks)[|old(mem)| := Info(size, false)]
      ensures tailMem == if more && old(tailMem) == NULL then |old(mem)| else old(tailMem)
    {
      hide WordAt, BlockAt, Layout, IsBoundary, Linked, LinksOf, Word, SetWord;
      if !more {
        KeepsRefl(mem, blocks);
        return NULL;
      }
      ghost var m0, bs := mem, blocks;
      var node := |mem|;
      mem := mem + seq(META + size, _ => Data(0));
      ghost var m1 := mem;
      if startMem == NULL {
        startMem := node;
      }
      mem := SetWord(mem, node + 24, NULL);
      mem := SetWord(mem, node + 16, NULL);
      if tailMem == NULL {
        tailMem := node;
      }
      mem := SetWord(mem, node, size);
      mem := mem[node + 8 := Data(0)];
      mem := SetWord(mem, node + NODE_SIZE + size, size);
      assert mem == NewBlock(m1, node, size);
      blocks := blocks[node := Info(size, false)];
      AllocNewEffect(m0, bs, m1, headFree, freeList, size);
      return node + NODE_SIZE;
    }

    /** A block was taken off the free list but is still flagged free. */
    ghost predicate Unlinked(node: int)
      reads this
    {
      && Linkable() && node in blocks && blocks[node].free && tailMem in blocks && startMem == 0
      && (forall a :: a in freeList <==> a in blocks && blocks[a].free && a != node)
    }

    /** The headers and tags of the two parts of a split block. */
    method WriteSplit(node: int, size: nat, extraNode: int, rest: nat)
      requires 0 <= node && extraNode == node + META + size && node + 2 * META + size + rest <= |mem|
      modifies `mem
      ensures mem == SplitBlock(old(mem), node, size, rest)
    {
      hide SetWord, WordAt, SameOutside;
      mem := SetWord(mem, extraNode, rest);
      mem := mem[extraNode + 8 := Data(1)];
      mem := SetWord(mem, extraNode + NODE_SIZE + rest, rest);
      mem := SetWord(mem, node, size);
      mem := mem[node + 8 := Data(0)];
      mem := SetWord(mem, node + NODE_SIZE + size, size);
    }

    /** `alloc_free_split`: the rest of the block becomes a free block of its own. */
    method AllocFreeSplit(size: nat, node: int)
      requires Unlinked(node) && Splits(blocks[node], size)
      modifies this
      ensures Valid() && |mem| == |old(mem)| && blocks == Taken(old(blocks), node, size)
      ensures freeList == [node + META + size] + old(freeList)
      ensures tailMem == if old(tailMem) < node + META + size then node + META + size else old(tailMem)
      ensures Keeps(old(mem), old(blocks), mem, blocks, NULL)
    {
      hide WordAt, FlagAt, BlockAt, Layout, IsBoundary, Linked, LinksOf, SplitBlock, Keeps, SameInside, SameLinks;
      hide PayloadsSame;
      ghost var m0, bs, hi := mem, blocks, End(blocks, node);
      HeaderWords(mem, blocks, node);
      SplitRetiles(|mem|, blocks, node, size);
      SplitEffect(mem, blocks, node, size);
      TailOutside(|mem|, blocks, node, tailMem);
      var extraNode := node + META + size;
      var rest := Word(mem, node) - META - size;
      WriteSplit(node, size, extraNode, rest);
      if extraNode > tailMem {
        tailMem := extraNode;
      }
      blocks := Taken(bs, node, size);
      ghost var m1 := mem;
      OnlyStart(|m0|, bs, node);
      ListKept(m0, bs, m1, blocks, headFree, freeList, node, hi);
      OthersKept(m0, bs, m1, blocks, node);
      InsertFree(extraNode);
      PayloadsKept(m1, mem, blocks, blocks);
      KeepsTrans(m0, bs, m1, blocks, mem, blocks, NULL);
    }

    /** `alloc_free`. */
    method AllocFree(size: nat, node: int) returns (ptr: int)
      requires Unlinked(node) && blocks[node].size >= size
      modifies this
      ensures Valid() && |mem| == |old(mem)| && ptr == node + NODE_SIZE && blocks == Taken(old(blocks), node, size)
      ensures freeList == (if Splits(old(blocks)[node], size) then [node + META + size] else []) + old(freeList)
      ensures var rest := node + META + size;
              tailMem == if Splits(old(blocks)[node], size) && old(tailMem) < rest then rest else old(tailMem)
      ensures Keeps(old(mem), old(blocks), mem, blocks, NULL)
    {
      hide WordAt, FlagAt, BlockAt, Layout, IsBoundary, Linked, LinksOf, SetWord, SameInside, SameLinks, PayloadsSame;
      ghost var m0, bs := mem, blocks;
      HeaderWords(mem, blocks, node);
      KeepsRefl(mem, blocks);
      if Word(mem, node) >= META + size + SPLIT_THRESHOLD {
        AllocFreeSplit(size, node);
      }
      ghost var m1, bs1 := mem, blocks;
      MarkFree(node, false);
      OnlyStart(|m1|, bs1, node);
      ListKept(m1, bs1, mem, blocks, headFree, freeList, node, End(bs1, node));
      PayloadsKept(m1, mem, bs1, blocks);
      KeepsTrans(m0, bs, m1, bs1, mem, blocks, NULL);
      return node + NODE_SIZE;
    }

    /**
      What a successful allocation means: a block that was not live is, it is large enough, and no live block changed.
     */
    ghost predicate Allocated(ptr: int, size: nat, m0: Memory, bs0: Blocks)
      reads this
    {
      var node := ptr - NODE_SIZE;
      && Live(blocks, node) && blocks[node].size >= size && !Live(bs0, node)
      && (forall a :: Live(blocks, a) <==> Live(bs0, a) || a == node)
      && Keeps(m0, bs0, mem, blocks, NULL)
    }

    /** The walk of `malloc` along the free list. */
    method FindFit(size: nat) returns (walk: int)
      requires Valid()
      ensures var i := FirstFit(blocks, freeList, size);
              if i < |freeList| then walk == freeList[i] && 0 <= walk else walk == NULL
    {
      hide WordAt, FlagAt, BlockAt, Layout, IsBoundary, LinksOf;
      NodesNotNull(mem, blocks, freeList);
      NodesLinked(mem, blocks);
      walk := headFree;
      ghost var i := 0;
      while walk != NULL
        invariant 0 <= i <= |freeList| && walk == At(freeList, i)
        invariant forall j :: 0 <= j < i ==> freeList[j] !in blocks || blocks[freeList[j]].size < size
        decreases |freeList| - i
      {
        HeaderWords(mem, blocks, walk);
        if Word(mem, walk) >= size {
          assert FirstFit(blocks, freeList, size) == i;
          return;
        }
        NextLink(LinksOf(mem, blocks), headFree, freeList, i);
        LinkWords(mem, blocks, walk);
        walk := Word(mem, walk + 24);
        i := i + 1;
      }
      assert FirstFit(blocks, freeList, size) == |freeList|;
    }

    /** `malloc`: first fit, else more heap; `more` says whether `sbrk` can extend the heap. */
    method Malloc(size: nat, more: bool) returns (ptr: int)
      requires Valid() && size + META < SBRK_LIMIT
      modifies this
      ensures Valid()
      ensures ptr == NULL ==> mem == old(mem) && blocks == old(blocks) && freeList == old(freeList)
      ensures ptr != NULL ==> Allocated(ptr, size, old(mem), old(blocks))
      ensures ptr == NULL <==> size == 0 || (FirstFit(old(blocks), old(freeList), size) == |old(freeList)| && !more)
      ensures var bs, fl := old(blocks), old(freeList);
              var i := FirstFit(bs, fl, size);
              size > 0 && i < |fl| ==>
                && ptr == fl[i] + NODE_SIZE && blocks == Taken(bs, fl[i], size) && |mem| == |old(mem)|
                && freeList == (if Splits(bs[fl[i]], size) then [fl[i] + META + size] else []) + Without(fl, fl[i])
                && var rest := fl[i] + META + size;
                   tailMem == if Splits(bs[fl[i]], size) && old(tailMem) < rest then rest else old(tailMem)
      ensures var i := FirstFit(old(blocks), old(freeList), size);
              size == 0 || i == |old(freeList)| ==>
                tailMem == if ptr != NULL && old(tailMem) == NULL then |old(mem)| else old(tailMem)
      ensures |mem| != |old(mem)| <==>
              size > 0 && FirstFit(old(blocks), old(freeList), size) == |old(freeList)| && more
      ensures |mem| != |old(mem)| ==>
                && (forall a :: a in old(blocks) && old(blocks)[a].free ==> old(blocks)[a].size < size)
                && |mem| == |old(mem)| + META + size && ptr == |old(mem)| + NODE_SIZE
                && blocks == old(blocks)[|old(mem)| := Info(size, false)] && freeList == old(freeList)
    {
      hide WordAt, FlagAt, BlockAt, Layout, IsBoundary, LinksOf, Linked, Keeps, Taken, Splits, SameInside, PayloadsSame;
      if size <= 0 {
        return NULL;
      }
      ghost var fl, bs, m0 := freeList, blocks, mem;
      ghost var i := FirstFit(bs, fl, size);
      var walk := FindFit(size);
      if walk == NULL {
        NewLive(|mem|, bs, size);
        ptr := AllocNew(size, more);
      } else {
        RemoveFree(walk, i);
        ghost var m1 := mem;
        PayloadsKept(m0, m1, bs, bs);
        TakenLive(|mem|, bs, walk, size);
        ptr := AllocFree(size, walk);
        KeepsTrans(m0, bs, m1, bs, mem, blocks, NULL);
      }
    }

    /** A store into the bytes of a live block, by the user or by `memset` and `memcpy`. */
    method Store(ptr: int, data: seq<Cell>)
      requires Valid() && Live(blocks, ptr - NODE_SIZE) && |data| <= blocks[ptr - NODE_SIZE].size
      modifies `mem
      ensures Valid() && |mem| == |old(mem)| && 0 <= ptr && ptr + blocks[ptr - NODE_SIZE].size <= |mem|
      ensures mem[ptr..ptr + |data|] == data
      ensures SameInside(old(mem), mem, ptr + |data|, ptr + blocks[ptr - NODE_SIZE].size)
      ensures Keeps(old(mem), blocks, mem, blocks, ptr - NODE_SIZE)
    {
      hide Tiled, Linked, LinksOf, ListsFree, Keeps, SameInside;
      StoreEffect(mem, blocks, headFree, freeList, ptr - NODE_SIZE, data);
      mem := mem[..ptr] + data + mem[ptr + |data|..];
    }

    /** `calloc`. */
    method Calloc(num: nat, size: nat, more: bool) returns (ptr: int)
      requires Valid() && num * size % SIZE_MAX_PLUS_ONE + META < SBRK_LIMIT
      modifies this
      ensures Valid() && (ptr == NULL ==> mem == old(mem) && blocks == old(blocks))
      ensures ptr == NULL <==>
                var nbytes := num * size % SIZE_MAX_PLUS_ONE;
                nbytes == 0 || (FirstFit(old(blocks), old(freeList), nbytes) == |old(freeList)| && !more)
      ensures var nbytes := num * size % SIZE_MAX_PLUS_ONE;
              ptr != NULL ==>
                && Allocated(ptr, nbytes, old(mem), old(blocks))
                && 0 <= ptr && ptr + nbytes <= |mem| && (forall i :: ptr <= i < ptr + nbytes ==> mem[i] == Data(0))
    {
      hide Keeps, Tiled, Linked, LinksOf, ListsFree;
      LiveNotNull(mem, blocks);
      var nbytes := num * size % SIZE_MAX_PLUS_ONE;
      ptr := Malloc(nbytes, more);
      if ptr != NULL {
        ghost var m1, bs1 := mem, blocks;
        Store(ptr, seq(nbytes, _ => Data(0)));
        assert forall i :: ptr <= i < ptr + nbytes ==> mem[i] == mem[ptr..ptr + nbytes][i - ptr];
        KeepsNew(old(mem), old(blocks), m1, bs1, mem, ptr - NODE_SIZE);
      }
    }

    /** `realloc`. */
    method Realloc(ptr: int, size: nat, more: bool) returns (r: int)
      requires Valid() && size + META < SBRK_LIMIT && (ptr == NULL || Live(blocks, ptr - NODE_SIZE))
      modifies this
      ensures Valid()
      ensures ptr == NULL && r != NULL ==> Allocated(r, size, old(mem), old(blocks))
      ensures ptr != NULL && size == 0 ==>
                r == NULL && (forall a :: Live(blocks, a) <==> Live(old(blocks), a) && a != ptr - NODE_SIZE)
      ensures ptr != NULL && 0 < size <= old(blocks)[ptr - NODE_SIZE].size ==>
              r == ptr && mem == old(mem) && blocks == old(blocks)
      ensures r == NULL && (ptr == NULL || size > 0) ==> mem == old(mem) && blocks == old(blocks)
      ensures r == NULL <==>
                size == 0 || ((ptr == NULL || size > old(blocks)[ptr - NODE_SIZE].size) &&
                              FirstFit(old(blocks), old(freeList), size) == |old(freeList)| && !more)
      ensures ptr != NULL && r != NULL ==>
                var node, had := ptr - NODE_SIZE, old(blocks)[ptr - NODE_SIZE].size;
                && Live(blocks, r - NODE_SIZE) && blocks[r - NODE_SIZE].size >= size
                && (forall a :: Live(blocks, a) <==> (Live(old(blocks), a) && a != node) || a == r - NODE_SIZE)
                && 0 <= ptr && ptr + had <= |old(mem)| && 0 <= r && r + had <= |mem|
                && (size > had ==> !Live(old(blocks), r - NODE_SIZE) && mem[r..r + had] == old(mem)[ptr..ptr + had])
      ensures ptr != NULL ==> Keeps(old(mem), old(blocks), mem, blocks, ptr - NODE_SIZE)
    {
      hide Linked, LinksOf, ListsFree, Keeps, Layout, BlockAt, WordAt, FlagAt, SameInside;
      if ptr == NULL {
        r := Malloc(size, more);
        return;
      } else if size == 0 {
        Free(ptr);
        return NULL;
      }
      var node := ptr - NODE_SIZE;
      HeaderWords(mem, blocks, node);
      if size <= Word(mem, node) {
        KeepsRefl(mem, blocks);
        LiveNotNull(mem, blocks);
        KeepsMore(mem, blocks, mem, blocks, node);
        return ptr;
      }
      r := Grow(ptr, size, more);
    }

    /** The move of `realloc` to a larger block. */
    method Grow(ptr: int, size: nat, more: bool) returns (r: int)
      requires Valid() && size + META < SBRK_LIMIT && Live(blocks, ptr - NODE_SIZE)
      requires size > blocks[ptr - NODE_SIZE].size
      modifies this
      ensures Valid() && (r == NULL ==> mem == old(mem) && blocks == old(blocks))
      ensures r == NULL <==> FirstFit(old(blocks), old(freeList), size) == |old(freeList)| && !more
      ensures r != NULL ==>
                var node, had := ptr - NODE_SIZE, old(blocks)[ptr - NODE_SIZE].size;
                && !Live(old(blocks), r - NODE_SIZE) && Live(blocks, r - NODE_SIZE)
                && blocks[r - NODE_SIZE].size >= size
                && (forall a :: Live(blocks, a) <==> (Live(old(blocks), a) && a != node) || a == r - NODE_SIZE)
                && 0 <= ptr && ptr + had <= |old(mem)| && 0 <= r && r + had <= |mem|
                && mem[r..r + had] == old(mem)[ptr..ptr + had]
      ensures Keeps(old(mem), old(blocks), mem, blocks, ptr - NODE_SIZE)
    {
      hide Linked, LinksOf, ListsFree, Keeps, Tiled, WordAt, FlagAt, SameInside, FirstFit, Freed, Splits, JoinsNext;
      hide Taken, FreedFrom, FreedTo, Merge, Without;
      ghost var m0, bs0 := mem, blocks;
      var node := ptr - NODE_SIZE;
      HeaderWords(mem, blocks, node);
      LiveNotNull(mem, blocks);
      r := Malloc(size, more);
      if r == NULL {
        KeepsRefl(mem, blocks);
        KeepsMore(mem, blocks, mem, blocks, node);
        return;
      }
      ghost var m1, bs1 := mem, blocks;
      HeaderWords(mem, blocks, node);
      HeaderWords(mem, blocks, r - NODE_SIZE);
      var had := Word(mem, node);
      KeepsOne(m0, bs0, m1, bs1, NULL, node);
      Store(r, mem[ptr..ptr + had]);
      ghost var m2 := mem;
      KeepsNew(m0, bs0, m1, bs1, m2, r - NODE_SIZE);
      KeepsMore(m0, bs0, m2, bs1, node);
      Free(ptr);
      KeepsOne(m2, bs1, mem, blocks, node, r - NODE_SIZE);
      SamePrefix(m2, mem, r, bs1[r - NODE_SIZE].size, had);
      KeepsTrans(m0, bs0, m2, bs1, mem, blocks, node);
    }
  }

  lemma AloneRange(n: nat, bs: Blocks, a: int)
    requires Layout(n, bs) && Live(bs, a)
    ensures FreedRange(n, bs, a, a, End(bs, a)) && 0 <= a
  {
    OnlyStart(n, bs, a);
    assert IsBoundary(n, bs, End(bs, a));
  }

  lemma TailOutside(n: nat, bs: Blocks, a: int, tail: int)
    requires Layout(n, bs) && a in bs && tail in bs
    ensures tail <= a || End(bs, a) <= tail
  {
  }

  lemma PayloadsKept(m: Memory, m': Memory, bs: Blocks, bs': Blocks)
    requires PayloadsSame(m, m', bs) && (forall b :: Live(bs, b) ==> b in bs' && bs'[b] == bs[b])
    ensures Keeps(m, bs, m', bs', NULL)
  {
    hide SameInside;
  }

  lemma OthersKept(m: Memory, bs: Blocks, m': Memory, bs': Blocks, a: int)
    requires a in bs && bs[a].free && (forall b :: Live(bs, b) ==> b in bs' && bs'[b] == bs[b])
    requires forall b :: b in bs && b != a ==> SameInside(m, m', b, End(bs, b))
    ensures Keeps(m, bs, m', bs', NULL)
  {
    forall b | Live(bs, b)
      ensures SameInside(m, m', b + NODE_SIZE, b + NODE_SIZE + bs[b].size)
    {
      assert SameInside(m, m', b, End(bs, b));
    }
  }

  lemma StoreEffect(m: Memory, bs: Blocks, head: int, fl: seq<int>, a: int, data: seq<Cell>)
    requires Tiled(m, bs) && Linked(LinksOf(m, bs), head, fl) && ListsFree(bs, fl) && Live(bs, a)
    requires |data| <= bs[a].size
    ensures 0 <= a && a + NODE_SIZE + bs[a].size <= |m|
    ensures var ptr := a + NODE_SIZE;
            var m' := m[..ptr] + data + m[ptr + |data|..];
            && Tiled(m', bs) && Linked(LinksOf(m', bs), head, fl) && |m'| == |m|
            && m'[ptr..ptr + |data|] == data && SameInside(m, m', ptr + |data|, ptr + bs[a].size)
            && Keeps(m, bs, m', bs, a)
  {
    hide Linked, LinksOf, IsBoundary, BlockAt, WordAt, FlagAt, Layout;
    HeaderWords(m, bs, a);
    OnlyStart(|m|, bs, a);
    SameRetiles(|m|, bs, a);
    var ptr := a + NODE_SIZE;
    var m' := m[..ptr] + data + m[ptr + |data|..];
    assert SameOutside(m, m', ptr, ptr + |data|);
    StoredBlock(m, m', a, bs[a]);
    Retile(m, m', bs, bs, a, End(bs, a));
    ListKept(m, bs, m', bs, head, fl, a, End(bs, a));
    forall b | Live(bs, b) && b != a
      ensures SameInside(m, m', b + NODE_SIZE, b + NODE_SIZE + bs[b].size)
    {
      assert SameInside(m, m', b, End(bs, b));
    }
  }

  lemma StoredBlock(m: Memory, m': Memory, a: int, b: Info)
    requires BlockAt(m, a, b) && SameOutside(m, m', a + NODE_SIZE, a + NODE_SIZE + b.size)
    ensures BlockAt(m', a, b)
  {
  }

  /** A store into a new block keeps what was live before it. */
  lemma KeepsNew(m: Memory, bs: Blocks, m1: Memory, bs1: Blocks, m2: Memory, a: int)
    requires Keeps(m, bs, m1, bs1, NULL) && Keeps(m1, bs1, m2, bs1, a) && !Live(bs, a)
    requires forall b :: Live(bs, b) ==> b != NULL
    ensures Keeps(m, bs, m2, bs1, NULL)
  {
    hide SameInside;
    forall b | Live(bs, b)
      ensures SameInside(m, m2, b + NODE_SIZE, b + NODE_SIZE + bs[b].size)
    {
      assert Live(bs1, b);
      PayloadTrans(m, m1, m2, b + NODE_SIZE, b + NODE_SIZE + bs[b].size);
    }
  }

  lemma PayloadTrans(m: Memory, m1: Memory, m2: Memory, lo: int, hi: int)
    requires SameInside(m, m1, lo, hi) && SameInside(m1, m2, lo, hi)
    ensures SameInside(m, m2, lo, hi)
  {
  }

  lemma LiveNotNull(m: Memory, bs: Blocks)
    requires Tiled(m, bs)
    ensures forall b :: Live(bs, b) ==> b != NULL
  {
    hide BlockAt;
  }

  lemma KeepsMore(m: Memory, bs: Blocks, m': Memory, bs': Blocks, a: int)
    requires Keeps(m, bs, m', bs', NULL) && (forall b :: Live(bs, b) ==> b != NULL)
    ensures Keeps(m, bs, m', bs', a)
  {
    hide SameInside;
  }

  /** What keeping says of a single live block. */
  lemma KeepsOne(m: Memory, bs: Blocks, m': Memory, bs': Blocks, x: int, a: int)
    requires Keeps(m, bs, m', bs', x) && Live(bs, a) && a != x
    ensures Live(bs', a) && bs'[a] == bs[a] && 0 <= a + NODE_SIZE && a + NODE_SIZE + bs[a].size <= |m| <= |m'|
    ensures m'[a + NODE_SIZE..a + NODE_SIZE + bs[a].size] == m[a + NODE_SIZE..a + NODE_SIZE + bs[a].size]
  {
    assert SameInside(m, m', a + NODE_SIZE, a + NODE_SIZE + bs[a].size);
  }

  lemma SamePrefix(m: Memory, m': Memory, a: int, n: nat, k: nat)
    requires 0 <= a && a + n <= |m| && a + n <= |m'| && k <= n && m'[a..a + n] == m[a..a + n]
    ensures m'[a..a + k] == m[a..a + k]
  {
    assert m'[a..a + k] == m'[a..a + n][..k];
    assert m[a..a + k] == m[a..a + n][..k];
  }

  lemma NextLink(l: Links, head: int, fl: seq<int>, i: nat)
    requires Linked(l, head, fl) && i < |fl|
    ensures fl[i] in l.next && fl[i] in l.prev && l.next[fl[i]] == Some(At(fl, i + 1))
  {
    if i + 1 < |fl| {
      assert fl[i + 1] in l.prev;
    }
  }

  lemma NewLive(n: nat, bs: Blocks, size: nat)
    requires Layout(n, bs)
    ensures n !in bs
    ensures forall a :: Live(bs[n := Info(size, false)], a) <==> Live(bs, a) || a == n
  {
    StartsBelow2(n, bs);
    var bs' := bs[n := Info(size, false)];
    assert forall a :: a in bs' <==> a in bs || a == n;
  }

  lemma KeepsRefl(m: Memory, bs: Blocks)
    requires Tiled(m, bs)
    ensures Keeps(m, bs, m, bs, NULL)
  {
    PayloadsSameRefl(m, bs);
    hide Tiled, SameInside;
  }

  lemma AllocNewEffect(m: Memory, bs: Blocks, m1: Memory, head: int, fl: seq<int>, size: nat)
    requires Tiled(m, bs) && Linked(LinksOf(m, bs), head, fl) && ListsFree(bs, fl)
    requires m1 == m + seq(META + size, _ => Data(0))
    ensures var m', bs' := NewBlock(m1, |m|, size), bs[|m| := Info(size, false)];
            && Tiled(m', bs') && Linked(LinksOf(m', bs'), head, fl) && ListsFree(bs', fl) && Keeps(m, bs, m', bs', NULL)
            && |m| !in bs && |m'| == |m1|
  {
    hide NewBlock, BlockAt, Layout, Linked, LinksOf;
    var m', bs' := NewBlock(m1, |m|, size), bs[|m| := Info(size, false)];
    NewBlockEffect(m1, |m|, size);
    Grown(m, bs, m', size);
    StartsBelow2(|m|, bs);
    forall i | 0 <= i < |fl|
      ensures fl[i] in bs' && SameLinks(m, m', fl[i])
    {
      assert fl[i] in fl && SameInside(m, m', fl[i], End(bs, fl[i]));
    }
    LinkedFrame(m, bs, m', bs', head, fl);
    forall a | Live(bs, a)
      ensures a in bs' && bs'[a] == bs[a] && SameInside(m, m', a + NODE_SIZE, a + NODE_SIZE + bs[a].size)
    {
      assert SameInside(m, m', a, End(bs, a));
    }
  }

  lemma StartsBelow2(n: nat, bs: Blocks)
    requires Layout(n, bs)
    ensures n !in bs
  {
  }

  lemma NextRange(n: nat, bs: Blocks, a: int)
    requires Layout(n, bs) && Live(bs, a) && End(bs, a) in bs && bs[End(bs, a)].free
    ensures var next := End(bs, a);
            && FreedRange(n, bs, a, a, End(bs, next)) && 0 <= a < next
            && (forall b :: b in bs && a <= b < End(bs, next) ==> b == a || b == next)
  {
    var next := End(bs, a);
    assert IsBoundary(n, bs, End(bs, next));
  }

  lemma TripleRange(n: nat, bs: Blocks, p: int, a: int)
    requires Layout(n, bs) && Live(bs, a) && p in bs && bs[p].free && End(bs, p) == a
    requires End(bs, a) in bs && bs[End(bs, a)].free
    ensures var next := End(bs, a);
            && FreedRange(n, bs, a, p, End(bs, next)) && 0 <= p < a < next
            && (forall b :: b in bs && p <= b < End(bs, next) ==> b == p || b == a || b == next)
  {
    var next := End(bs, a);
    assert IsBoundary(n, bs, End(bs, next));
  }

  /** Two adjacent blocks, the second live, are a range to free. */
  lemma PairRange(n: nat, bs: Blocks, p: int, a: int)
    requires Layout(n, bs) && Live(bs, a) && p in bs && bs[p].free && End(bs, p) == a
    ensures FreedRange(n, bs, a, p, End(bs, a)) && 0 <= p < a
    ensures forall b :: b in bs && p <= b < End(bs, a) ==> b == p || b == a
  {
  }

  lemma NodesLinked(m: Memory, bs: Blocks)
    ensures LinksOf(m, bs).prev.Keys == bs.Keys && LinksOf(m, bs).next.Keys == bs.Keys
  {
  }

  lemma StartsInside(m: Memory, bs: Blocks, a: int)
    requires Tiled(m, bs) && a in bs
    ensures 0 <= a < |m|
  {
    hide BlockAt, IsBoundary;
  }

  lemma NodesNotNull(m: Memory, bs: Blocks, fl: seq<int>)
    requires Tiled(m, bs) && (forall x :: x in fl ==> x in bs)
    ensures forall i :: 0 <= i < |fl| ==> fl[i] in bs && 0 <= fl[i]
  {
    forall i | 0 <= i < |fl|
      ensures fl[i] in bs && 0 <= fl[i]
    {
      var x := fl[i];
      assert x in fl;
      StartsInside(m, bs, x);
    }
  }
}
