/**
  The memory of the heap and the shape the allocator keeps in it (malloc/alloc.c).

  Addresses are distances from `start_mem`; NULL is -1. A memory cell holds a byte, or one eighth of a stored word, so
  that a store into the middle of a header destroys the header.
 */
module HeapMemory {
  import opened Wrappers

  const NULL: int := -1
  const NODE_SIZE: nat := 32
  const BTAG_SIZE: nat := 8
  const META: nat := NODE_SIZE + BTAG_SIZE
  const SPLIT_THRESHOLD: nat := 1024 * 64

  /** `sbrk` takes a signed increment: requests up to here reach it as they are. */
  const SBRK_LIMIT: nat := 0x8000_0000_0000_0000

  newtype Byte = b: int | 0 <= b < 256

  datatype Cell = Data(b: Byte) | Part(word: int, index: nat)

  type Memory = seq<Cell>

  // ---- words ----

  ghost predicate WordAt(m: Memory, a: int, v: int) {
    0 <= a && a + 8 <= |m| && (forall i :: a <= i < a + 8 ==> m[i] == Part(v, i - a))
  }

  ghost predicate HasWord(m: Memory, a: int) {
    exists w :: WordAt(m, a, w)
  }

  function Word(m: Memory, a: int): (v: int)
    requires HasWord(m, a)
    ensures WordAt(m, a, v)
  {
    m[a].word
  }

  function SetWord(m: Memory, a: int, v: int): (r: Memory)
    requires 0 <= a && a + 8 <= |m|
    ensures |r| == |m| && WordAt(r, a, v) && SameOutside(m, r, a, a + 8)
  {
    m[..a] + [Part(v, 0), Part(v, 1), Part(v, 2), Part(v, 3), Part(v, 4), Part(v, 5), Part(v, 6), Part(v, 7)] +
        m[a + 8..]
  }

  ghost predicate SameOutside(m: Memory, m': Memory, lo: int, hi: int) {
    |m'| == |m| && (forall i :: 0 <= i < |m| && !(lo <= i < hi) ==> m'[i] == m[i])
  }

  ghost predicate SameInside(m: Memory, m': Memory, lo: int, hi: int) {
    0 <= lo <= hi <= |m| <= |m'| && (forall i :: lo <= i < hi ==> m'[i] == m[i])
  }

  // ---- blocks ----

  /** A block as its header records it. */
  datatype Info = Info(size: nat, free: bool)

  type Blocks = map<int, Info>

  function End(bs: Blocks, a: int): int
    requires a in bs
  {
    a + META + bs[a].size
  }

  ghost predicate FlagAt(m: Memory, a: int, free: bool) {
    0 <= a && a + NODE_SIZE <= |m| && m[a + 8] == Data(if free then 1 else 0)
  }

  /** Header, flag and boundary tag of a block. */
  ghost predicate BlockAt(m: Memory, a: int, b: Info) {
    WordAt(m, a, b.size) && FlagAt(m, a, b.free) && WordAt(m, a + NODE_SIZE + b.size, b.size)
  }

  ghost predicate IsBoundary(n: nat, bs: Blocks, a: int) {
    a == n || a in bs
  }

  /** The blocks tile `n` bytes: the first starts at 0, each ends where another starts or at `n`, no two overlap. */
  ghost predicate Layout(n: nat, bs: Blocks) {
    && (forall a :: a in bs ==> 0 <= a < n)
    && (forall a {:trigger End(bs, a)} :: a in bs ==> End(bs, a) <= n && IsBoundary(n, bs, End(bs, a)))
    && (forall a, b {:trigger End(bs, a), b in bs} :: a in bs && b in bs && a < b ==> End(bs, a) <= b)
    && (n > 0 ==> 0 in bs)
  }

  /** Memory holds the headers and tags of blocks that tile it. */
  ghost predicate Tiled(m: Memory, bs: Blocks) {
    Layout(|m|, bs) && (forall a :: a in bs ==> BlockAt(m, a, bs[a]))
  }

  /** The blocks from `a` to the end of the heap, in address order. */
  ghost function Chain(n: nat, bs: Blocks, a: int): seq<int>
    requires Layout(n, bs) && IsBoundary(n, bs, a) && 0 <= a <= n
    decreases n - a
  {
    if a == n then [] else [a] + Chain(n, bs, End(bs, a))
  }

  function TotalBytes(bs: Blocks, chain: seq<int>): nat
    requires forall i :: 0 <= i < |chain| ==> chain[i] in bs
  {
    if chain == [] then 0 else META + bs[chain[0]].size + TotalBytes(bs, chain[1..])
  }

  /**
    Walking the headers from any boundary visits exactly the blocks above it, and their bytes add up to the rest of
    the heap.
   */
  lemma {:induction false} ChainCovers(n: nat, bs: Blocks, a: int)
    requires Layout(n, bs) && IsBoundary(n, bs, a) && 0 <= a <= n
    ensures forall b :: b in Chain(n, bs, a) <==> b in bs && a <= b
    ensures forall i :: 0 <= i < |Chain(n, bs, a)| ==> Chain(n, bs, a)[i] in bs
    ensures TotalBytes(bs, Chain(n, bs, a)) == n - a
    decreases n - a
  {
    hide Layout, IsBoundary;
    StartsBelow(n, bs, a);
    if a < n {
      NextBoundary(n, bs, a);
      ChainCovers(n, bs, End(bs, a));
      assert Chain(n, bs, a)[1..] == Chain(n, bs, End(bs, a));
    }
  }

  lemma StartsBelow(n: nat, bs: Blocks, a: int)
    requires Layout(n, bs) && IsBoundary(n, bs, a) && 0 <= a <= n
    ensures forall b :: b in bs ==> b < n
    ensures a < n ==> a in bs
  {
  }

  lemma NextBoundary(n: nat, bs: Blocks, a: int)
    requires Layout(n, bs) && a in bs
    ensures IsBoundary(n, bs, End(bs, a)) && 0 <= a < End(bs, a) <= n
    ensures forall b :: b in bs && a < b ==> End(bs, a) <= b
  {
    hide IsBoundary;
  }

  /** The block just below another one. */
  ghost function Before(n: nat, bs: Blocks, x: int, a: int): (p: int)
    requires Layout(n, bs) && x in bs && a in bs && x < a
    ensures p in bs && End(bs, p) == a
    decreases a - x
  {
    if End(bs, x) == a then x else Before(n, bs, End(bs, x), a)
  }

  /** The blocks with those that start in [lo, hi) replaced by one block that reaches from `lo` to `hi`. */
  ghost function Merge(bs: Blocks, lo: int, hi: int, free: bool): Blocks
    requires lo + META <= hi
  {
    (map a | a in bs && !(lo <= a < hi) :: bs[a])[lo := Info(hi - lo - META, free)]
  }

  /** `bs'` differs from `bs` only in how it tiles the range from block `lo` to the boundary `hi`. */
  ghost predicate Retiles(n: nat, bs: Blocks, bs': Blocks, lo: int, hi: int) {
    && lo in bs && lo in bs' && IsBoundary(n, bs, hi) && lo < hi
    && (forall a :: a in bs && !(lo <= a < hi) ==> a in bs' && bs'[a] == bs[a])
    && (forall a :: a in bs' && !(lo <= a < hi) ==> a in bs)
    && (forall a {:trigger End(bs', a)} :: a in bs' && lo <= a < hi ==>
          End(bs', a) <= hi && IsBoundary(n, bs', End(bs', a)))
    && (forall a, b {:trigger End(bs', a), b in bs'} :: a in bs' && b in bs' && lo <= a < b < hi ==> End(bs', a) <= b)
  }

  lemma KeptBoundary(n: nat, bs: Blocks, bs': Blocks, lo: int, hi: int, x: int)
    requires Retiles(n, bs, bs', lo, hi) && IsBoundary(n, bs, x) && (x <= lo || hi <= x)
    ensures IsBoundary(n, bs', x)
  {
  }

  lemma BoundaryOrder(n: nat, bs: Blocks, x: int, a: int)
    requires Layout(n, bs) && a in bs && IsBoundary(n, bs, x)
    ensures a < x ==> End(bs, a) <= x
    ensures x < a ==> x in bs && End(bs, x) <= a
    ensures x <= n
  {
  }

  lemma RetileLayout(n: nat, bs: Blocks, bs': Blocks, lo: int, hi: int)
    requires Layout(n, bs) && Retiles(n, bs, bs', lo, hi)
    ensures Layout(n, bs')
    ensures 0 <= lo && hi <= n
  {
    hide IsBoundary;
    BoundaryOrder(n, bs, hi, lo);
    forall a | a in bs'
      ensures 0 <= a && End(bs', a) <= n && IsBoundary(n, bs', End(bs', a))
    {
      if !(lo <= a < hi) {
        if a < lo {
          assert End(bs, a) <= lo;
        }
        KeptBoundary(n, bs, bs', lo, hi, End(bs, a));
      }
    }
    forall a, b | a in bs' && b in bs' && a < b
      ensures End(bs', a) <= b
    {
      if lo <= b < hi {
        if a < lo {
          assert End(bs, a) <= lo;
        }
      } else if lo <= a < hi {
        BoundaryOrder(n, bs, hi, b);
      } else {
        assert End(bs, a) <= b;
      }
    }
    if n > 0 && lo > 0 {
      assert 0 in bs;
    }
  }

  /** Rewriting the inside of a range between block boundaries, so that it is tiled again, keeps the heap tiled. */
  lemma Retile(m: Memory, m': Memory, bs: Blocks, bs': Blocks, lo: int, hi: int)
    requires Tiled(m, bs) && SameOutside(m, m', lo, hi) && Retiles(|m|, bs, bs', lo, hi)
    requires forall a :: a in bs' && lo <= a < hi ==> BlockAt(m', a, bs'[a])
    ensures Tiled(m', bs')
    ensures forall a :: a in bs && !(lo <= a < hi) ==> SameInside(m, m', a, End(bs, a))
  {
    hide BlockAt, IsBoundary;
    RetileLayout(|m|, bs, bs', lo, hi);
    forall a | a in bs && !(lo <= a < hi)
      ensures SameInside(m, m', a, End(bs, a)) && BlockAt(m', a, bs[a])
    {
      assert a < lo ==> End(bs, a) <= lo;
      assert 0 <= a < End(bs, a) <= |m|;
      BlockFrame(m, m', a, bs[a]);
    }
  }

  lemma BlockFrame(m: Memory, m': Memory, a: int, b: Info)
    requires BlockAt(m, a, b) && SameInside(m, m', a, a + META + b.size)
    ensures BlockAt(m', a, b)
  {
  }

  // ---- the free list ----

  /** The stored back and forward links of the blocks. */
  datatype Links = Links(prev: map<int, Option<int>>, next: map<int, Option<int>>)

  ghost function WordOf(m: Memory, a: int): (w: Option<int>)
    ensures forall v :: WordAt(m, a, v) <==> w == Some(v)
  {
    if exists v :: WordAt(m, a, v) then Some(Word(m, a)) else None
  }

  ghost function LinksOf(m: Memory, bs: Blocks): Links {
    Links(map a | a in bs :: WordOf(m, a + 16), map a | a in bs :: WordOf(m, a + 24))
  }

  function At(fl: seq<int>, i: int): int {
    if 0 <= i < |fl| then fl[i] else NULL
  }

  /** A doubly linked list of distinct nodes; the back link of the head is not part of it. */
  ghost predicate Linked(l: Links, head: int, fl: seq<int>) {
    && head == At(fl, 0)
    && (forall i :: 0 <= i < |fl| ==> fl[i] in l.next && fl[i] in l.prev)
    && (forall i, j :: 0 <= i < j < |fl| && j == i + 1 ==> l.next[fl[i]] == Some(fl[j]) && l.prev[fl[j]] == Some(fl[i]))
    && (fl != [] ==> l.next[fl[|fl| - 1]] == Some(NULL))
    && (forall i, j :: 0 <= i < j < |fl| ==> fl[i] != fl[j])
  }

  ghost predicate SameLinks(m: Memory, m': Memory, a: int) {
    SameInside(m, m', a + 16, a + NODE_SIZE)
  }

  lemma SameWord(m: Memory, m': Memory, a: int)
    requires SameInside(m, m', a, a + 8)
    ensures WordOf(m', a) == WordOf(m, a)
  {
    assert forall v :: WordAt(m, a, v) <==> WordAt(m', a, v);
  }

  lemma SameLinkWords(m: Memory, m': Memory, a: int)
    requires SameLinks(m, m', a)
    ensures WordOf(m', a + 16) == WordOf(m, a + 16) && WordOf(m', a + 24) == WordOf(m, a + 24)
  {
    hide WordAt;
    SameWord(m, m', a + 16);
    SameWord(m, m', a + 24);
  }

  lemma LinkedFrame(m: Memory, bs: Blocks, m': Memory, bs': Blocks, head: int, fl: seq<int>)
    requires Linked(LinksOf(m, bs), head, fl)
    requires forall i :: 0 <= i < |fl| ==> fl[i] in bs' && SameLinks(m, m', fl[i])
    ensures Linked(LinksOf(m', bs'), head, fl)
  {
    hide WordAt, WordOf, SameLinks;
    forall i | 0 <= i < |fl|
      ensures WordOf(m', fl[i] + 16) == WordOf(m, fl[i] + 16) && WordOf(m', fl[i] + 24) == WordOf(m, fl[i] + 24)
    {
      SameLinkWords(m, m', fl[i]);
    }
  }

  /** The free list holds exactly the blocks flagged free. */
  ghost predicate ListsFree(bs: Blocks, fl: seq<int>) {
    forall a :: a in fl <==> a in bs && bs[a].free
  }

  // ---- the whole heap ----

  ghost predicate Inv(m: Memory, head: int, tail: int, start: int, bs: Blocks, fl: seq<int>) {
    && Tiled(m, bs) && Linked(LinksOf(m, bs), head, fl) && ListsFree(bs, fl)
    && (if |m| == 0 then bs == map[] && tail == NULL && start == NULL else tail in bs && start == 0)
  }

  ghost predicate Live(bs: Blocks, a: int) {
    a in bs && !bs[a].free
  }

  /** Every live block but `x` is still live, with the same size and the same bytes. */
  ghost predicate Keeps(m: Memory, bs: Blocks, m': Memory, bs': Blocks, x: int) {
    forall a :: Live(bs, a) && a != x ==>
                  a in bs' && bs'[a] == bs[a] && SameInside(m, m', a + NODE_SIZE, a + NODE_SIZE + bs[a].size)
  }

  lemma KeepsTrans(m: Memory, bs: Blocks, m1: Memory, bs1: Blocks, m2: Memory, bs2: Blocks, x: int)
    requires Keeps(m, bs, m1, bs1, x) && Keeps(m1, bs1, m2, bs2, x)
    ensures Keeps(m, bs, m2, bs2, x)
  {
    forall a | Live(bs, a) && a != x
      ensures a in bs2 && bs2[a] == bs[a] && SameInside(m, m2, a + NODE_SIZE, a + NODE_SIZE + bs[a].size)
    {
      assert Live(bs1, a);
    }
  }

  /** The live payloads are disjoint from each other and from all headers, links and tags. */
  lemma LivePayloadsAreDisjoint(m: Memory, bs: Blocks, a: int, b: int)
    requires Tiled(m, bs) && a in bs && b in bs && a != b
    ensures a + NODE_SIZE + bs[a].size + BTAG_SIZE <= b || b + NODE_SIZE + bs[b].size + BTAG_SIZE <= a
    ensures 0 <= a && a + NODE_SIZE + bs[a].size + BTAG_SIZE <= |m|
  {
    hide BlockAt, IsBoundary;
    assert End(bs, a) <= |m| && End(bs, b) <= |m|;
  }

  /** Storing a link of a block touches nothing but that link. */
  lemma LinkStore(m: Memory, bs: Blocks, a: int, off: int, v: int)
    requires Tiled(m, bs) && a in bs && (off == 16 || off == 24)
    ensures 0 <= a && a + NODE_SIZE <= |m|
    ensures var m' := SetWord(m, a + off, v);
            && Tiled(m', bs)
            && (forall b :: b in bs ==> SameInside(m, m', b + NODE_SIZE, b + NODE_SIZE + bs[b].size))
            && (forall b :: b in bs && b != a ==> SameLinks(m, m', b))
            && SameInside(m, m', a + (40 - off), a + (48 - off))
  {
    hide IsBoundary, WordAt;
    assert BlockAt(m, a, bs[a]);
    var m' := SetWord(m, a + off, v);
    LinkFrame(m, m', a, bs[a], off);
    SameRetiles(|m|, bs, a);
    hide BlockAt;
    Retile(m, m', bs, bs, a, End(bs, a));
    forall b | b in bs
      ensures b != a ==> SameLinks(m, m', b)
      ensures SameInside(m, m', b + NODE_SIZE, b + NODE_SIZE + bs[b].size)
    {
      if b != a {
        assert SameInside(m, m', b, End(bs, b));
      }
    }
  }

  lemma LinkFrame(m: Memory, m': Memory, a: int, b: Info, off: int)
    requires BlockAt(m, a, b) && (off == 16 || off == 24) && SameOutside(m, m', a + off, a + off + 8)
    ensures BlockAt(m', a, b)
  {
  }

  lemma SameRetiles(n: nat, bs: Blocks, a: int)
    requires Layout(n, bs) && a in bs
    ensures Retiles(n, bs, bs, a, End(bs, a))
  {
    hide IsBoundary;
  }
}
