/**
  A client of the heap of malloc/alloc.c: a program that calls the allocator any number of times, with pointers it got
  from it, and stores into the bytes it asked for. What it sees is a map from pointers to bytes.
 */
module HeapClient {
  import opened Arithmetic
  import opened HeapMemory
  import opened HeapAllocator

  /** `more` says whether `sbrk` can extend the heap during the call. */
  datatype Call =
    | Malloc(size: nat, more: bool)
    | Calloc(num: nat, size: nat, more: bool)
    | Free(ptr: int)
    | Realloc(ptr: int, size: nat, more: bool)
    | Write(ptr: int, data: seq<Cell>)

  /** The pointers a client holds, with the sizes it asked for. */
  type Held = map<int, nat>

  /** The bytes behind the pointers a client holds. */
  type View = map<int, seq<Cell>>

  // ---- the arguments that reach sbrk and memset ----

  /** The signed increment `sbrk` receives. */
  function SbrkIncrement(size: nat): int
    requires size < SIZE_MAX_PLUS_ONE
  {
    var sum := (META + size) % SIZE_MAX_PLUS_ONE;
    if sum < SBRK_LIMIT then sum else sum - SIZE_MAX_PLUS_ONE
  }

  /** `sbrk` is asked for the block and its metadata exactly when the sum is a signed word. */
  lemma SbrkGetsTheRequest(size: nat)
    requires size < SIZE_MAX_PLUS_ONE
    ensures SbrkIncrement(size) == META + size <==> size + META < SBRK_LIMIT
  {
  }

  /** The largest request there is makes `sbrk` grow the heap by 39 bytes. */
  lemma LargestRequestWraps()
    ensures SbrkIncrement(SIZE_MAX_PLUS_ONE - 1) == 39
  {
  }

  /** The product `calloc` allocates and clears is the one asked for exactly when the division says so. */
  lemma CallocProduct(num: nat, size: nat)
    ensures num * size % SIZE_MAX_PLUS_ONE == num * size <==> num == 0 || size <= (SIZE_MAX_PLUS_ONE - 1) / num
  {
    var max := SIZE_MAX_PLUS_ONE - 1;
    if num > 0 {
      var q := max / num;
      ProductBound(max, num, q, size);
    }
  }

  lemma ProductBound(max: nat, num: nat, q: nat, size: nat)
    requires num > 0 && q == max / num
    ensures num * size <= max <==> size <= q
  {
    var rest := max % num;
    assert max == num * q + rest;
    if size <= q {
      MulMono(num, num, size, q);
    } else {
      MulMono(num, num, q + 1, size);
      assert num * (q + 1) == num * q + num;
    }
  }

  // ---- what a client may call, and what it then sees ----

  /** The pointers are ones the client holds, stores stay inside them, and requests reach `sbrk` as they are. */
  predicate Allowed(held: Held, call: Call) {
    match call
    case Malloc(size, _) => size + META < SBRK_LIMIT
    case Calloc(num, size, _) => num * size < SIZE_MAX_PLUS_ONE && num * size + META < SBRK_LIMIT
    case Free(ptr) => ptr == NULL || ptr in held
    case Realloc(ptr, size, _) => (ptr == NULL || ptr in held) && size + META < SBRK_LIMIT
    case Write(ptr, data) => ptr in held && |data| <= held[ptr]
  }

  /**
    NULL and no change, for no bytes or when the heap cannot be extended; or a pointer that was not held, with `size`
    bytes behind it, and no other change.
   */
  ghost predicate Gets(v: View, v': View, r: int, size: nat, more: bool) {
    if r == NULL then v' == v && (size == 0 || !more)
    else size > 0 && r !in v && r in v' && |v'[r]| == size && v' - {r} == v
  }

  ghost predicate Meets(v: View, call: Call, r: int, v': View) {
    match call
    case Malloc(size, more) => Gets(v, v', r, size, more)
    case Calloc(num, size, more) =>
      Gets(v, v', r, num * size, more) && (r != NULL ==> forall i :: 0 <= i < |v'[r]| ==> v'[r][i] == Data(0))
    case Free(ptr) => v' == v - {ptr}
    case Realloc(ptr, size, more) =>
      if ptr !in v then Gets(v, v', r, size, more)
      else if size == 0 then r == NULL && v' == v - {ptr}
      else if r == NULL then v' == v && !more && size > |v[ptr]|
      else Moves(v, v', ptr, r, size)
    case Write(ptr, data) => ptr in v && |data| <= |v[ptr]| && v' == v[ptr := data + v[ptr][|data|..]]
  }

  /** The bytes behind `ptr` are now behind `r`, as many as the smaller of the two sizes. */
  ghost predicate Moves(v: View, v': View, ptr: int, r: int, size: nat) {
    && ptr in v && (r == ptr || r !in v) && r in v' && |v'[r]| == size && v' - {r} == v - {ptr}
    && var k := if size < |v[ptr]| then size else |v[ptr]|; v'[r][..k] == v[ptr][..k]
  }

  ghost predicate Fits(m: Memory, held: Held) {
    forall p :: p in held ==> 0 <= p && p + held[p] <= |m|
  }

  /** The client holds exactly the live blocks, each at least as large as it asked for. */
  ghost predicate Holds(m: Memory, bs: Blocks, held: Held) {
    && Fits(m, held)
    && (forall p :: p in held <==> Live(bs, p - NODE_SIZE))
    && (forall p :: p in held ==> held[p] <= bs[p - NODE_SIZE].size)
  }

  function Bytes(m: Memory, p: int, n: nat): (b: seq<Cell>) {
    if 0 <= p && p + n <= |m| then m[p..p + n] else []
  }

  ghost function ViewOf(m: Memory, held: Held): (v: View)
    ensures v.Keys == held.Keys
  {
    map p | p in held :: Bytes(m, p, held[p])
  }

  /** No two pointers a client holds share a byte. */
  lemma HeldRangesAreDisjoint(m: Memory, bs: Blocks, held: Held, p: int, q: int)
    requires Tiled(m, bs) && Holds(m, bs, held) && p in held && q in held && p != q
    ensures p + held[p] <= q || q + held[q] <= p
  {
    LivePayloadsAreDisjoint(m, bs, p - NODE_SIZE, q - NODE_SIZE);
  }

  /** What is kept of a block the client holds is what the client sees of it. */
  lemma StillHeld(m: Memory, bs: Blocks, m': Memory, bs': Blocks, x: int, p: int, n: nat)
    requires Keeps(m, bs, m', bs', x) && Live(bs, p - NODE_SIZE) && p - NODE_SIZE != x && n <= bs[p - NODE_SIZE].size
    ensures Live(bs', p - NODE_SIZE) && bs'[p - NODE_SIZE] == bs[p - NODE_SIZE]
    ensures 0 <= p && p + n <= |m| <= |m'| && Bytes(m', p, n) == Bytes(m, p, n)
  {
    KeepsOne(m, bs, m', bs', x, p - NODE_SIZE);
    SamePrefix(m, m', p, bs[p - NODE_SIZE].size, n);
  }

  /** All that is kept stays held and looks the same. */
  lemma AllStillHeld(m: Memory, bs: Blocks, held: Held, m': Memory, bs': Blocks, x: int)
    requires Holds(m, bs, held) && Keeps(m, bs, m', bs', x)
    ensures forall p :: p in held && p - NODE_SIZE != x ==>
                          && Live(bs', p - NODE_SIZE) && bs'[p - NODE_SIZE] == bs[p - NODE_SIZE]
                          && 0 <= p && p + held[p] <= |m'| && Bytes(m', p, held[p]) == Bytes(m, p, held[p])
  {
    hide Keeps, Bytes;
    forall p | p in held && p - NODE_SIZE != x
      ensures Live(bs', p - NODE_SIZE) && bs'[p - NODE_SIZE] == bs[p - NODE_SIZE]
      ensures 0 <= p && p + held[p] <= |m'| && Bytes(m', p, held[p]) == Bytes(m, p, held[p])
    {
      StillHeld(m, bs, m', bs', x, p, held[p]);
    }
  }

  lemma InsideMemory(m: Memory, bs: Blocks, a: int)
    requires Tiled(m, bs) && Live(bs, a)
    ensures a in bs && 0 <= a && a + NODE_SIZE + bs[a].size <= |m|
  {
    HeaderWords(m, bs, a);
  }

  /** A new block: the client holds one pointer more. */
  lemma Gained(m: Memory, bs: Blocks, held: Held, m': Memory, bs': Blocks, r: int, size: nat, more: bool)
    requires Holds(m, bs, held) && Keeps(m, bs, m', bs', NULL) && Tiled(m', bs')
    requires forall b :: Live(bs, b) ==> b != NULL
    requires var node := r - NODE_SIZE; Live(bs', node) && bs'[node].size >= size > 0 && !Live(bs, node)
    requires forall a :: Live(bs', a) <==> Live(bs, a) || a == r - NODE_SIZE
    ensures Holds(m', bs', held[r := size])
    ensures Gets(ViewOf(m, held), ViewOf(m', held[r := size]), r, size, more)
  {
    hide Keeps, Tiled, Bytes, Live;
    AllStillHeld(m, bs, held, m', bs', NULL);
    InsideMemory(m', bs', r - NODE_SIZE);
    BytesPrefix(m', r, size, size);
    var held' := held[r := size];
    assert r !in held;
    forall p
      ensures p in held' <==> Live(bs', p - NODE_SIZE)
    {
      assert p in held <==> Live(bs, p - NODE_SIZE);
    }
    var v, v' := ViewOf(m, held), ViewOf(m', held');
    assert v' - {r} == v;
  }

  /** A freed block: the client holds one pointer less. */
  lemma Lost(m: Memory, bs: Blocks, held: Held, m': Memory, bs': Blocks, ptr: int)
    requires Holds(m, bs, held) && Keeps(m, bs, m', bs', ptr - NODE_SIZE)
    requires forall a :: Live(bs', a) <==> Live(bs, a) && a != ptr - NODE_SIZE
    ensures Holds(m', bs', held - {ptr})
    ensures ViewOf(m', held - {ptr}) == ViewOf(m, held) - {ptr}
  {
    hide Keeps, Bytes;
    AllStillHeld(m, bs, held, m', bs', ptr - NODE_SIZE);
    assert forall p :: p in held - {ptr} <==> Live(bs', p - NODE_SIZE);
  }

  /** A block that was moved. */
  lemma Moved(m: Memory, bs: Blocks, held: Held, m': Memory, bs': Blocks, ptr: int, r: int, size: nat)
    requires Holds(m, bs, held) && Keeps(m, bs, m', bs', ptr - NODE_SIZE) && ptr in held && Tiled(m', bs')
    requires var node := r - NODE_SIZE; Live(bs', node) && bs'[node].size >= size && !Live(bs, node)
    requires forall a :: Live(bs', a) <==> (Live(bs, a) && a != ptr - NODE_SIZE) || a == r - NODE_SIZE
    requires held[ptr] <= size && Bytes(m', r, held[ptr]) == Bytes(m, ptr, held[ptr])
    ensures Holds(m', bs', (held - {ptr})[r := size])
    ensures Moves(ViewOf(m, held), ViewOf(m', (held - {ptr})[r := size]), ptr, r, size)
  {
    hide Keeps, Tiled, Bytes;
    AllStillHeld(m, bs, held, m', bs', ptr - NODE_SIZE);
    InsideMemory(m', bs', r - NODE_SIZE);
    assert r !in held;
    var kept := held - {ptr};
    assert forall p :: p in kept <==> p in held && p != ptr;
    var held' := kept[r := size];
    forall p
      ensures p in held' <==> Live(bs', p - NODE_SIZE)
    {
      assert p in held <==> Live(bs, p - NODE_SIZE);
    }
    var v, v' := ViewOf(m, held), ViewOf(m', held');
    assert v' - {r} == v - {ptr};
    BytesPrefix(m', r, size, held[ptr]);
    BytesPrefix(m, ptr, held[ptr], held[ptr]);
  }

  lemma BytesPrefix(m: Memory, a: int, n: nat, k: nat)
    requires 0 <= a && a + n <= |m| && k <= n
    ensures |Bytes(m, a, n)| == n && Bytes(m, a, n)[..k] == Bytes(m, a, k)
  {
  }

  /** Bytes that were overwritten up to `k`. */
  lemma BytesStored(m: Memory, m': Memory, a: int, n: nat, k: nat, end: int)
    requires 0 <= a && a + n <= end && SameInside(m, m', a + k, end) && k <= n && |m'| == |m|
    ensures |Bytes(m, a, n)| == n && Bytes(m', a, n) == m'[a..a + k] + Bytes(m, a, n)[k..]
  {
  }

  /** A block that stays where it is: the client now holds `size` bytes of it. */
  lemma Resized(m: Memory, bs: Blocks, held: Held, ptr: int, size: nat)
    requires Tiled(m, bs) && Holds(m, bs, held) && ptr in held && size <= bs[ptr - NODE_SIZE].size
    ensures Holds(m, bs, held[ptr := size])
    ensures Moves(ViewOf(m, held), ViewOf(m, held[ptr := size]), ptr, ptr, size)
  {
    hide Tiled, Bytes;
    InsideMemory(m, bs, ptr - NODE_SIZE);
    BytesPrefix(m, ptr, size, if size < held[ptr] then size else held[ptr]);
    BytesPrefix(m, ptr, held[ptr], if size < held[ptr] then size else held[ptr]);
    assert ViewOf(m, held[ptr := size]) - {ptr} == ViewOf(m, held) - {ptr};
  }

  /** A store changes the bytes behind one pointer. */
  lemma Wrote(m: Memory, bs: Blocks, held: Held, m': Memory, ptr: int, data: seq<Cell>)
    requires Holds(m, bs, held) && Keeps(m, bs, m', bs, ptr - NODE_SIZE) && ptr in held && |data| <= held[ptr]
    requires |m'| == |m|
    requires m'[ptr..ptr + |data|] == data && SameInside(m, m', ptr + |data|, ptr + bs[ptr - NODE_SIZE].size)
    ensures Holds(m', bs, held)
    ensures var v := ViewOf(m, held); ViewOf(m', held) == v[ptr := data + v[ptr][|data|..]]
  {
    hide Keeps, SameInside, Bytes;
    AllStillHeld(m, bs, held, m', bs, ptr - NODE_SIZE);
    BytesStored(m, m', ptr, held[ptr], |data|, ptr + bs[ptr - NODE_SIZE].size);
    BytesPrefix(m, ptr, held[ptr], held[ptr]);
    BytesPrefix(m', ptr, held[ptr], held[ptr]);
    var v := ViewOf(m, held);
    assert ViewOf(m', held)[ptr] == data + v[ptr][|data|..];
  }

  lemma TiledNow(h: Heap)
    requires h.Valid()
    ensures Tiled(h.mem, h.blocks)
    ensures forall b :: Live(h.blocks, b) ==> b != NULL
  {
    LiveNotNull(h.mem, h.blocks);
  }

  // ---- calls and runs ----

  method Allocate(h: Heap, held: Held, size: nat, more: bool) returns (held': Held, r: int)
    requires h.Valid() && Holds(h.mem, h.blocks, held) && size + META < SBRK_LIMIT
    modifies h
    ensures h.Valid() && Holds(h.mem, h.blocks, held')
    ensures Gets(ViewOf(old(h.mem), held), ViewOf(h.mem, held'), r, size, more)
    ensures held' == if r == NULL then held else held[r := size]
  {
    hide Inv, Keeps, Tiled, Holds, FirstFit, Splits, Taken;
    ghost var m, bs := h.mem, h.blocks;
    TiledNow(h);
    r := h.Malloc(size, more);
    held' := held;
    if r != NULL {
      TiledNow(h);
      Gained(m, bs, held, h.mem, h.blocks, r, size, more);
      held' := held[r := size];
    }
  }

  method Clear(h: Heap, held: Held, num: nat, size: nat, more: bool) returns (held': Held, r: int)
    requires h.Valid() && Holds(h.mem, h.blocks, held) && Allowed(held, Calloc(num, size, more))
    modifies h
    ensures h.Valid() && Holds(h.mem, h.blocks, held')
    ensures Meets(ViewOf(old(h.mem), held), Calloc(num, size, more), r, ViewOf(h.mem, held'))
  {
    hide Inv, Keeps, Tiled, Holds, FirstFit, Splits, Taken;
    ghost var m, bs := h.mem, h.blocks;
    TiledNow(h);
    r := h.Calloc(num, size, more);
    held' := held;
    if r != NULL {
      TiledNow(h);
      Gained(m, bs, held, h.mem, h.blocks, r, num * size, more);
      held' := held[r := num * size];
    }
  }

  method Release(h: Heap, held: Held, ptr: int) returns (held': Held)
    requires h.Valid() && Holds(h.mem, h.blocks, held) && Allowed(held, Free(ptr))
    modifies h
    ensures h.Valid() && Holds(h.mem, h.blocks, held')
    ensures ViewOf(h.mem, held') == ViewOf(old(h.mem), held) - {ptr}
  {
    hide Inv, Keeps, Tiled, Merge, FreedFrom, FreedTo, JoinsNext, Freed, Holds;
    ghost var m, bs := h.mem, h.blocks;
    HeldSizes(m, bs, held);
    h.Free(ptr);
    held' := held - {ptr};
    if ptr == NULL {
      assert held' == held;
    } else {
      Lost(m, bs, held, h.mem, h.blocks, ptr);
    }
  }

  method Resize(h: Heap, held: Held, ptr: int, size: nat, more: bool) returns (held': Held, r: int)
    requires h.Valid() && Holds(h.mem, h.blocks, held) && Allowed(held, Realloc(ptr, size, more))
    modifies h
    ensures h.Valid() && Holds(h.mem, h.blocks, held')
    ensures Meets(ViewOf(old(h.mem), held), Realloc(ptr, size, more), r, ViewOf(h.mem, held'))
  {
    hide Inv, Keeps, Tiled, Holds, Moves, FirstFit;
    ghost var m, bs := h.mem, h.blocks;
    TiledNow(h);
    HeldSizes(m, bs, held);
    r := h.Realloc(ptr, size, more);
    TiledNow(h);
    held' := held;
    if ptr == NULL {
      if r != NULL {
        Gained(m, bs, held, h.mem, h.blocks, r, size, more);
        held' := held[r := size];
      }
    } else if size == 0 {
      Lost(m, bs, held, h.mem, h.blocks, ptr);
      held' := held - {ptr};
    } else if r != NULL {
      held' := (held - {ptr})[r := size];
      if size <= bs[ptr - NODE_SIZE].size {
        assert held' == held[ptr := size];
        Resized(m, bs, held, ptr, size);
      } else {
        SameBytes(m, h.mem, ptr, r, bs[ptr - NODE_SIZE].size, held[ptr]);
        Moved(m, bs, held, h.mem, h.blocks, ptr, r, size);
      }
    }
  }

  lemma HeldSizes(m: Memory, bs: Blocks, held: Held)
    requires Holds(m, bs, held)
    ensures forall p :: p in held ==> p + held[p] <= |m|
    ensures forall p :: p in held ==> 0 <= p && Live(bs, p - NODE_SIZE) && held[p] <= bs[p - NODE_SIZE].size
  {
  }

  lemma SameBytes(m: Memory, m': Memory, a: int, b: int, n: nat, k: nat)
    requires 0 <= a && a + n <= |m| && 0 <= b && b + n <= |m'| && k <= n && m'[b..b + n] == m[a..a + n]
    ensures Bytes(m', b, k) == Bytes(m, a, k)
  {
    assert m'[b..b + k] == m'[b..b + n][..k];
    assert m[a..a + k] == m[a..a + n][..k];
  }

  method Put(h: Heap, held: Held, ptr: int, data: seq<Cell>)
    requires h.Valid() && Holds(h.mem, h.blocks, held) && Allowed(held, Write(ptr, data))
    modifies h
    ensures h.Valid() && Holds(h.mem, h.blocks, held)
    ensures Meets(ViewOf(old(h.mem), held), Write(ptr, data), NULL, ViewOf(h.mem, held))
  {
    hide Inv, Keeps, SameInside, Holds;
    ghost var m, bs := h.mem, h.blocks;
    HeldSizes(m, bs, held);
    h.Store(ptr, data);
    Wrote(m, bs, held, h.mem, ptr, data);
  }

  /** One call of the client. */
  method Step(h: Heap, held: Held, call: Call) returns (held': Held, r: int)
    requires h.Valid() && Holds(h.mem, h.blocks, held) && Allowed(held, call)
    modifies h
    ensures h.Valid() && Holds(h.mem, h.blocks, held')
    ensures Meets(ViewOf(old(h.mem), held), call, r, ViewOf(h.mem, held'))
  {
    match call
    case Malloc(size, more) => held', r := Allocate(h, held, size, more);
    case Calloc(num, size, more) => held', r := Clear(h, held, num, size, more);
    case Free(ptr) => held' := Release(h, held, ptr); r := NULL;
    case Realloc(ptr, size, more) => held', r := Resize(h, held, ptr, size, more);
    case Write(ptr, data) => Put(h, held, ptr, data); held', r := held, NULL;
  }

  /** A run as the client sees it: every call does what it promises. */
  ghost predicate Served(views: seq<View>, calls: seq<Call>, results: seq<int>) {
    && |calls| == |results| && |views| == |calls| + 1
    && (forall i :: 0 <= i < |calls| ==> Meets(views[i], calls[i], results[i], views[i + 1]))
  }

  /**
    Any number of calls, up to the first one that is not allowed: the heap serves all of them, stays tiled and linked,
    and holds exactly what the client still holds.
   */
  method Run(h: Heap, calls: seq<Call>) returns (held: Held, results: seq<int>, ghost views: seq<View>)
    requires h.Valid() && h.blocks == map[]
    modifies h
    ensures h.Valid() && Holds(h.mem, h.blocks, held) && |results| <= |calls|
    ensures |results| < |calls| ==> !Allowed(held, calls[|results|])
    ensures Served(views, calls[..|results|], results)
    ensures views[0] == map[] && views[|results|] == ViewOf(h.mem, held)
  {
    hide Inv, Meets, Allowed;
    held, results := map[], [];
    views := [ViewOf(h.mem, held)];
    while |results| < |calls| && Allowed(held, calls[|results|])
      invariant h.Valid() && Holds(h.mem, h.blocks, held) && |results| <= |calls|
      invariant Served(views, calls[..|results|], results)
      invariant views[0] == map[] && views[|results|] == ViewOf(h.mem, held)
      decreases |calls| - |results|
    {
      var r;
      held, r := Step(h, held, calls[|results|]);
      ServedMore(views, calls, results, r, ViewOf(h.mem, held));
      results := results + [r];
      views := views + [ViewOf(h.mem, held)];
    }
  }

  lemma ServedMore(views: seq<View>, calls: seq<Call>, results: seq<int>, r: int, v: View)
    requires |results| < |calls| && Served(views, calls[..|results|], results)
    requires Meets(views[|results|], calls[|results|], r, v)
    ensures Served(views + [v], calls[..|results| + 1], results + [r])
  {
    hide Meets;
  }

  predicate Touches(call: Call, p: int) {
    match call
    case Free(ptr) => ptr == p
    case Realloc(ptr, _, _) => ptr == p
    case Write(ptr, _) => ptr == p
    case _ => false
  }

  /** What a client stored stays behind its pointer, whatever it allocates, moves and frees elsewhere. */
  lemma {:induction false} BytesStay(views: seq<View>, calls: seq<Call>, results: seq<int>, i: nat, j: nat, p: int)
    requires Served(views, calls, results) && i <= j <= |calls| && p in views[i]
    requires forall k :: i <= k < j ==> !Touches(calls[k], p)
    ensures p in views[j] && views[j][p] == views[i][p]
    decreases j
  {
    if i < j {
      BytesStay(views, calls, results, i, j - 1, p);
      UntouchedStays(views[j - 1], calls[j - 1], results[j - 1], views[j], p);
    }
  }

  lemma UntouchedStays(v: View, call: Call, r: int, v': View, p: int)
    requires Meets(v, call, r, v') && p in v && !Touches(call, p)
    ensures p in v' && v'[p] == v[p]
  {
    match call
    case Malloc(size, _) => GotElsewhere(v, v', r, p);
    case Calloc(num, size, _) => GotElsewhere(v, v', r, p);
    case Realloc(ptr, size, _) => {
      if ptr !in v {
        GotElsewhere(v, v', r, p);
      } else if size > 0 && r != NULL {
        assert p in v - {ptr} && (v - {ptr})[p] == v[p];
      }
    }
    case _ =>
  }

  lemma GotElsewhere(v: View, v': View, r: int, p: int)
    requires p in v && (v' == v || (r !in v && v' - {r} == v))
    ensures p in v' && v'[p] == v[p]
  {
    if v' != v {
      assert p in v' - {r};
    }
  }
}
