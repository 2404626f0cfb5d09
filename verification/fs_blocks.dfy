/** Blocks of a file in finding_filesystems (minixfs.h, minixfs_utils.c, minixfs_provided.c), as values. */
module BlockMap {
  const BLOCK: nat := 16 * 1024
  const NUM_DIRECT: nat := 11
  const NUM_INDIRECT: nat := 4096
  const MAX_BLOCKS: nat := NUM_DIRECT + NUM_INDIRECT
  const UNASSIGNED: int := -1

  newtype Byte = b: int | 0 <= b < 256

  /** A data block read as file bytes or as a table of block numbers. */
  datatype Block = Bytes(b: seq<Byte>) | Table(t: seq<int>)

  datatype Disk = Disk(blocks: seq<Block>, used: seq<bool>)

  datatype Inode = Inode(direct: seq<int>, indirect: int, size: nat, nlink: nat)

  function Zeros(): (z: seq<Byte>)
    ensures |z| == BLOCK && forall i :: 0 <= i < BLOCK ==> z[i] == 0
  {
    seq(BLOCK, _ => 0)
  }

  predicate InRange(d: Disk, b: int) { 0 <= b < |d.blocks| }

  predicate HasTable(d: Disk, n: Inode) {
    InRange(d, n.indirect) && d.blocks[n.indirect].Table? && |d.blocks[n.indirect].t| == NUM_INDIRECT
  }

  /** The block number behind index `k` of the file, as `get_block` looks it up. */
  function No(d: Disk, n: Inode, k: nat): int
    requires |n.direct| == NUM_DIRECT && k < MAX_BLOCKS
  {
    if k < NUM_DIRECT then n.direct[k]
    else if HasTable(d, n) then d.blocks[n.indirect].t[k - NUM_DIRECT]
    else UNASSIGNED
  }

  predicate Assigned(d: Disk, n: Inode, k: nat)
    requires |n.direct| == NUM_DIRECT && k < MAX_BLOCKS
  {
    No(d, n, k) != UNASSIGNED
  }

  /** A block number that is in use and holds file bytes. */
  ghost predicate IsData(d: Disk, b: int) {
    InRange(d, b) && b < |d.used| && d.used[b] && d.blocks[b].Bytes? && |d.blocks[b].b| == BLOCK
  }

  /** The assigned blocks are distinct, in use and of the right kind; the table, if any, too. */
  ghost predicate NodeOk(d: Disk, n: Inode) {
    && |d.blocks| == |d.used| && |n.direct| == NUM_DIRECT
    && (n.indirect == UNASSIGNED || (HasTable(d, n) && d.used[n.indirect]))
    && (forall k :: 0 <= k < MAX_BLOCKS && Assigned(d, n, k) ==> IsData(d, No(d, n, k)) && No(d, n, k) != n.indirect)
    && (forall k, l :: 0 <= k < l < MAX_BLOCKS && Assigned(d, n, k) && Assigned(d, n, l) ==> No(d, n, k) != No(d, n, l))
  }

  /** Byte `j` of block `k`; a block that is not assigned reads as zeros. */
  ghost function At(d: Disk, n: Inode, k: nat, j: nat): Byte
    requires NodeOk(d, n) && k < MAX_BLOCKS && j < BLOCK
  {
    if Assigned(d, n, k) then d.blocks[No(d, n, k)].b[j] else 0
  }

  /** All blocks of the file hold the same bytes. */
  ghost predicate SameBytes(d: Disk, n: Inode, d': Disk, n': Inode)
    requires NodeOk(d, n) && NodeOk(d', n')
  {
    forall k, j :: 0 <= k < MAX_BLOCKS && 0 <= j < BLOCK ==> At(d', n', k, j) == At(d, n, k, j)
  }

  /** A block of the file, data or table. */
  ghost predicate Owned(d: Disk, n: Inode, b: int)
    requires |n.direct| == NUM_DIRECT
  {
    b == n.indirect || exists k :: 0 <= k < MAX_BLOCKS && Assigned(d, n, k) && No(d, n, k) == b
  }

  /** Blocks in use by other files are still in use and unchanged, and nothing is released. */
  ghost predicate OthersKept(d: Disk, n: Inode, d': Disk)
    requires |n.direct| == NUM_DIRECT
  {
    && |d'.blocks| == |d.blocks| == |d.used| == |d'.used|
    && (forall b :: 0 <= b < |d.used| && d.used[b] ==> d'.used[b] && (!Owned(d, n, b) ==> d'.blocks[b] == d.blocks[b]))
  }

  /** Everything that was assigned still is, to the same block. */
  ghost predicate Grown(d: Disk, n: Inode, d': Disk, n': Inode)
    requires |n.direct| == NUM_DIRECT && |n'.direct| == NUM_DIRECT
  {
    && n'.size == n.size
    && (n.indirect != UNASSIGNED ==> n'.indirect == n.indirect)
    && (forall k :: 0 <= k < MAX_BLOCKS && Assigned(d, n, k) ==> No(d', n', k) == No(d, n, k))
  }

  /** One step of growth: it keeps the bytes of the file, the assigned blocks, and all other files. */
  ghost predicate Grows(d: Disk, n: Inode, d': Disk, n': Inode) {
    && NodeOk(d, n) && NodeOk(d', n') && SameBytes(d, n, d', n') && OthersKept(d, n, d') && Grown(d, n, d', n')
    && (forall b :: Owned(d', n', b) && b != UNASSIGNED ==> Owned(d, n, b) || (InRange(d, b) && !d.used[b]))
  }

  lemma GrowsRefl(d: Disk, n: Inode)
    requires NodeOk(d, n)
    ensures Grows(d, n, d, n)
  {
  }

  lemma GrowsTrans(d: Disk, n: Inode, d1: Disk, n1: Inode, d2: Disk, n2: Inode)
    requires Grows(d, n, d1, n1) && Grows(d1, n1, d2, n2)
    ensures Grows(d, n, d2, n2)
  {
    hide IsData, At;
    hide No, HasTable;
    forall b | 0 <= b < |d.used| && d.used[b] && !Owned(d, n, b)
      ensures d2.used[b] && d2.blocks[b] == d.blocks[b]
    {
      assert d1.used[b] && b != UNASSIGNED;
      assert !Owned(d1, n1, b);
    }
  }

  /** Assigning a fresh zeroed block to index `k`. */
  function WithBlock(d: Disk, n: Inode, k: nat, b: nat): (Disk, Inode)
    requires |n.direct| == NUM_DIRECT && k < MAX_BLOCKS && b < |d.blocks| && b < |d.used|
  {
    var blocks := d.blocks[b := Bytes(Zeros())];
    if k < NUM_DIRECT then (Disk(blocks, d.used[b := true]), n.(direct := n.direct[k := b]))
    else if HasTable(d, n) then
      (Disk(blocks[n.indirect := Table(d.blocks[n.indirect].t[k - NUM_DIRECT := b])], d.used[b := true]), n)
    else (d, n)
  }

  lemma WithBlockNumbers(d: Disk, n: Inode, k: nat, b: nat)
    requires NodeOk(d, n) && k < MAX_BLOCKS && (k < NUM_DIRECT || HasTable(d, n)) && b < |d.blocks| && !d.used[b]
    ensures var (d', n') := WithBlock(d, n, k, b);
            && (n.indirect != UNASSIGNED ==> HasTable(d', n') && b != n.indirect) && n'.indirect == n.indirect
            && (forall l :: 0 <= l < MAX_BLOCKS ==> No(d', n', l) == if l == k then b else No(d, n, l))
            && d'.blocks[b] == Bytes(Zeros()) && d'.used == d.used[b := true]
            && (forall x :: 0 <= x < |d.blocks| && x != b && x != n.indirect ==> d'.blocks[x] == d.blocks[x])
  {
  }

  /** A fresh block in an empty place adds zeros where zeros were read before. */
  lemma WithBlockGrows(d: Disk, n: Inode, k: nat, b: nat)
    requires NodeOk(d, n) && k < MAX_BLOCKS && !Assigned(d, n, k) && (k < NUM_DIRECT || HasTable(d, n))
    requires b < |d.blocks| && !d.used[b]
    ensures var (d', n') := WithBlock(d, n, k, b); Grows(d, n, d', n') && No(d', n', k) == b
  {
    var (d', n') := WithBlock(d, n, k, b);
    WithBlockNumbers(d, n, k, b);
    hide WithBlock, No;
    assert NodeOk(d', n');
    assert Grown(d, n, d', n');
    assert OthersKept(d, n, d');
    assert SameBytes(d, n, d', n');
  }

  function NoEntries(): (t: seq<int>)
    ensures |t| == NUM_INDIRECT && forall i :: 0 <= i < NUM_INDIRECT ==> t[i] == UNASSIGNED
  {
    seq(NUM_INDIRECT, _ => UNASSIGNED)
  }

  /** An empty table of indirect blocks. The link count is set to 1 on the way. */
  function WithTable(d: Disk, n: Inode, b: nat): (Disk, Inode)
    requires b < |d.blocks| && b < |d.used|
  {
    (Disk(d.blocks[b := Table(NoEntries())], d.used[b := true]), n.(indirect := b, nlink := 1))
  }

  lemma WithTableGrows(d: Disk, n: Inode, b: nat)
    requires NodeOk(d, n) && n.indirect == UNASSIGNED && b < |d.blocks| && !d.used[b]
    ensures var (d', n') := WithTable(d, n, b); Grows(d, n, d', n') && HasTable(d', n')
    ensures var (d', n') := WithTable(d, n, b); forall k :: 0 <= k < MAX_BLOCKS ==> No(d', n', k) == No(d, n, k)
  {
    var (d', n') := WithTable(d, n, b);
    assert forall k :: 0 <= k < MAX_BLOCKS ==> No(d', n', k) == No(d, n, k);
    hide No, HasTable;
    assert NodeOk(d', n');
  }

  // ---- the file as a flat sequence of bytes ----

  /** The byte at position `p` of the file, zero where nothing was ever written. */
  ghost function ByteAt(d: Disk, n: Inode, p: nat): Byte
    requires NodeOk(d, n) && p < MAX_BLOCKS * BLOCK
  {
    At(d, n, p / BLOCK, p % BLOCK)
  }

  /** Every block below the size is assigned, and everything past the size is zero. */
  ghost predicate FileOk(d: Disk, n: Inode) {
    && NodeOk(d, n) && n.size <= MAX_BLOCKS * BLOCK
    && (forall k :: 0 <= k < MAX_BLOCKS && k * BLOCK < n.size ==> Assigned(d, n, k))
    && (forall p :: n.size <= p < MAX_BLOCKS * BLOCK ==> ByteAt(d, n, p) == 0)
  }

  /** The contents of the file. */
  ghost function Contents(d: Disk, n: Inode): (s: seq<Byte>)
    requires FileOk(d, n)
    ensures |s| == n.size
  {
    seq(n.size, p requires 0 <= p < n.size => ByteAt(d, n, p))
  }

  /** Growth leaves the file as it was. */
  lemma GrowthKeepsContents(d: Disk, n: Inode, d': Disk, n': Inode)
    requires FileOk(d, n) && Grows(d, n, d', n')
    ensures FileOk(d', n') && Contents(d', n') == Contents(d, n)
  {
    forall p | 0 <= p < MAX_BLOCKS * BLOCK
      ensures ByteAt(d', n', p) == ByteAt(d, n, p)
    {
      BlockOf(p);
    }
    assert forall k :: 0 <= k < MAX_BLOCKS && Assigned(d, n, k) ==> Assigned(d', n', k);
  }

  lemma BlockOf(p: int)
    requires 0 <= p < MAX_BLOCKS * BLOCK
    ensures 0 <= p / BLOCK < MAX_BLOCKS && 0 <= p % BLOCK < BLOCK && p == p / BLOCK * BLOCK + p % BLOCK
  {
  }

  // ---- storing bytes ----

  /** `chunk` copied into block `k` of the file at `o`. */
  function Stored(d: Disk, n: Inode, k: nat, o: nat, chunk: seq<Byte>): Disk
    requires |n.direct| == NUM_DIRECT && k < MAX_BLOCKS && InRange(d, No(d, n, k)) && d.blocks[No(d, n, k)].Bytes?
    requires o + |chunk| <= |d.blocks[No(d, n, k)].b|
  {
    var b := d.blocks[No(d, n, k)].b;
    Disk(d.blocks[No(d, n, k) := Bytes(b[..o] + chunk + b[o + |chunk|..])], d.used)
  }

  lemma AssignedIsData(d: Disk, n: Inode, k: nat)
    requires NodeOk(d, n) && k < MAX_BLOCKS && Assigned(d, n, k)
    ensures IsData(d, No(d, n, k)) && Owned(d, n, No(d, n, k))
  {
  }

  lemma StoredBlocks(d: Disk, n: Inode, k: nat, o: nat, chunk: seq<Byte>)
    requires NodeOk(d, n) && k < MAX_BLOCKS && Assigned(d, n, k) && IsData(d, No(d, n, k)) && o + |chunk| <= BLOCK
    ensures var d' := Stored(d, n, k, o, chunk);
            && NodeOk(d', n) && OthersKept(d, n, d')
            && (forall l :: 0 <= l < MAX_BLOCKS ==> No(d', n, l) == No(d, n, l))
            && (forall l, j :: 0 <= l < MAX_BLOCKS && 0 <= j < BLOCK ==>
                  At(d', n, l, j) == if l == k && o <= j < o + |chunk| then chunk[j - o] else At(d, n, l, j))
  {
    var d' := Stored(d, n, k, o, chunk);
    assert forall l :: 0 <= l < MAX_BLOCKS ==> No(d', n, l) == No(d, n, l);
    assert Owned(d, n, No(d, n, k));
    hide No;
  }

  /** Copying a chunk into a block changes exactly those bytes of the file. */
  lemma StoredBytes(d: Disk, n: Inode, k: nat, o: nat, chunk: seq<Byte>)
    requires NodeOk(d, n) && k < MAX_BLOCKS && Assigned(d, n, k) && IsData(d, No(d, n, k)) && o + |chunk| <= BLOCK
    ensures var d' := Stored(d, n, k, o, chunk);
            && NodeOk(d', n) && OthersKept(d, n, d')
            && (forall l :: 0 <= l < MAX_BLOCKS ==> No(d', n, l) == No(d, n, l))
            && (forall p :: 0 <= p < MAX_BLOCKS * BLOCK ==>
                  ByteAt(d', n, p) ==
                  if k * BLOCK + o <= p < k * BLOCK + o + |chunk| then chunk[p - (k * BLOCK + o)] else ByteAt(d, n, p))
  {
    hide OthersKept, ByteAt, At;
    StoredBlocks(d, n, k, o, chunk);
    BytesOfBlocks(d, n, Stored(d, n, k, o, chunk), k, o, chunk);
  }

  /** The bytes of the file by position, from the bytes of its blocks. */
  lemma BytesOfBlocks(d: Disk, n: Inode, d': Disk, k: nat, o: nat, chunk: seq<Byte>)
    requires NodeOk(d, n) && NodeOk(d', n) && o + |chunk| <= BLOCK
    requires forall l, j :: 0 <= l < MAX_BLOCKS && 0 <= j < BLOCK ==>
               At(d', n, l, j) == if l == k && o <= j < o + |chunk| then chunk[j - o] else At(d, n, l, j)
    ensures forall p :: 0 <= p < MAX_BLOCKS * BLOCK ==>
              ByteAt(d', n, p) ==
              if k * BLOCK + o <= p < k * BLOCK + o + |chunk| then chunk[p - (k * BLOCK + o)] else ByteAt(d, n, p)
  {
    hide NodeOk, At;
    forall p | 0 <= p < MAX_BLOCKS * BLOCK
      ensures ByteAt(d', n, p) ==
              if k * BLOCK + o <= p < k * BLOCK + o + |chunk| then chunk[p - (k * BLOCK + o)] else ByteAt(d, n, p)
    {
      BlockOf(p);
    }
  }

  /** A run of bytes inside one block of the file. */
  lemma BlockSlice(d: Disk, n: Inode, k: nat, o: nat, len: nat)
    requires NodeOk(d, n) && k < MAX_BLOCKS && Assigned(d, n, k) && o + len <= BLOCK
    ensures IsData(d, No(d, n, k)) && k * BLOCK + o + len <= MAX_BLOCKS * BLOCK
    ensures forall p :: k * BLOCK + o <= p < k * BLOCK + o + len ==>
                          ByteAt(d, n, p) == d.blocks[No(d, n, k)].b[o..o + len][p - (k * BLOCK + o)]
  {
    forall p | k * BLOCK + o <= p < k * BLOCK + o + len
      ensures ByteAt(d, n, p) == d.blocks[No(d, n, k)].b[o..o + len][p - (k * BLOCK + o)]
    {
      BlockOf(p);
    }
  }

  // ---- how many blocks there are and how many are missing ----

  function CountUnused(used: seq<bool>): (k: nat)
    ensures k == 0 <==> forall b :: 0 <= b < |used| ==> used[b]
  {
    if used == [] then 0 else (if used[0] then 0 else 1) + CountUnused(used[1..])
  }

  lemma {:induction false} UseOne(used: seq<bool>, b: nat)
    requires b < |used| && !used[b]
    ensures CountUnused(used[b := true]) == CountUnused(used) - 1
  {
    if b > 0 {
      UseOne(used[1..], b - 1);
      assert used[b := true][1..] == used[1..][b - 1 := true];
    } else {
      assert used[b := true][1..] == used[1..];
    }
  }

  /** The places without a block. */
  function Missing(entries: seq<int>): (k: nat)
    ensures k <= |entries|
    ensures k == |entries| <==> forall i :: 0 <= i < |entries| ==> entries[i] == UNASSIGNED
  {
    if entries == [] then 0
    else Missing(entries[..|entries| - 1]) + if entries[|entries| - 1] == UNASSIGNED then 1 else 0
  }

  lemma MissingNext(entries: seq<int>, i: nat)
    requires i < |entries|
    ensures Missing(entries[..i + 1]) == Missing(entries[..i]) + if entries[i] == UNASSIGNED then 1 else 0
  {
    assert entries[..i + 1][..i] == entries[..i];
  }

  lemma {:induction false} MissingGrows(entries: seq<int>, i: nat, j: nat)
    requires i <= j <= |entries|
    ensures Missing(entries[..i]) <= Missing(entries[..j])
    decreases j
  {
    if i < j {
      MissingGrows(entries, i, j - 1);
      MissingNext(entries, j - 1);
    }
  }

  /** The blocks a file lacks to have its first `count`: data blocks, and from 11 on the table of indirect blocks. */
  function MissingBlocks(d: Disk, n: Inode, count: nat): nat
    requires |n.direct| == NUM_DIRECT && count <= MAX_BLOCKS
  {
    if count < NUM_DIRECT then Missing(n.direct[..count])
    else Missing(n.direct) +
         if HasTable(d, n) then Missing(d.blocks[n.indirect].t[..count - NUM_DIRECT]) else 1 + (count - NUM_DIRECT)
  }

  /** The places below the `count`-th without a block. */
  ghost function Gaps(d: Disk, n: Inode, count: nat): set<nat>
    requires |n.direct| == NUM_DIRECT && count <= MAX_BLOCKS
  {
    set k: nat | 0 <= k < count && !Assigned(d, n, k)
  }

  lemma NextGap(d: Disk, n: Inode, count: nat)
    requires |n.direct| == NUM_DIRECT && count < MAX_BLOCKS
    ensures |Gaps(d, n, count + 1)| == |Gaps(d, n, count)| + if Assigned(d, n, count) then 0 else 1
  {
    hide No;
    var gaps, more := Gaps(d, n, count), Gaps(d, n, count + 1);
    assert more == if Assigned(d, n, count) then gaps else gaps + {count};
  }

  lemma {:induction false} GapsInDirect(d: Disk, n: Inode, count: nat)
    requires |n.direct| == NUM_DIRECT && count <= NUM_DIRECT
    ensures |Gaps(d, n, count)| == Missing(n.direct[..count])
  {
    hide Gaps, Missing;
    if count == 0 {
      NoGaps(d, n);
    } else {
      GapsInDirect(d, n, count - 1);
      NextGap(d, n, count - 1);
      MissingNext(n.direct, count - 1);
    }
  }

  lemma NoGaps(d: Disk, n: Inode)
    requires |n.direct| == NUM_DIRECT
    ensures Gaps(d, n, 0) == {} && Missing(n.direct[..0]) == 0
  {
  }

  lemma {:induction false} GapsInTable(d: Disk, n: Inode, j: nat)
    requires |n.direct| == NUM_DIRECT && j <= NUM_INDIRECT
    ensures |Gaps(d, n, NUM_DIRECT + j)| ==
            Missing(n.direct) + if HasTable(d, n) then Missing(d.blocks[n.indirect].t[..j]) else j
  {
    hide Gaps, HasTable, InRange;
    if j == 0 {
      GapsInDirect(d, n, NUM_DIRECT);
      assert n.direct[..NUM_DIRECT] == n.direct;
    } else {
      hide Missing;
      GapsInTable(d, n, j - 1);
      NextGap(d, n, NUM_DIRECT + j - 1);
      if HasTable(d, n) {
        TableShape(d, n);
        MissingNext(d.blocks[n.indirect].t, j - 1);
      }
    }
  }

  lemma TableShape(d: Disk, n: Inode)
    requires HasTable(d, n)
    ensures InRange(d, n.indirect) && d.blocks[n.indirect].Table? && |d.blocks[n.indirect].t| == NUM_INDIRECT
  {
  }

  /** The missing blocks are the places below without one, and the table where a place from the 11th on is wanted. */
  lemma MissingAreGaps(d: Disk, n: Inode, count: nat)
    requires |n.direct| == NUM_DIRECT && count <= MAX_BLOCKS
    ensures MissingBlocks(d, n, count) ==
            |Gaps(d, n, count)| + if count >= NUM_DIRECT && !HasTable(d, n) then 1 else 0
  {
    hide Gaps, Missing;
    if count < NUM_DIRECT {
      GapsInDirect(d, n, count);
    } else {
      GapsInTable(d, n, count - NUM_DIRECT);
    }
  }

  /** The numbers of the unused blocks. */
  function UnusedBlocks(used: seq<bool>): set<nat> {
    set b: nat | 0 <= b < |used| && !used[b]
  }

  lemma {:induction false} UnusedAreCounted(used: seq<bool>)
    ensures |UnusedBlocks(used)| == CountUnused(used)
    decreases |UnusedBlocks(used)|
  {
    hide CountUnused;
    if b: nat :| b < |used| && !used[b] {
      UseOne(used, b);
      assert UnusedBlocks(used) == UnusedBlocks(used[b := true]) + {b};
      UnusedAreCounted(used[b := true]);
    } else {
      assert UnusedBlocks(used) == {};
      NoneUnused(used);
    }
  }

  lemma NoneUnused(used: seq<bool>)
    requires forall b :: 0 <= b < |used| ==> used[b]
    ensures CountUnused(used) == 0
  {
  }

  // ---- what minixfs_write does across blocks ----

  /**
    The position in the caller's buffer that byte `i` of a write comes from: every block after the first starts again
    at 0.
   */
  function Source(off: nat, i: nat): nat {
    var first := BLOCK - off % BLOCK;
    if i < first then i else (i - first) % BLOCK
  }

  /** The source of a byte, which lies in the buffer. */
  function SourceIn(buf: seq<Byte>, off: nat, i: nat): (s: nat)
    requires i < |buf|
    ensures s == Source(off, i) < |buf|
  {
    Source(off, i)
  }

  /** Every block behind the first gets the bytes it should get, though they are taken from the start of the buffer. */
  predicate Repeats(buf: seq<Byte>, off: nat) {
    forall i :: 0 <= i < |buf| ==> buf[SourceIn(buf, off, i)] == buf[i]
  }

  /** A buffer with a mark on the first byte of the second block it is written to. */
  function Marked(off: nat, count: nat): (buf: seq<Byte>)
    ensures |buf| == count
  {
    seq(count, i => if i == BLOCK - off % BLOCK then 1 else 0)
  }

  /** All buffers of a length repeat in this way exactly if a write of that length stays in one block. */
  lemma WriteIsRightInOneBlock(off: nat, count: nat)
    ensures off % BLOCK + count <= BLOCK <==> forall buf: seq<Byte> :: |buf| == count ==> Repeats(buf, off)
  {
    var first := BLOCK - off % BLOCK;
    if off % BLOCK + count > BLOCK {
      var buf := Marked(off, count);
      assert SourceIn(buf, off, first) == 0 && buf[first] == 1 && buf[0] == 0;
      assert !Repeats(buf, off);
    } else {
      forall buf: seq<Byte> | |buf| == count
        ensures Repeats(buf, off)
      {
      }
    }
  }
}
