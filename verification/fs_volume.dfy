/** minixfs_utils.c, minixfs_provided.c and minixfs.c: allocation, growth, reading and writing of one file, in place. */
module MiniFile {
  import opened BlockMap

  /** The first index in `entries` that holds no block number. */
  function FirstEmpty(entries: seq<int>): (i: nat)
    ensures i <= |entries|
    ensures i < |entries| ==> entries[i] == UNASSIGNED
    ensures forall j :: 0 <= j < i ==> entries[j] != UNASSIGNED
  {
    if entries == [] || entries[0] == UNASSIGNED then 0 else 1 + FirstEmpty(entries[1..])
  }

  /** `get_ceil` of a size in blocks. */
  function BlocksFor(bytes: nat): nat {
    bytes / BLOCK + if bytes % BLOCK != 0 then 1 else 0
  }

  /** A size needs a block if and only if that block begins below it. */
  lemma BlocksForMeans(bytes: nat, k: nat)
    ensures k < BlocksFor(bytes) <==> k * BLOCK < bytes
  {
  }

  /** The places a file of `end` bytes reaches that have no block. */
  ghost function Lacking(d: Disk, n: Inode, end: nat): set<nat>
    requires |n.direct| == NUM_DIRECT
  {
    set k: nat | 0 <= k < MAX_BLOCKS && k * BLOCK < end && !Assigned(d, n, k)
  }

  /** The blocks such a file wants: its own, and the table if it reaches the last direct place or goes on behind it. */
  ghost function Wanted(d: Disk, n: Inode, end: nat): nat
    requires |n.direct| == NUM_DIRECT
  {
    |Lacking(d, n, end)| + if (NUM_DIRECT - 1) * BLOCK < end && n.indirect == UNASSIGNED then 1 else 0
  }

  lemma WantedAreMissing(d: Disk, n: Inode, end: nat)
    requires NodeOk(d, n) && end <= MAX_BLOCKS * BLOCK
    ensures BlocksFor(end) <= MAX_BLOCKS && MissingBlocks(d, n, BlocksFor(end)) == Wanted(d, n, end)
  {
    hide No;
    BlocksForMeans(end, MAX_BLOCKS);
    BlocksForMeans(end, NUM_DIRECT - 1);
    forall k: nat | k < MAX_BLOCKS
      ensures k < BlocksFor(end) <==> k * BLOCK < end
    {
      BlocksForMeans(end, k);
    }
    MissingAreGaps(d, n, BlocksFor(end));
    assert Lacking(d, n, end) == Gaps(d, n, BlocksFor(end));
  }

  /** The first `count` blocks are assigned, and from 11 blocks on there is a table. */
  ghost predicate Enough(d: Disk, n: Inode, count: nat) {
    && |n.direct| == NUM_DIRECT && count <= MAX_BLOCKS && (forall k :: 0 <= k < count ==> Assigned(d, n, k))
    && (count >= NUM_DIRECT ==> n.indirect != UNASSIGNED)
  }

  /** The mapped image and one inode of it. */
  class Volume {
    const dataMap: array<bool>
    const dataRoot: array<Block>
    const direct: array<int>
    var indirect: int
    var size: nat
    var nlink: nat

    ghost function DiskNow(): Disk
      reads dataMap, dataRoot
    {
      Disk(dataRoot[..], dataMap[..])
    }

    ghost function NodeNow(): Inode
      reads this, direct
    {
      Inode(direct[..], indirect, size, nlink)
    }

    ghost function Unused(): (k: nat)
      reads dataMap
      ensures k == |UnusedBlocks(dataMap[..])|
    {
      UnusedAreCounted(dataMap[..]);
      CountUnused(dataMap[..])
    }

    ghost predicate Full()
      reads dataMap
      ensures Full() <==> Unused() == 0
    {
      forall b :: 0 <= b < dataMap.Length ==> dataMap[..][b]
    }

    constructor (dataMap: array<bool>, dataRoot: array<Block>, direct: array<int>, indirect: int, size: nat, nlink: nat)
      ensures this.dataMap == dataMap && this.dataRoot == dataRoot && this.direct == direct
      ensures this.indirect == indirect && this.size == size && this.nlink == nlink
    {
      this.dataMap, this.dataRoot, this.direct := dataMap, dataRoot, direct;
      this.indirect, this.size, this.nlink := indirect, size, nlink;
    }

    /** `set_data_used`: out of range numbers are ignored. */
    method SetDataUsed(b: int, used: bool)
      modifies dataMap
      ensures dataMap[..] == if 0 <= b < dataMap.Length then old(dataMap[..])[b := used] else old(dataMap[..])
    {
      if b < 0 || b >= dataMap.Length {
        return;
      }
      dataMap[b] := used;
    }

    /** `first_unused_data`: any unused block, as the random choice may have it, or -1 when all are used. */
    method FirstUnusedData() returns (b: int)
      ensures b == -1 <==> Full()
      ensures b != -1 ==> 0 <= b < dataMap.Length && !dataMap[b]
    {
      if i :| 0 <= i < dataMap.Length && !dataMap[i] {
        return i;
      }
      return -1;
    }

    /** `add_data_block_to_inode`: -1 if the disk is full, 0 if no direct place is left. */
    method AddDataBlockToInode() returns (r: int)
      requires direct.Length == NUM_DIRECT
      modifies dataMap, direct
      ensures var k := FirstEmpty(old(direct[..]));
              if k == NUM_DIRECT then r == 0 && dataMap[..] == old(dataMap[..]) && direct[..] == old(direct[..])
              else if old(Full()) then r == -1 && dataMap[..] == old(dataMap[..]) && direct[..] == old(direct[..])
              else 0 <= r < dataMap.Length && !old(dataMap[..])[r] &&
                   dataMap[..] == old(dataMap[..])[r := true] && direct[..] == old(direct[..])[k := r]
    {
      for i := 0 to NUM_DIRECT
        invariant dataMap[..] == old(dataMap[..]) && direct[..] == old(direct[..])
        invariant forall j :: 0 <= j < i ==> direct[j] != UNASSIGNED
      {
        if direct[i] == UNASSIGNED {
          assert FirstEmpty(direct[..]) == i;
          var firstData := FirstUnusedData();
          if firstData == -1 {
            return -1;
          }
          direct[i] := firstData;
          SetDataUsed(firstData, true);
          return firstData;
        }
      }
      assert FirstEmpty(direct[..]) == NUM_DIRECT;
      return 0;
    }

    /** `add_data_block_to_indirect_block` on the table in block `t`. */
    method AddDataBlockToIndirectBlock(t: nat) returns (r: int)
      requires t < dataRoot.Length && dataRoot[t].Table? && |dataRoot[t].t| == NUM_INDIRECT
      modifies dataMap, dataRoot
      ensures var entries := old(dataRoot[t].t);
              var k := FirstEmpty(entries);
              if k == NUM_INDIRECT then r == 0 && dataMap[..] == old(dataMap[..]) && dataRoot[..] == old(dataRoot[..])
              else if old(Full()) then r == -1 && dataMap[..] == old(dataMap[..]) && dataRoot[..] == old(dataRoot[..])
              else 0 <= r < dataMap.Length && !old(dataMap[..])[r] &&
                   dataMap[..] == old(dataMap[..])[r := true] &&
                       dataRoot[..] == old(dataRoot[..])[t := Table(entries[k := r])]
    {
      for i := 0 to NUM_INDIRECT
        invariant dataMap[..] == old(dataMap[..]) && dataRoot[..] == old(dataRoot[..])
        invariant dataRoot[t].Table? && dataRoot[t].t == old(dataRoot[t].t)
        invariant forall j :: 0 <= j < i ==> dataRoot[t].t[j] != UNASSIGNED
      {
        if dataRoot[t].t[i] == UNASSIGNED {
          assert FirstEmpty(dataRoot[t].t) == i;
          var firstData := FirstUnusedData();
          if firstData == -1 {
            return -1;
          }
          dataRoot[t] := Table(dataRoot[t].t[i := firstData]);
          SetDataUsed(firstData, true);
          return firstData;
        }
      }
      assert FirstEmpty(dataRoot[t].t) == NUM_INDIRECT;
      return 0;
    }

    /** `add_single_indirect_block`: 0 also when there is one already. */
    method AddSingleIndirectBlock() returns (r: int)
      requires NodeOk(DiskNow(), NodeNow())
      modifies dataMap, dataRoot, this`indirect, this`nlink
      ensures Grows(old(DiskNow()), old(NodeNow()), DiskNow(), NodeNow())
      ensures r == 0 || (r == -1 && Full())
      ensures r == 0 <==> indirect != UNASSIGNED
      ensures (old(indirect) != UNASSIGNED ==> indirect == old(indirect))
      ensures nlink == if indirect == old(indirect) then old(nlink) else 1
      ensures Unused() == old(Unused()) - if old(indirect) == indirect then 0 else 1
      ensures direct[..] == old(direct[..]) && (old(indirect) == indirect ==> dataRoot[..] == old(dataRoot[..]))
      ensures old(indirect) != indirect ==> HasTable(DiskNow(), NodeNow()) && dataRoot[indirect].t == NoEntries()
      ensures r == 0 ==> HasTable(DiskNow(), NodeNow())
      ensures forall k :: 0 <= k < MAX_BLOCKS ==> No(DiskNow(), NodeNow(), k) == old(No(DiskNow(), NodeNow(), k))
    {
      hide NodeOk, No, Grows;
      ghost var d, n := DiskNow(), NodeNow();
      GrowsRefl(d, n);
      NodeShape(d, n);
      if indirect != UNASSIGNED {
        return 0;
      }
      var firstData := FirstUnusedData();
      if firstData == -1 {
        return -1;
      }
      WithTableGrows(d, n, firstData);
      UseOne(dataMap[..], firstData);
      indirect := firstData;
      SetDataUsed(firstData, true);
      nlink := 1;
      FillTable(firstData);
      assert (DiskNow(), NodeNow()) == WithTable(d, n, firstData);
      return 0;
    }

    /** The loop that marks every entry of a new table as unassigned. */
    method FillTable(b: nat)
      requires b < dataRoot.Length
      modifies dataRoot
      ensures dataRoot[..] == old(dataRoot[..])[b := Table(NoEntries())]
    {
      var entries := [];
      for i := 0 to NUM_INDIRECT
        invariant entries == NoEntries()[..i]
      {
        entries := entries + [UNASSIGNED];
      }
      assert entries == NoEntries();
      dataRoot[b] := Table(entries);
    }

    /** `memset(..., 0, sizeof(data_block))`. */
    method ZeroBlock(b: nat)
      requires b < dataRoot.Length
      modifies dataRoot
      ensures dataRoot[..] == old(dataRoot[..])[b := Bytes(Zeros())]
    {
      dataRoot[b] := Bytes(Zeros());
    }

    /** The direct places below `count` get zeroed blocks. */
    method GrowDirect(count: nat) returns (r: int)
      requires count <= NUM_DIRECT && NodeOk(DiskNow(), NodeNow())
      modifies dataMap, dataRoot, direct
      ensures Grows(old(DiskNow()), old(NodeNow()), DiskNow(), NodeNow())
      ensures r == 0 || (r == -1 && Full())
      ensures r == 0 <==> forall k :: 0 <= k < count ==> Assigned(DiskNow(), NodeNow(), k)
      ensures var missing := Missing(old(direct[..])[..count]);
              && (r == 0 <==> missing <= old(Unused())) && (r == 0 ==> Unused() == old(Unused()) - missing)
      ensures forall b :: 0 <= b < dataMap.Length && old(dataMap[b]) ==> dataRoot[b] == old(dataRoot[b])
    {
      hide Grows, WithBlock, NodeOk, CountUnused, Missing;
      ghost var d0, n0 := DiskNow(), NodeNow();
      NodeShape(d0, n0);
      GrowsRefl(d0, n0);
      MissingNone(n0.direct);
      for i := 0 to count
        invariant direct.Length == NUM_DIRECT && dataRoot.Length == dataMap.Length
        invariant NodeOk(DiskNow(), NodeNow()) && Grows(d0, n0, DiskNow(), NodeNow())
        invariant forall k :: 0 <= k < i ==> direct[k] != UNASSIGNED
        invariant forall k :: i <= k < NUM_DIRECT ==> direct[k] == n0.direct[k]
        invariant Unused() == CountUnused(d0.used) - Missing(n0.direct[..i])
        invariant forall b :: 0 <= b < dataMap.Length && d0.used[b] ==> dataMap[b] && dataRoot[b] == d0.blocks[b]
      {
        MissingNext(n0.direct, i);
        MissingGrows(n0.direct, i + 1, count);
        if direct[i] == UNASSIGNED {
          ghost var d, n := DiskNow(), NodeNow();
          assert FirstEmpty(n.direct) == i;
          var err := AddDataBlockToInode();
          if err == -1 {
            assert DiskNow() == d && NodeNow() == n && !Assigned(d, n, i);
            return -1;
          }
          WithBlockGrows(d, n, i, err);
          UseOne(d.used, err);
          ZeroBlock(direct[i]);
          DirectIsWithBlock(d, n, i, err, DiskNow(), NodeNow());
          GrowsMeans(d, n, DiskNow(), NodeNow());
          GrowsTrans(d0, n0, d, n, DiskNow(), NodeNow());
        }
      }
      return 0;
    }

    /** The entries of the table below `count` get zeroed blocks. */
    method GrowIndirect(count: nat) returns (r: int)
      requires count <= NUM_INDIRECT && NodeOk(DiskNow(), NodeNow()) && HasTable(DiskNow(), NodeNow())
      modifies dataMap, dataRoot
      ensures Grows(old(DiskNow()), old(NodeNow()), DiskNow(), NodeNow())
      ensures r == 0 || (r == -1 && Full())
      ensures r == 0 <==> forall k :: NUM_DIRECT <= k < NUM_DIRECT + count ==> Assigned(DiskNow(), NodeNow(), k)
      ensures var missing := Missing(old(dataRoot[indirect].t)[..count]);
              && (r == 0 <==> missing <= old(Unused())) && (r == 0 ==> Unused() == old(Unused()) - missing)
    {
      hide Grows, WithBlock, NodeOk, CountUnused, Missing;
      ghost var d0, n0 := DiskNow(), NodeNow();
      NodeShape(d0, n0);
      GrowsRefl(d0, n0);
      var t: nat := indirect;
      ghost var entries := dataRoot[t].t;
      MissingNone(entries);
      for i := 0 to count
        invariant NodeOk(DiskNow(), NodeNow()) && HasTable(DiskNow(), NodeNow()) && Grows(d0, n0, DiskNow(), NodeNow())
        invariant dataRoot.Length == dataMap.Length && t == indirect && NodeNow() == n0
        invariant forall k :: 0 <= k < i ==> dataRoot[t].t[k] != UNASSIGNED
        invariant forall k :: i <= k < NUM_INDIRECT ==> dataRoot[t].t[k] == entries[k]
        invariant Unused() == CountUnused(d0.used) - Missing(entries[..i])
      {
        MissingNext(entries, i);
        MissingGrows(entries, i + 1, count);
        if dataRoot[t].t[i] == UNASSIGNED {
          ghost var d, n := DiskNow(), NodeNow();
          assert FirstEmpty(dataRoot[t].t) == i;
          var err := AddDataBlockToIndirectBlock(t);
          if err == -1 {
            assert DiskNow() == d && NodeNow() == n && !Assigned(d, n, NUM_DIRECT + i);
            return -1;
          }
          WithBlockGrows(d, n, NUM_DIRECT + i, err);
          UseOne(d.used, err);
          TableNotData(d, n, err);
          ZeroBlock(err);
          IndirectIsWithBlock(d, n, i, err, DiskNow());
          GrowsMeans(d, n, DiskNow(), NodeNow());
          GrowsTrans(d0, n0, d, n, DiskNow(), NodeNow());
        }
      }
      return 0;
    }

    /**
      `minixfs_min_blockcount` for an existing file: it grows, or reports a full disk; either way its bytes stay. From
      11 blocks on it also wants the table of indirect blocks.
     */
    method MinBlockcount(blockCount: nat) returns (r: int)
      requires blockCount <= MAX_BLOCKS && NodeOk(DiskNow(), NodeNow())
      modifies this`indirect, this`nlink, dataMap, dataRoot, direct
      ensures Grows(old(DiskNow()), old(NodeNow()), DiskNow(), NodeNow())
      ensures r == 0 || (r == -1 && Full())
      ensures r == 0 <==> Enough(DiskNow(), NodeNow(), blockCount)
      ensures r == 0 <==> old(MissingBlocks(DiskNow(), NodeNow(), blockCount)) <= old(Unused())
      ensures r == 0 ==> Unused() == old(Unused()) - old(MissingBlocks(DiskNow(), NodeNow(), blockCount))
      ensures nlink == if indirect == old(indirect) then old(nlink) else 1
    {
      hide Grows, NodeOk, No, CountUnused, Missing;
      ghost var d0, n0 := DiskNow(), NodeNow();
      NodeShape(d0, n0);
      if blockCount < NUM_DIRECT {
        r := GrowDirect(blockCount);
        GrowsMeans(d0, n0, DiskNow(), NodeNow());
        NodeShape(DiskNow(), NodeNow());
        return;
      }
      r := GrowDirect(NUM_DIRECT);
      GrowsMeans(d0, n0, DiskNow(), NodeNow());
      NodeShape(DiskNow(), NodeNow());
      assert n0.direct[..NUM_DIRECT] == n0.direct;
      if r == -1 {
        ghost var k :| 0 <= k < NUM_DIRECT && !Assigned(DiskNow(), NodeNow(), k);
        return;
      }
      ghost var d1, n1 := DiskNow(), NodeNow();
      GrowsMeans(d0, n0, d1, n1);
      r := AddSingleIndirectBlock();
      ghost var d2, n2 := DiskNow(), NodeNow();
      GrowsTrans(d0, n0, d1, n1, d2, n2);
      if r == -1 {
        return;
      }
      GrowsMeans(d1, n1, d2, n2);
      NothingAssigned(blockCount - NUM_DIRECT);
      assert d2.blocks[n2.indirect].t == if HasTable(d0, n0) then d0.blocks[n0.indirect].t else NoEntries();
      assert Unused() == CountUnused(d0.used) - Missing(n0.direct) - if HasTable(d0, n0) then 0 else 1;
      r := GrowIndirect(blockCount - NUM_DIRECT);
      GrowsTrans(d0, n0, d2, n2, DiskNow(), NodeNow());
      GrowsMeans(d2, n2, DiskNow(), NodeNow());
    }

    /** `get_block`: the number of block `bIdx` of the file. */
    function GetBlock(bIdx: nat): (b: int)
      requires NodeOk(DiskNow(), NodeNow()) && bIdx < MAX_BLOCKS && Assigned(DiskNow(), NodeNow(), bIdx)
      reads this, direct, dataRoot, dataMap
      ensures b == No(DiskNow(), NodeNow(), bIdx) && IsData(DiskNow(), b)
    {
      AssignedIsData(DiskNow(), NodeNow(), bIdx);
      if bIdx < NUM_DIRECT then direct[bIdx] else dataRoot[indirect].t[bIdx - NUM_DIRECT]
    }

    /** One `memcpy` of a read: `len` bytes of block `bIdx`, behind the bytes read so far. */
    method ReadBlock(bIdx: nat, o: nat, len: nat, ghost buf: seq<Byte>, ghost off: nat) returns (chunk: seq<Byte>)
      requires FileOk(DiskNow(), NodeNow()) && (buf == [] || ReadSoFar(DiskNow(), NodeNow(), buf, off))
      requires bIdx * BLOCK + o == off + |buf| < size && off + |buf| + len <= size && o < BLOCK && o + len <= BLOCK
      ensures |chunk| == len && ReadSoFar(DiskNow(), NodeNow(), buf + chunk, off)
    {
      hide NodeOk, No, At, ByteAt, FileOk, ReadSoFar;
      ReadChunk(DiskNow(), NodeNow(), buf, off, bIdx, o, len);
      chunk := dataRoot[GetBlock(bIdx)].b[o..o + len];
    }

    /** `minixfs_read`, across any number of blocks. */
    method Read(count: nat, off: nat) returns (buf: seq<Byte>, off': nat)
      requires FileOk(DiskNow(), NodeNow())
      ensures var contents := Contents(DiskNow(), NodeNow());
              if off >= size then buf == [] && off' == off
              else var n := if count < size - off then count else size - off;
                   buf == contents[off..off + n] && off' == off + n
    {
      hide NodeOk, No, At, ByteAt, Contents, FileOk, ReadSoFar;
      buf, off' := [], off;
      if off >= size {
        return;
      }
      ghost var d, n := DiskNow(), NodeNow();
      var cnt := if count < size - off then count else size - off;
      var bIdx, bOff := off / BLOCK, off % BLOCK;
      FirstPlace(off);
      var toRead := if BLOCK - bOff < cnt then BLOCK - bOff else cnt;
      buf := ReadBlock(bIdx, bOff, toRead, [], off);
      assert [] + buf == buf;
      off' := off + toRead;
      bIdx := bIdx + 1;
      while |buf| < cnt
        invariant DiskNow() == d && NodeNow() == n && |buf| <= cnt && off' == off + |buf|
        invariant |buf| < cnt ==> off' == bIdx * BLOCK
        invariant ReadSoFar(d, n, buf, off)
      {
        toRead := if BLOCK < cnt - |buf| then BLOCK else cnt - |buf|;
        var chunk := ReadBlock(bIdx, 0, toRead, buf, off);
        buf := buf + chunk;
        off' := off' + toRead;
        NextPlace(bIdx);
        bIdx := bIdx + 1;
      }
      ReadIsSlice(d, n, buf, off);
    }

    /** One `memcpy` of a write: into block `k` at `o`. */
    method CopyInto(k: nat, o: nat, chunk: seq<Byte>)
      requires NodeOk(DiskNow(), NodeNow()) && k < MAX_BLOCKS && Assigned(DiskNow(), NodeNow(), k)
      requires o + |chunk| <= BLOCK
      modifies dataRoot
      ensures IsData(old(DiskNow()), No(old(DiskNow()), NodeNow(), k))
      ensures DiskNow() == Stored(old(DiskNow()), NodeNow(), k, o, chunk)
    {
      AssignedIsData(DiskNow(), NodeNow(), k);
      var blk := GetBlock(k);
      var b := dataRoot[blk].b;
      dataRoot[blk] := Bytes(b[..o] + chunk + b[o + |chunk|..]);
    }

    /** `minixfs_write`: -1 if the file would become too large or the disk is full, and then the contents stay. */
    method Write(buf: seq<Byte>, off: nat) returns (r: int, off': nat)
      requires FileOk(DiskNow(), NodeNow())
      modifies this, dataMap, dataRoot, direct
      ensures FileOk(DiskNow(), NodeNow()) && OthersKept(old(DiskNow()), old(NodeNow()), DiskNow())
      ensures r == |buf| || r == -1
      ensures r == -1 ==> (off + |buf| > MAX_BLOCKS * BLOCK || Full()) && off' == off
      ensures r == -1 <==> off + |buf| > MAX_BLOCKS * BLOCK
                           || old(Wanted(DiskNow(), NodeNow(), off + |buf|)) > old(Unused())
      ensures r != -1 ==> Unused() == old(Unused()) - old(Wanted(DiskNow(), NodeNow(), off + |buf|))
      ensures r == -1 ==> Contents(DiskNow(), NodeNow()) == old(Contents(DiskNow(), NodeNow()))
      ensures r != -1 ==> off' == off + |buf| && size == if old(size) > off' then old(size) else off'
      ensures r != -1 ==>
                (Contents(DiskNow(), NodeNow()) == Overlaid(old(Contents(DiskNow(), NodeNow())), off, buf) <==>
                    Repeats(buf, off))
      ensures r != -1 ==> WrittenAt(old(DiskNow()), old(NodeNow()), DiskNow(), NodeNow(), buf, off)
    {
      hide NodeOk, No, Grows, At, ByteAt, OthersKept, WrittenAt, Copied;
      ghost var d0, n0 := DiskNow(), NodeNow();
      GrowsRefl(d0, n0);
      off' := off;
      if off + |buf| > MAX_BLOCKS * BLOCK {
        GrownFile(d0, n0, d0, n0);
        return -1, off;
      }
      var blocksRequired := BlocksFor(off + |buf|);
      WantedAreMissing(d0, n0, off + |buf|);
      r := MinBlockcount(blocksRequired);
      ghost var d1, n1 := DiskNow(), NodeNow();
      GrownFile(d0, n0, d1, n1);
      if r == -1 {
        return;
      }
      BlocksBelow(d1, n1, blocksRequired, off + |buf|);
      CopyAll(buf, off);
      ghost var d2 := DiskNow();
      WrittenFile(d0, n0, d1, n1, d2, buf, off);
      r := |buf|;
      off' := off + |buf|;
      size := if size > off' then size else off';
      ghost var n2 := n1.(size := size);
      assert DiskNow() == d2 && NodeNow() == n2;
      assert d0 == old(DiskNow()) && n0 == old(NodeNow());
      assert WrittenAt(d0, n0, d2, n2, buf, off);
      WriteIsOverlay(d0, n0, DiskNow(), NodeNow(), buf, off);
    }

    /** The copying of `minixfs_write`; blocks after the first take their bytes from the start of the buffer again. */
    method CopyAll(buf: seq<Byte>, off: nat)
      requires NodeOk(DiskNow(), NodeNow()) && off + |buf| <= MAX_BLOCKS * BLOCK
      requires forall k :: 0 <= k < MAX_BLOCKS && k * BLOCK < off + |buf| ==> Assigned(DiskNow(), NodeNow(), k)
      modifies dataRoot
      ensures Copied(old(DiskNow()), NodeNow(), DiskNow(), buf, off, |buf|)
    {
      hide NodeOk, No, At, ByteAt, OthersKept;
      ghost var d, n := DiskNow(), NodeNow();
      NothingCopied(d, n, buf, off);
      if buf == [] {
        return;
      }
      var bIdx, bOff := off / BLOCK, off % BLOCK;
      BlockOf(off);
      var toWrite := if |buf| < BLOCK - bOff then |buf| else BLOCK - bOff;
      CopyChunk(d, n, d, buf, off, 0, bIdx, bOff, toWrite);
      CopyInto(bIdx, bOff, buf[..toWrite]);
      var bytesWrote := toWrite;
      bIdx := bIdx + 1;
      while bytesWrote < |buf|
        invariant NodeNow() == n && 0 <= bytesWrote <= |buf| && Copied(d, n, DiskNow(), buf, off, bytesWrote)
        invariant bytesWrote < |buf| ==> off + bytesWrote == bIdx * BLOCK && bytesWrote >= BLOCK - off % BLOCK
        decreases |buf| - bytesWrote
      {
        StartOfBlock(bIdx);
        BlockOf(off + bytesWrote);
        toWrite := if BLOCK < |buf| - bytesWrote then BLOCK else |buf| - bytesWrote;
        CopyChunk(d, n, DiskNow(), buf, off, bytesWrote, bIdx, 0, toWrite);
        CopyInto(bIdx, 0, buf[..toWrite]);
        bytesWrote := bytesWrote + toWrite;
        bIdx := bIdx + 1;
      }
    }
  }

  /** The buffer holds the bytes of the file from `off` on. */
  ghost predicate ReadSoFar(d: Disk, n: Inode, buf: seq<Byte>, off: nat) {
    && NodeOk(d, n) && off + |buf| <= MAX_BLOCKS * BLOCK
    && (forall p :: off <= p < off + |buf| ==> buf[p - off] == ByteAt(d, n, p))
  }

  lemma FirstPlace(off: nat)
    ensures off / BLOCK * BLOCK + off % BLOCK == off && off % BLOCK < BLOCK
  {
  }

  lemma NextPlace(k: nat)
    ensures (k + 1) * BLOCK == k * BLOCK + BLOCK
  {
  }

  /** Reading on, inside one block. */
  lemma ReadChunk(d: Disk, n: Inode, buf: seq<Byte>, off: nat, k: nat, o: nat, len: nat)
    requires FileOk(d, n) && (buf == [] || ReadSoFar(d, n, buf, off)) && k * BLOCK + o == off + |buf|
    requires off + |buf| < n.size && off + |buf| + len <= n.size && o < BLOCK && o + len <= BLOCK
    ensures NodeOk(d, n) && k < MAX_BLOCKS && Assigned(d, n, k) && IsData(d, No(d, n, k))
    ensures ReadSoFar(d, n, buf + d.blocks[No(d, n, k)].b[o..o + len], off)
  {
    PlaceOf(k, o);
    FileBlock(d, n, off + |buf|);
    BlockSlice(d, n, k, o, len);
    hide NodeOk, No, ByteAt;
  }

  lemma PlaceOf(k: nat, o: nat)
    requires o < BLOCK
    ensures (k * BLOCK + o) / BLOCK == k && (k * BLOCK + o) % BLOCK == o
  {
  }

  lemma ReadIsSlice(d: Disk, n: Inode, buf: seq<Byte>, off: nat)
    requires FileOk(d, n) && off + |buf| <= n.size && ReadSoFar(d, n, buf, off)
    ensures buf == Contents(d, n)[off..off + |buf|]
  {
    hide ByteAt, NodeOk;
    assert forall i :: 0 <= i < |buf| ==> buf[i] == Contents(d, n)[off + i];
  }

  lemma GrownFile(d: Disk, n: Inode, d': Disk, n': Inode)
    requires FileOk(d, n) && Grows(d, n, d', n')
    ensures FileOk(d', n') && Contents(d', n') == Contents(d, n) && OthersKept(d, n, d')
    ensures forall p :: 0 <= p < MAX_BLOCKS * BLOCK ==> ByteAt(d', n', p) == ByteAt(d, n, p)
  {
    GrowthKeepsContents(d, n, d', n');
    forall p | 0 <= p < MAX_BLOCKS * BLOCK
      ensures ByteAt(d', n', p) == ByteAt(d, n, p)
    {
      BlockOf(p);
    }
  }

  /** `d'` is `d` after the first `w` bytes of a write. */
  ghost predicate Copied(d: Disk, n: Inode, d': Disk, buf: seq<Byte>, off: nat, w: nat) {
    && NodeOk(d, n) && NodeOk(d', n) && OthersKept(d, n, d') && w <= |buf|
    && (forall k :: 0 <= k < MAX_BLOCKS ==> No(d', n, k) == No(d, n, k))
    && (forall p :: 0 <= p < MAX_BLOCKS * BLOCK ==>
          ByteAt(d', n, p) == if off <= p < off + w then buf[SourceIn(buf, off, p - off)] else ByteAt(d, n, p))
  }

  /** Every byte of the file after a write: from the buffer inside the written range, else as before. */
  ghost predicate WrittenAt(d: Disk, n: Inode, d': Disk, n': Inode, buf: seq<Byte>, off: nat) {
    && NodeOk(d, n) && NodeOk(d', n')
    && (forall p :: 0 <= p < MAX_BLOCKS * BLOCK ==>
          ByteAt(d', n', p) == if off <= p < off + |buf| then buf[SourceIn(buf, off, p - off)] else ByteAt(d, n, p))
  }

  /** `buf` laid over the zero-extended contents of a file. */
  function Overlaid(s: seq<Byte>, off: nat, buf: seq<Byte>): (r: seq<Byte>) {
    seq(if |s| > off + |buf| then |s| else off + |buf|,
        p requires p >= 0 => if off <= p < off + |buf| then buf[p - off] else if p < |s| then s[p] else 0)
  }

  /**
    A write lays the buffer over the file exactly if every block gets its bytes from the start of the buffer all the
    same.
   */
  lemma WriteIsOverlay(d: Disk, n: Inode, d': Disk, n': Inode, buf: seq<Byte>, off: nat)
    requires FileOk(d, n) && FileOk(d', n') && off + |buf| <= MAX_BLOCKS * BLOCK
    requires n'.size == if n.size > off + |buf| then n.size else off + |buf|
    requires WrittenAt(d, n, d', n', buf, off)
    ensures Contents(d', n') == Overlaid(Contents(d, n), off, buf) <==> Repeats(buf, off)
  {
    hide ByteAt, NodeOk, Source;
    var c, o := Contents(d', n'), Overlaid(Contents(d, n), off, buf);
    if Repeats(buf, off) {
      forall p | 0 <= p < n'.size
        ensures c[p] == o[p]
      {
      }
    }
    if c == o {
      forall i | 0 <= i < |buf|
        ensures buf[SourceIn(buf, off, i)] == buf[i]
      {
        assert c[off + i] == buf[SourceIn(buf, off, i)] && o[off + i] == buf[i];
      }
    }
  }

  lemma BlocksBelow(d: Disk, n: Inode, count: nat, end: nat)
    requires NodeOk(d, n) && count <= MAX_BLOCKS && (forall k :: 0 <= k < count ==> Assigned(d, n, k))
    requires end <= MAX_BLOCKS * BLOCK && count == BlocksFor(end)
    ensures forall k :: 0 <= k < MAX_BLOCKS && k * BLOCK < end ==> Assigned(d, n, k)
  {
    hide NodeOk, No;
    forall k | 0 <= k < MAX_BLOCKS && k * BLOCK < end
      ensures k < count
    {
    }
  }

  /** A finished write, with the size raised to its end. */
  lemma WrittenFile(d0: Disk, n0: Inode, d1: Disk, n1: Inode, d2: Disk, buf: seq<Byte>, off: nat)
    requires FileOk(d0, n0) && Grows(d0, n0, d1, n1) && FileOk(d1, n1) && Copied(d1, n1, d2, buf, off, |buf|)
    requires off + |buf| <= MAX_BLOCKS * BLOCK
    requires forall k :: 0 <= k < MAX_BLOCKS && k * BLOCK < off + |buf| ==> Assigned(d1, n1, k)
    requires forall p :: 0 <= p < MAX_BLOCKS * BLOCK ==> ByteAt(d1, n1, p) == ByteAt(d0, n0, p)
    ensures var n2 := n1.(size := if n1.size > off + |buf| then n1.size else off + |buf|);
            && FileOk(d2, n2) && OthersKept(d0, n0, d2)
            && WrittenAt(d0, n0, d2, n2, buf, off)
  {
    var n2 := n1.(size := if n1.size > off + |buf| then n1.size else off + |buf|);
    SizeOnly(d2, n1, n2.size);
    OthersAcross(d0, n0, d1, n1, d2);
    hide NodeOk, No, At, ByteAt, OthersKept, Source, Grows;
  }

  /** The size is not part of where the bytes are. */
  lemma SizeOnly(d: Disk, n: Inode, size: nat)
    requires NodeOk(d, n)
    ensures var n' := n.(size := size);
            && NodeOk(d, n') && (forall k :: 0 <= k < MAX_BLOCKS ==> No(d, n', k) == No(d, n, k))
            && (forall p :: 0 <= p < MAX_BLOCKS * BLOCK ==> ByteAt(d, n', p) == ByteAt(d, n, p))
  {
    var n' := n.(size := size);
    assert forall k :: 0 <= k < MAX_BLOCKS ==> No(d, n', k) == No(d, n, k);
    hide No, HasTable;
    assert NodeOk(d, n');
    forall p | 0 <= p < MAX_BLOCKS * BLOCK
      ensures ByteAt(d, n', p) == ByteAt(d, n, p)
    {
      BlockOf(p);
    }
  }

  /** Blocks the file took while growing were not in use by others. */
  lemma OthersAcross(d0: Disk, n0: Inode, d1: Disk, n1: Inode, d2: Disk)
    requires Grows(d0, n0, d1, n1) && OthersKept(d1, n1, d2)
    ensures OthersKept(d0, n0, d2)
  {
    hide No, SameBytes, Grown;
    forall b | 0 <= b < |d0.used| && d0.used[b] && !Owned(d0, n0, b)
      ensures d2.blocks[b] == d0.blocks[b]
    {
      assert b != UNASSIGNED && !Owned(d1, n1, b);
    }
  }

  lemma NothingCopied(d: Disk, n: Inode, buf: seq<Byte>, off: nat)
    requires NodeOk(d, n)
    ensures Copied(d, n, d, buf, off, 0)
  {
  }

  /** Copying the next block's worth from the start of the buffer. */
  lemma CopyChunk(d: Disk, n: Inode, d1: Disk, buf: seq<Byte>, off: nat, w: nat, k: nat, o: nat, len: nat)
    requires Copied(d, n, d1, buf, off, w) && k < MAX_BLOCKS && Assigned(d, n, k) && o + len <= BLOCK
    requires k * BLOCK + o == off + w && w + len <= |buf|
    requires if w == 0 then o == off % BLOCK else o == 0 && w >= BLOCK - off % BLOCK
    ensures Assigned(d1, n, k) && IsData(d1, No(d1, n, k))
    ensures Copied(d, n, Stored(d1, n, k, o, buf[..len]), buf, off, w + len)
  {
    hide At, ByteAt, Stored, Source;
    AssignedIsData(d1, n, k);
    StoredBytes(d1, n, k, o, buf[..len]);
    var d2 := Stored(d1, n, k, o, buf[..len]);
    OthersTrans(d, n, d1, d2);
    forall p | 0 <= p < MAX_BLOCKS * BLOCK
      ensures ByteAt(d2, n, p) == if off <= p < off + w + len then buf[SourceIn(buf, off, p - off)] else ByteAt(d, n, p)
    {
      if off + w <= p < off + w + len {
        NextSource(off, w, p - (off + w), k);
      }
    }
  }

  lemma NextSource(off: nat, w: nat, j: nat, k: nat)
    requires j < BLOCK && (w == 0 ==> j < BLOCK - off % BLOCK)
    requires w > 0 ==> off + w == k * BLOCK && w >= BLOCK - off % BLOCK
    ensures Source(off, w + j) == j
  {
  }

  lemma OthersTrans(d: Disk, n: Inode, d1: Disk, d2: Disk)
    requires NodeOk(d, n) && NodeOk(d1, n) && OthersKept(d, n, d1) && OthersKept(d1, n, d2)
    requires forall k :: 0 <= k < MAX_BLOCKS ==> No(d1, n, k) == No(d, n, k)
    ensures OthersKept(d, n, d2)
  {
    hide No;
    forall b | 0 <= b < |d.used| && d.used[b] && !Owned(d, n, b)
      ensures d2.blocks[b] == d.blocks[b]
    {
      assert !Owned(d1, n, b);
    }
  }

  lemma StartOfBlock(k: nat)
    ensures k * BLOCK / BLOCK == k && k * BLOCK % BLOCK == 0
  {
  }

  /** Every position below the size lies in an assigned block. */
  lemma FileBlock(d: Disk, n: Inode, p: nat)
    requires FileOk(d, n) && p < n.size
    ensures p / BLOCK < MAX_BLOCKS && Assigned(d, n, p / BLOCK) && IsData(d, No(d, n, p / BLOCK))
  {
    BlockOf(p);
  }

  lemma DirectIsWithBlock(d: Disk, n: Inode, k: nat, b: nat, d': Disk, n': Inode)
    requires |n.direct| == NUM_DIRECT && k < NUM_DIRECT && b < |d.blocks| && b < |d.used|
    requires d'.blocks == d.blocks[b := Bytes(Zeros())] && d'.used == d.used[b := true]
    requires n' == n.(direct := n.direct[k := b])
    ensures (d', n') == WithBlock(d, n, k, b)
  {
  }

  lemma IndirectIsWithBlock(d: Disk, n: Inode, i: nat, b: nat, d': Disk)
    requires |n.direct| == NUM_DIRECT && i < NUM_INDIRECT && HasTable(d, n) && b < |d.blocks| && b < |d.used|
    requires b != n.indirect
    requires d'.blocks == d.blocks[n.indirect := Table(d.blocks[n.indirect].t[i := b])][b := Bytes(Zeros())]
    requires d'.used == d.used[b := true]
    ensures (d', n) == WithBlock(d, n, NUM_DIRECT + i, b)
  {
    assert d'.blocks == WithBlock(d, n, NUM_DIRECT + i, b).0.blocks;
  }

  lemma GrowsMeans(d: Disk, n: Inode, d': Disk, n': Inode)
    requires Grows(d, n, d', n')
    ensures NodeOk(d, n) && NodeOk(d', n')
    ensures forall k :: 0 <= k < MAX_BLOCKS && Assigned(d, n, k) ==> Assigned(d', n', k)
  {
  }

  lemma TableNotData(d: Disk, n: Inode, b: nat)
    requires NodeOk(d, n) && HasTable(d, n) && b < |d.used| && !d.used[b]
    ensures b != n.indirect
  {
  }

  lemma MissingNone(entries: seq<int>)
    ensures Missing(entries[..0]) == 0
  {
  }

  /** Of an empty table all entries are missing. */
  lemma NothingAssigned(count: nat)
    requires count <= NUM_INDIRECT
    ensures Missing(NoEntries()[..count]) == count
  {
  }

  lemma NodeShape(d: Disk, n: Inode)
    requires NodeOk(d, n)
    ensures |d.blocks| == |d.used| && |n.direct| == NUM_DIRECT
    ensures n.indirect != UNASSIGNED ==> HasTable(d, n) && d.used[n.indirect]
  {
  }
}
