/** mmu.c: address translation and process creation, step by step, against VirtualMemory. */
module MmuDevice {
  import opened MachineData
  import opened KernelSpec
  import opened MmuSpec
  import VM = VirtualMemory
  import opened KernelMemory
  import opened TlbList
  import opened Wrappers

  class Mmu {
    const kernel: PhysicalKernel
    const tlb: Tlb
    var pageDirectories: map<nat, nat>
    var segmentations: map<nat, seq<Segment>>
    var numPageFaults: nat
    var numSegmentationFaults: nat
    var numTlbMisses: nat
    var currPid: nat

    ghost function SpaceNow(): Space
      reads this, kernel, kernel.physicalMemory, kernel.entryMapping
    {
      Space(kernel.Snapshot(), pageDirectories)
    }

    ghost function Snapshot(): Machine
      requires tlb.Valid()
      reads this, kernel, kernel.physicalMemory, kernel.entryMapping, tlb, tlb.repr
    {
      Machine(SpaceNow(), segmentations, tlb.Items(), currPid, numPageFaults, numSegmentationFaults, numTlbMisses)
    }

    ghost predicate Valid()
      reads this, kernel, kernel.physicalMemory, kernel.entryMapping, tlb, tlb.repr
    {
      kernel.Valid() && tlb.Valid() && MInv(Snapshot())
    }

    /** `mmu_create` over a fresh kernel. */
    constructor ()
      ensures Valid() && Snapshot() == VM.Initial()
      ensures fresh(kernel) && fresh(kernel.physicalMemory) && fresh(kernel.entryMapping) && fresh(tlb.repr)
    {
      hide MInv, KernelSpec.Inv, CountReserved, VM.HasRegions, VM.Agree, ZeroPage, Tlb.Valid, VM.Initial;
      kernel := new PhysicalKernel();
      tlb := new Tlb();
      pageDirectories, segmentations := map[], map[];
      numPageFaults, numSegmentationFaults, numTlbMisses, currPid := 0, 0, 0, 0;
      new;
      VM.InitialOk();
      VM.InitialIs(Snapshot());
    }

    /** Point an entry at its new frame, fill the frame from swap and mark the entry present. */
    method MapFrame(a: EntryAddr, frame: nat, user: bool)
      requires kernel.Valid() && a.frame < FRAMES && kernel.physicalMemory[a.frame].Table? && a.index < ENTRIES
      requires frame < FRAMES && frame != a.frame
      modifies kernel.physicalMemory
      ensures var (g, e) := (old(kernel.Snapshot()), old(kernel.physicalMemory[a.frame].entries[a.index]));
              var loaded := if a in g.swap then Kernel(g.frames[frame := Data(g.swap[a])], g.slots, g.swap) else g;
              var last := e.(base := frame, present := true, readWrite := true, userSupervisor := user);
              kernel.Snapshot() == SetEntry(loaded, a, last)
    {
      ghost var g := kernel.Snapshot();
      var e := kernel.physicalMemory[a.frame].entries[a.index];
      kernel.WriteEntry(a, e.(base := frame));
      kernel.ReadPageFromDisk(a);
      kernel.WriteEntry(a, e.(base := frame, present := true, readWrite := true, userSupervisor := user));
      ghost var loaded := if a in g.swap then Kernel(g.frames[frame := Data(g.swap[a])], g.slots, g.swap) else g;
      ghost var table := g.frames[a.frame].entries;
      ghost var last := e.(base := frame, present := true, readWrite := true, userSupervisor := user);
      assert table[a.index := e.(base := frame)][a.index := last] == table[a.index := last];
      assert kernel.Snapshot().frames ==
             SetEntry(loaded, a, e.(base := frame, present := true, readWrite := true, userSupervisor := user)).frames;
    }

    /**
      The walk of a page of process `pid`, creating the page table if its directory entry is not present; `s` is the
      space before it.
     */
    method WalkTables(pid: nat, page: nat, user: bool, ghost s: Space) returns (pte: Option<EntryAddr>)
      requires kernel.Valid() && SInv(s) && SpaceNow() == s && pid in s.dirs && page < PAGES
      modifies kernel, kernel.physicalMemory, kernel.entryMapping
      ensures match FaultTable(s, pid, page, user)
              case None => pte.None?
              case Some((s', a)) => pte == Some(a) && SpaceNow() == s'
    {
      var dirs := pageDirectories.Values;
      var d := At(pageDirectories[pid], page / ENTRIES);
      var pde := kernel.physicalMemory[d.frame].entries[d.index];
      if !pde.present {
        AskForTable(s.k, dirs);
        var frame := kernel.AskKernelForFrame(None, dirs);
        if frame.None? {
          return None;
        }
        DirectoryAfterAsk(s.k, kernel.Snapshot(), dirs, d, frame.value);
        hide SInv, KernelSpec.Inv, Ask;
        MapFrame(d, frame.value, user);
        pde := kernel.physicalMemory[d.frame].entries[d.index];
      }
      return Some(At(pde.base, page % ENTRIES));
    }

    /** A directory entry is never swapped out, so filling its frame from swap reads nothing. */
    static lemma DirectoryAfterAsk(k: Kernel, k1: Kernel, dirs: set<nat>, d: EntryAddr, i: nat)
      requires KernelSpec.Inv(k, dirs) && AllEvictable(k) && Ask(k, Reserved) == Some((k1, i)) && d.frame in dirs
      ensures k1.frames[d.frame] == k.frames[d.frame] && d !in k1.swap && i != d.frame && i < FRAMES
    {
      AskForTable(k, dirs);
      assert !IsPte(k1, dirs, d);
    }

    /** The page fault on a table entry; `s` is the space before it. */
    method LoadPage(pte: EntryAddr, ghost s: Space) returns (ok: bool)
      requires kernel.Valid() && SInv(s) && SpaceNow() == s && IsPte(s.k, s.dirs.Values, pte)
      requires !EntryAt(s.k, pte).present
      modifies kernel, kernel.physicalMemory, kernel.entryMapping
      ensures match FaultPage(s, pte)
              case None => !ok
              case Some(s') => ok && SpaceNow() == s'
    {
      hide SInv, KernelSpec.Inv, Ask, IsTable;
      LoadParts(s, pte);
      var frame := kernel.AskKernelForFrame(Some(pte), pageDirectories.Values);
      if frame.None? {
        return false;
      }
      MapFrame(pte, frame.value, true);
      return true;
    }

    /** What loading an absent page amounts to, part by part. */
    static lemma LoadParts(s: Space, pte: EntryAddr)
      requires SInv(s) && IsPte(s.k, s.dirs.Values, pte) && !EntryAt(s.k, pte).present
      ensures KernelSpec.Inv(s.k, s.dirs.Values) && AllEvictable(s.k)
      ensures Ask(s.k, Owner(pte)).Some? ==>
                var (g, i) := Ask(s.k, Owner(pte)).value;
                && i < |g.frames| == FRAMES && i != pte.frame < FRAMES && g.frames[pte.frame].Table?
                && pte.index < ENTRIES
                && FaultPage(s, pte) == Some(Space(Fill(g, i, pte), s.dirs))
      ensures Ask(s.k, Owner(pte)).None? ==> FaultPage(s, pte).None?
    {
      LoadKeepsPages(s.k, s.dirs.Values, pte);
    }

    /** The copy of a resident page and the marks of its entry; `s` is the space before it. */
    method CopyBytes(pte: EntryAddr, off: nat, req: Request, ghost s: Space) returns (out: Outcome)
      requires kernel.Valid() && SInv(s) && SpaceNow() == s && IsPte(s.k, s.dirs.Values, pte)
      requires EntryAt(s.k, pte).present && off + req.Size() <= PAGE_SIZE
      modifies kernel.physicalMemory
      ensures (SpaceNow(), out) == Transfer(s, pte, off, req)
    {
      var frame := kernel.physicalMemory[pte.frame].entries[pte.index].base;
      var bytes := kernel.physicalMemory[frame].bytes;
      match req {
        case Write(data) =>
          kernel.physicalMemory[frame] := Data(Overlay(bytes, off, data));
          out := Done;
        case Read(count) =>
          out := Bytes(bytes[off..off + count]);
      }
      var e := kernel.physicalMemory[pte.frame].entries[pte.index];
      kernel.WriteEntry(pte, e.(accessed := true, dirty := e.dirty || req.Write?));
    }

    /** `mmu_rw_from_virtual_address`; None when a needed frame cannot be had. `m` is the machine before it. */
    method ReadWrite(va: Addr32, pid: nat, req: Request, ghost m: Machine) returns (out: Option<Outcome>)
      requires Valid() && Snapshot() == m && pid in m.segs && va % PAGE_SIZE + req.Size() <= PAGE_SIZE
      modifies this, kernel, kernel.physicalMemory, kernel.entryMapping, tlb, tlb.repr
      ensures fresh(tlb.repr - old(tlb.repr))
      ensures match VM.Access(m, va, pid, req)
              case None => out.None?
              case Some((m', o)) => out == Some(o) && Valid() && Snapshot() == m'
    {
      hide MInv, SInv, DirsOk, TablesOk, TlbOk, KernelSpec.Inv, VM.Resident, VM.RunsOut, VM.Faults, FlatEffect;
      hide VM.Translate, Tlb.Valid;
      VM.AccessIsFlat(m, va, pid, req);
      VM.SwitchKeepsInv(m, pid);
      if pid != currPid {
        tlb.Flush();
        currPid := pid;
      }
      var seg := FirstSegment(segmentations[pid], va);
      if seg.None? || !(if req.Write? then seg.value.permissions.write else seg.value.permissions.read) {
        numSegmentationFaults := numSegmentationFaults + 1;
        return Some(SegFault);
      }
      out := TranslateAndCopy(va / PAGE_SIZE, va % PAGE_SIZE, req, VM.Switch(m, pid));
    }

    /** The part after the permission check; `m` is the machine before it. */
    method TranslateAndCopy(page: nat, off: nat, req: Request, ghost m: Machine) returns (out: Option<Outcome>)
      requires kernel.Valid() && tlb.Valid() && MInv(m) && Snapshot() == m
      requires m.pid in m.s.dirs && page < PAGES && off + req.Size() <= PAGE_SIZE
      modifies this`numPageFaults, this`numTlbMisses, kernel, kernel.physicalMemory, kernel.entryMapping, tlb, tlb.repr
      ensures tlb.Valid() && fresh(tlb.repr - old(tlb.repr))
      ensures match VM.Translate(m, page, off, req)
              case None => out.None?
              case Some((m', o)) => out == Some(o) && Snapshot() == m'
    {
      hide MInv, SInv, DirsOk, TablesOk, TlbOk, KernelSpec.Inv, VM.Translate, VM.Resolve, FaultPage, Transfer;
      hide IsPte, Tlb.Valid, MmuSpec.Hit;
      TranslateParts(m, page, off, req);
      var pte := Locate(page, m);
      if pte.None? {
        return None;
      }
      ghost var s := SpaceNow();
      out := Serve(pte.value, off, req, s);
      if out.Some? {
        tlb.AddPte(page, pte.value);
      }
    }

    /** What a translation amounts to, part by part. */
    static lemma TranslateParts(m: Machine, page: nat, off: nat, req: Request)
      requires MInv(m) && m.pid in m.s.dirs && page < PAGES && off + req.Size() <= PAGE_SIZE
      ensures VM.Resolve(m, page).None? ==> VM.Translate(m, page, off, req).None?
      ensures VM.Resolve(m, page).Some? ==>
                var (s, a, faults) := VM.Resolve(m, page).value;
                && SInv(s) && IsPte(s.k, s.dirs.Values, a)
                && (FaultPage(s, a).None? ==> VM.Translate(m, page, off, req).None?)
                && (FaultPage(s, a).Some? ==>
                      var s1 := FaultPage(s, a).value;
                      && SInv(s1) && IsPte(s1.k, s1.dirs.Values, a) && EntryAt(s1.k, a).present
                      && var (s2, out) := Transfer(s1, a, off, req);
                      VM.Translate(m, page, off, req) ==
                        Some((VM.Remember(m, s2, a, page, faults + if EntryAt(s.k, a).present then 0 else 1), out)))
    {
      hide SInv, TlbOk, MmuSpec.Walk, SameMemory, SameWalks, FaultPage, Transfer, VM.Resolve, VM.Remember;
      VM.ResolveIsWalk(m, page);
      if VM.Resolve(m, page).Some? {
        var (s, a, faults) := VM.Resolve(m, page).value;
        FaultPageKeepsMemory(s, a);
      }
    }

    /** Make a page resident and copy; `s` is the space before it. */
    method Serve(pte: EntryAddr, off: nat, req: Request, ghost s: Space) returns (out: Option<Outcome>)
      requires kernel.Valid() && SInv(s) && SpaceNow() == s && IsPte(s.k, s.dirs.Values, pte)
      requires off + req.Size() <= PAGE_SIZE
      modifies this`numPageFaults, kernel, kernel.physicalMemory, kernel.entryMapping
      ensures numPageFaults == old(numPageFaults) + if EntryAt(s.k, pte).present then 0 else 1
      ensures FaultPage(s, pte).Some? ==>
                var s1 := FaultPage(s, pte).value;
                && SInv(s1) && IsPte(s1.k, s1.dirs.Values, pte) && EntryAt(s1.k, pte).present
                && out == Some(Transfer(s1, pte, off, req).1) && SpaceNow() == Transfer(s1, pte, off, req).0
      ensures FaultPage(s, pte).None? ==> out.None?
    {
      FaultPageKeepsMemory(s, pte);
      hide SInv, SameMemory, SameWalks, FaultPage, Transfer;
      if !kernel.physicalMemory[pte.frame].entries[pte.index].present {
        numPageFaults := numPageFaults + 1;
        var ok := LoadPage(pte, s);
        if !ok {
          return None;
        }
      } else {
        PresentNeedsNoFault(s, pte);
      }
      var o := CopyBytes(pte, off, req, SpaceNow());
      return Some(o);
    }

    static lemma PresentNeedsNoFault(s: Space, a: EntryAddr)
      requires SInv(s) && IsPte(s.k, s.dirs.Values, a) && EntryAt(s.k, a).present
      ensures FaultPage(s, a) == Some(s)
    {
    }

    /** The entry of a page, from the TLB or from the walk; `m` is the machine before it. */
    method Locate(page: nat, ghost m: Machine) returns (pte: Option<EntryAddr>)
      requires kernel.Valid() && tlb.Valid() && MInv(m) && Snapshot() == m && m.pid in m.s.dirs && page < PAGES
      modifies this`numPageFaults, this`numTlbMisses, kernel, kernel.physicalMemory, kernel.entryMapping, tlb, tlb.repr
      ensures tlb.Valid() && tlb.repr == old(tlb.repr) && tlb.Items() == Promote(m.tlb, page)
      ensures numTlbMisses == m.tlbMisses + if Hit(m.tlb, page).None? then 1 else 0
      ensures match VM.Resolve(m, page)
              case None => pte.None?
              case Some((s, a, faults)) => pte == Some(a) && SpaceNow() == s && numPageFaults == m.pageFaults + faults
    {
      hide TablesOk, TlbOk, KernelSpec.Inv, Tlb.Valid, FaultTable;
      pte := tlb.GetPte(page);
      if pte.None? {
        numTlbMisses := numTlbMisses + 1;
        if !kernel.physicalMemory[pageDirectories[currPid]].entries[page / ENTRIES].present {
          numPageFaults := numPageFaults + 1;
        }
        pte := WalkTables(currPid, page, false, m.s);
      }
    }

    /** `find_segment`: a scan of the segments in order. */
    static method FirstSegment(segs: seq<Segment>, va: Addr32) returns (r: Option<Segment>)
      ensures r == FindSegment(segs, va)
    {
      for i := 0 to |segs|
        invariant FindSegment(segs, va) == FindSegment(segs[i..], va)
      {
        var s := segs[i];
        assert segs[i..][1..] == segs[i + 1..];
        if s.growsDown {
          if s.end <= va <= s.start {
            return Some(s);
          }
        } else if s.start <= va <= s.end {
          return Some(s);
        }
      }
      return None;
    }

    // ---- mmu_add_process ----

    /** A frame for a directory, entered for the new process. */
    method NewDirectory(pid: nat, ghost s: Space) returns (ok: bool)
      requires kernel.Valid() && SInv(s) && SpaceNow() == s
      modifies this`pageDirectories, kernel, kernel.physicalMemory, kernel.entryMapping
      ensures match VM.AddDirectory(s, pid)
              case None => !ok
              case Some(s') => ok && SpaceNow() == s'
    {
      var frame := kernel.AskKernelForFrame(None, pageDirectories.Values);
      if frame.None? {
        return false;
      }
      pageDirectories := pageDirectories[pid := frame.value];
      return true;
    }

    /** The table of the first 4 MB, entered in the first directory entry. */
    method NewFirstTable(pid: nat, ghost s: Space) returns (table: Option<nat>)
      requires kernel.Valid() && SInv(s) && SpaceNow() == s && pid in s.dirs && Walk(s, pid, 1).None?
      modifies kernel, kernel.physicalMemory, kernel.entryMapping
      ensures match FaultTable(s, pid, 1, true)
              case None => table.None?
              case Some((s', a)) => table == Some(a.frame) && a.index == 1 && SpaceNow() == s'
    {
      var dirs := pageDirectories.Values;
      var d := At(pageDirectories[pid], 0);
      AskForTable(s.k, dirs);
      table := kernel.AskKernelForFrame(None, dirs);
      if table.Some? {
        DirectoryAfterAsk(s.k, kernel.Snapshot(), dirs, d, table.value);
        var pde := kernel.physicalMemory[d.frame].entries[0];
        kernel.WriteEntry(d, pde.(base := table.value, present := true, readWrite := true, userSupervisor := true));
      }
    }

    /** A frame for a page that was never swapped out, mapped without reading the swap directory. */
    method MapNewPage(pte: EntryAddr, ghost s: Space) returns (ok: bool)
      requires kernel.Valid() && SInv(s) && SpaceNow() == s && IsPte(s.k, s.dirs.Values, pte)
      requires !EntryAt(s.k, pte).present && pte !in s.k.swap
      modifies kernel, kernel.physicalMemory, kernel.entryMapping
      ensures match FaultPage(s, pte)
              case None => !ok
              case Some(s') => ok && SpaceNow() == s'
    {
      hide TablesOk, KernelSpec.Inv, SamePages;
      NeverSwapped(s.k, s.dirs.Values, pte);
      var frame := kernel.AskKernelForFrame(Some(pte), pageDirectories.Values);
      if frame.None? {
        return false;
      }
      var e := kernel.physicalMemory[pte.frame].entries[pte.index];
      kernel.WriteEntry(pte, e.(base := frame.value, present := true, readWrite := true, userSupervisor := true));
      return true;
    }

    /** Granting a frame to an absent entry with no swap file evicts some other page, so the entry still has none. */
    static lemma NeverSwapped(k: Kernel, dirs: set<nat>, pte: EntryAddr)
      requires KernelSpec.Inv(k, dirs) && IsPte(k, dirs, pte) && !EntryAt(k, pte).present && pte !in k.swap
      ensures AllEvictable(k)
      ensures Ask(k, Owner(pte)).Some? ==>
                var (g, i) := Ask(k, Owner(pte)).value;
                i < FRAMES && i != pte.frame && g.frames[pte.frame].Table? && pte !in g.swap
    {
      ReclaimFails(k, dirs, Owner(pte));
    }

    /**
      The first table of a new process: its entries 1 and 2 map nothing and were never swapped out, and mapping the
      first keeps that of the second.
     */
    static lemma FirstTableParts(s: Space, pid: nat)
      requires SInv(s) && pid in s.dirs && Walk(s, pid, 1).None?
      ensures HasDir(s, pid)
      ensures FaultTable(s, pid, 1, true).Some? ==>
                var (s2, a) := FaultTable(s, pid, 1, true).value;
                && SInv(s2) && a == At(a.frame, 1) && Unmapped(s2, a) && Unmapped(s2, At(a.frame, 2))
                && (FaultPage(s2, a).Some? ==>
                      SInv(FaultPage(s2, a).value) && Unmapped(FaultPage(s2, a).value, At(a.frame, 2)))
    {
      hide DirsOk, TablesOk, FaultPage, FaultTable, M, SameMemory, SameWalks, KernelSpec.Inv, TableAdded, CountReserved;
      VM.SpaceShape(s, pid);
      FaultTableKeepsMemory(s, pid, 1, true);
      if FaultTable(s, pid, 1, true).Some? {
        var (s2, a) := FaultTable(s, pid, 1, true).value;
        FaultPageKeepsMemory(s2, a);
        PteShape(s2, a);
        assert EntryAt(s2.k, At(a.frame, 1)) == ZERO_ENTRY && EntryAt(s2.k, At(a.frame, 2)) == ZERO_ENTRY;
      }
    }

    static lemma PteShape(s: Space, a: EntryAddr)
      requires SInv(s) && IsPte(s.k, s.dirs.Values, a)
      ensures a.frame < |s.k.frames| && s.k.frames[a.frame].Table? && a.index < ENTRIES
    {
    }

    /** An entry of a page table that maps nothing and has no swap file. */
    static ghost predicate Unmapped(s: Space, a: EntryAddr)
      requires SInv(s)
    {
      IsPte(s.k, s.dirs.Values, a) && !EntryAt(s.k, a).present && a !in s.k.swap
    }

    /** What adding a process amounts to, part by part. */
    static lemma AddParts(s: Space, pid: nat)
      requires SInv(s) && pid !in s.dirs
      ensures VM.AddDirectory(s, pid).None? ==> VM.AddSpace(s, pid).None?
      ensures VM.AddDirectory(s, pid).Some? ==>
                var s1 := VM.AddDirectory(s, pid).value;
                && SInv(s1) && pid in s1.dirs && Walk(s1, pid, 1).None?
                && VM.AddSpace(s, pid) == TablesAndPages(s1, pid)
    {
      VM.AddDirectoryKeepsMemory(s, pid);
      if VM.AddDirectory(s, pid).Some? {
        var s1 := VM.AddDirectory(s, pid).value;
        FirstTableParts(s1, pid);
        hide SInv, FaultPage, FaultTable, M, SameMemory, SameWalks, KernelSpec.Inv, VM.AddDirectory, TablesOk;
        hide MmuSpec.Walk;
        assert VM.AddSpace(s, pid) == TablesAndPages(s1, pid);
      }
    }

    /** The steps of `mmu_add_process` after the directory. */
    static ghost function TablesAndPages(s: Space, pid: nat): Option<Space>
      requires SInv(s) && pid in s.dirs && Walk(s, pid, 1).None?
    {
      FirstTableParts(s, pid);
      match FaultTable(s, pid, 1, true)
      case None => None
      case Some((s2, a)) =>
        match FaultPage(s2, a)
        case None => None
        case Some(s3) => FaultPage(s3, At(a.frame, 2))
    }

    /** `mmu_add_process`, for a process that has no address space yet; `m` is the machine before it. */
    method AddProcess(pid: nat, ghost m: Machine) returns (ok: bool)
      requires Valid() && Snapshot() == m && pid < MAX_PROCESS_ID && pid !in m.segs
      modifies this, kernel, kernel.physicalMemory, kernel.entryMapping
      ensures match VM.AddProcess(m, pid)
              case None => !ok
              case Some(m') => ok && Valid() && Snapshot() == m'
    {
      hide MInv, SInv, TlbOk, DirsOk, TablesOk, KernelSpec.Inv, M, Tlb.Valid, FaultTable, FaultPage;
      hide VM.AddDirectory, VM.AddSpace, TablesAndPages;
      AddStart(m, pid);
      VM.AddProcessKeepsMemory(m, pid);
      ok := NewDirectory(pid, m.s);
      if !ok {
        return;
      }
      segmentations := segmentations[pid := VM.DefaultSegments()];
      ghost var s1 := VM.AddDirectory(m.s, pid).value;
      assert SpaceNow() == s1;
      ok := NewTables(pid, s1);
    }

    static lemma AddStart(m: Machine, pid: nat)
      requires MInv(m) && pid !in m.segs
      ensures SInv(m.s) && pid !in m.s.dirs
      ensures VM.AddDirectory(m.s, pid).None? ==> VM.AddSpace(m.s, pid).None?
      ensures VM.AddDirectory(m.s, pid).Some? ==>
                var s1 := VM.AddDirectory(m.s, pid).value;
                && SInv(s1) && pid in s1.dirs && Walk(s1, pid, 1).None?
                && VM.AddSpace(m.s, pid) == TablesAndPages(s1, pid)
    {
      AddParts(m.s, pid);
    }

    /** The table of the first 4 MB and the two pages of testing memory; `s` is the space before it. */
    method NewTables(pid: nat, ghost s: Space) returns (ok: bool)
      requires kernel.Valid() && SInv(s) && SpaceNow() == s && pid in s.dirs && Walk(s, pid, 1).None?
      modifies kernel, kernel.physicalMemory, kernel.entryMapping
      ensures match TablesAndPages(s, pid)
              case None => !ok
              case Some(s') => ok && SpaceNow() == s'
    {
      hide SInv, TlbOk, DirsOk, TablesOk, KernelSpec.Inv, FaultTable, FaultPage, MmuSpec.Walk;
      FirstTableParts(s, pid);
      var table := NewFirstTable(pid, s);
      if table.None? {
        return false;
      }
      ghost var s2, a := FaultTable(s, pid, 1, true).value.0, FaultTable(s, pid, 1, true).value.1;
      for i := 1 to 3
        invariant kernel.Valid() && SInv(s2) && Unmapped(s2, a)
        invariant SInv(SpaceNow())
        invariant i < 3 ==> Unmapped(SpaceNow(), At(table.value, i))
        invariant i == 1 ==> SpaceNow() == s2
        invariant i == 2 ==> FaultPage(s2, a) == Some(SpaceNow())
        invariant i == 3 ==> TablesAndPages(s, pid) == Some(SpaceNow())
      {
        FaultPageKeepsMemory(SpaceNow(), At(table.value, i));
        ok := MapNewPage(At(table.value, i), SpaceNow());
        if !ok {
          return;
        }
      }
      return true;
    }
  }
}
