/** Whole operations of mmu.c on the machine, and runs of them against a flat memory. */
module VirtualMemory {
  import opened MachineData
  import opened KernelSpec
  import opened MmuSpec
  import opened Wrappers

  /** A context switch flushes the TLB to its single initial node. */
  function Switch(m: Machine, pid: nat): Machine {
    if pid != m.pid then m.(tlb := [TlbItem(0, None)], pid := pid) else m
  }

  ghost predicate CanAccess(m: Machine, va: Addr32, pid: nat, req: Request) {
    MInv(m) && pid in m.segs && va % PAGE_SIZE + req.Size() <= PAGE_SIZE
  }

  /**
    The space and entry to use for a page of the current process, from the TLB or the walk, and the faults of the
    walk.
   */
  function Resolve(m: Machine, page: nat): Option<(Space, EntryAddr, nat)>
    requires MInv(m) && m.pid in m.s.dirs && page < PAGES
  {
    if Hit(m.tlb, page).Some? then Some((m.s, Hit(m.tlb, page).value, 0)) else
    match FaultTable(m.s, m.pid, page, false)
    case None => None
    case Some((s, a)) => Some((s, a, if Walk(m.s, m.pid, page).None? then 1 else 0))
  }

  lemma ResolveIsWalk(m: Machine, page: nat)
    requires MInv(m) && m.pid in m.s.dirs && page < PAGES
    ensures CountReserved(m.s.k.slots) <= FRAMES
    ensures Resolve(m, page).None? <==> Walk(m.s, m.pid, page).None? && CountReserved(m.s.k.slots) == FRAMES
    ensures Resolve(m, page).Some? ==>
              var (s', a, faults) := Resolve(m, page).value;
              && SInv(s') && SameMemory(m.s, s') && Walk(s', m.pid, page) == Some(a) && IsPte(s'.k, m.s.dirs.Values, a)
              && TlbOk(s', m.pid, m.tlb) && TableAdded(m.s, s', m.pid, page)
              && faults == (if Walk(m.s, m.pid, page).None? then 1 else 0)
              && CountReserved(s'.k.slots) == CountReserved(m.s.k.slots) + faults <= FRAMES
              && (if Walk(m.s, m.pid, page).Some? then s' == m.s else EntryAt(s'.k, a) == ZERO_ENTRY)
  {
    WalkIsPte(m.s, m.pid, page);
    if Hit(m.tlb, page).Some? {
      HitMeansWalk(m, page);
      NoTableAdded(m.s, m.pid, page);
    } else {
      FaultTableKeepsMemory(m.s, m.pid, page, false);
      if Resolve(m, page).Some? {
        TlbStaysOk(m.s, Resolve(m, page).value.0, m.pid, m.tlb);
      }
    }
  }

  /**
    The machine after a translation: the space left by it, the translation at the head of the TLB, and the counters.
   */
  function Remember(m: Machine, s: Space, a: EntryAddr, page: nat, faults: nat): Machine {
    Machine(s, m.segs, Insert(Promote(m.tlb, page), TlbItem(page, Some(a))), m.pid, m.pageFaults + faults, m.segFaults,
            m.tlbMisses + if Hit(m.tlb, page).None? then 1 else 0)
  }

  /** Bring the page in, transfer the bytes and remember the translation. */
  function Touch(m: Machine, s: Space, a: EntryAddr, page: nat, off: nat, req: Request,
                 faults: nat): Option<(Machine, Outcome)>
    requires SInv(s) && IsPte(s.k, s.dirs.Values, a) && off + req.Size() <= PAGE_SIZE
  {
    FaultPageKeepsMemory(s, a);
    match FaultPage(s, a)
    case None => None
    case Some(s1) =>
      Some((Remember(m, Transfer(s1, a, off, req).0, a, page, faults + if EntryAt(s.k, a).present then 0 else 1),
            Transfer(s1, a, off, req).1))
  }

  /** The part after the permission check, for the current process. */
  function Translate(m: Machine, page: nat, off: nat, req: Request): Option<(Machine, Outcome)>
    requires MInv(m) && m.pid in m.s.dirs && page < PAGES && off + req.Size() <= PAGE_SIZE
  {
    ResolveIsWalk(m, page);
    match Resolve(m, page)
    case None => None
    case Some((s, a, faults)) => Touch(m, s, a, page, off, req, faults)
  }

  /** `mmu_rw_from_virtual_address`; None when a needed frame cannot be had. */
  function Access(m: Machine, va: Addr32, pid: nat, req: Request): Option<(Machine, Outcome)>
    requires CanAccess(m, va, pid, req)
  {
    var m0 := Switch(m, pid);
    if Permits(m.segs[pid], va, req.Write?) then Translate(m0, va / PAGE_SIZE, va % PAGE_SIZE, req)
    else Some((m0.(segFaults := m0.segFaults + 1), SegFault))
  }

  ghost predicate Resident(s: Space, p: nat, page: nat)
    requires SInv(s) && p in s.dirs && page < PAGES
  {
    Walk(s, p, page).Some? && (WalkIsPte(s, p, page); EntryAt(s.k, Walk(s, p, page).value).present)
  }

  /** Not even eviction can provide the frames a translation needs. */
  ghost predicate RunsOut(s: Space, p: nat, page: nat)
    requires SInv(s) && p in s.dirs && page < PAGES
  {
    !Resident(s, p, page) && CountReserved(s.k.slots) + (if Walk(s, p, page).None? then 1 else 0) >= FRAMES
  }

  /** The page faults of a translation: one for a missing table, one for a missing page. */
  ghost function Faults(s: Space, p: nat, page: nat): nat
    requires SInv(s) && p in s.dirs && page < PAGES
  {
    (if Walk(s, p, page).None? then 1 else 0) + (if Resident(s, p, page) then 0 else 1)
  }

  lemma TouchIsFlat(m: Machine, s: Space, a: EntryAddr, page: nat, off: nat, req: Request, faults: nat)
    requires MInv(m) && SInv(s) && SameMemory(m.s, s) && TlbOk(s, m.pid, m.tlb)
    requires m.pid in s.dirs && page < PAGES && Walk(s, m.pid, page) == Some(a) && IsPte(s.k, s.dirs.Values, a)
    requires off + req.Size() <= PAGE_SIZE
    ensures Touch(m, s, a, page, off, req, faults).None? <==>
            !EntryAt(s.k, a).present && CountReserved(s.k.slots) == FRAMES
    ensures Touch(m, s, a, page, off, req, faults).Some? ==>
              var (m', out) := Touch(m, s, a, page, off, req, faults).value;
              && MInv(m') && FlatEffect(m.s, m'.s, out, m.pid, page, off, req)
              && Resident(m'.s, m.pid, page) && Hit(m'.tlb, page).Some?
              && CountReserved(m'.s.k.slots) == CountReserved(s.k.slots)
              && SameWalks(s, m'.s)
  {
    hide DirsOk, TablesOk, HasDir, KernelSpec.Inv, FlatEffect, SameMemory, TlbOk, Promote, CountReserved;
    hide MmuSpec.Walk, Transfer;
    FaultPageKeepsMemory(s, a);
    SameDirs(m.s, s);
    SpaceShape(s, m.pid);
    if FaultPage(s, a).Some? {
      var s1 := FaultPage(s, a).value;
      SpaceShape(s1, m.pid);
      SameMemoryTrans(m.s, s, s1);
      TransferIsFlat(s1, a, m.pid, page, off, req);
      var (s2, out) := Transfer(s1, a, off, req);
      FlatAfterSame(m.s, s1, s2, out, m.pid, page, off, req);
      SameWalksTrans(s, s1, s2);
      RememberedTlb(s, s1, s2, m.pid, m.tlb, page, a);
    }
  }

  lemma SpaceShape(s: Space, p: nat)
    requires SInv(s) && p in s.dirs
    ensures HasDir(s, p)
  {
  }

  lemma ReservedBound(s: Space)
    requires SInv(s)
    ensures CountReserved(s.k.slots) <= FRAMES
  {
  }

  lemma SameDirs(s0: Space, s1: Space)
    requires SInv(s0) && SInv(s1) && SameMemory(s0, s1)
    ensures s1.dirs == s0.dirs
  {
  }

  lemma SameWalksTrans(s0: Space, s1: Space, s2: Space)
    requires SInv(s0) && SInv(s1) && SInv(s2) && SameWalks(s0, s1) && SameWalks(s1, s2)
    ensures SameWalks(s0, s2)
  {
  }

  /** Two steps that keep the walks, a promotion and an insertion of the walked entry leave a coherent TLB. */
  lemma RememberedTlb(s: Space, s1: Space, s2: Space, pid: nat, tlb: seq<TlbItem>, page: nat, a: EntryAddr)
    requires SInv(s) && SInv(s1) && SInv(s2) && SameWalks(s, s1) && SameWalks(s1, s2) && TlbOk(s, pid, tlb)
    requires pid in s.dirs && page < PAGES && Walk(s, pid, page) == Some(a)
    ensures TlbOk(s2, pid, Insert(Promote(tlb, page), TlbItem(page, Some(a))))
  {
    TlbStaysOk(s, s1, pid, tlb);
    TlbStaysOk(s1, s2, pid, tlb);
    PromoteMovesOne(tlb, page);
    var item := TlbItem(page, Some(a));
    assert forall t :: t in Insert(Promote(tlb, page), item) ==> t == item || t in tlb;
  }

  lemma TranslateIsFlat(m: Machine, page: nat, off: nat, req: Request)
    requires MInv(m) && m.pid in m.s.dirs && page < PAGES && off + req.Size() <= PAGE_SIZE
    ensures Translate(m, page, off, req).None? <==> RunsOut(m.s, m.pid, page)
    ensures Translate(m, page, off, req).Some? ==>
              var (m', out) := Translate(m, page, off, req).value;
              && MInv(m') && FlatEffect(m.s, m'.s, out, m.pid, page, off, req) && Resident(m'.s, m.pid, page)
              && m'.pid == m.pid && m'.segs == m.segs && m'.segFaults == m.segFaults && Hit(m'.tlb, page).Some?
              && m'.tlbMisses == m.tlbMisses + (if Hit(m.tlb, page).Some? then 0 else 1)
              && m'.pageFaults == m.pageFaults + Faults(m.s, m.pid, page)
              && CountReserved(m'.s.k.slots) == CountReserved(m.s.k.slots) +
                  (if Walk(m.s, m.pid, page).None? then 1 else 0)
              && TableAdded(m.s, m'.s, m.pid, page)
  {
    hide FlatEffect, SameMemory, TlbOk, TablesOk, DirsOk, SInv, HasDir, Pde, Promote, Insert, IndexOfPage;
    hide MmuSpec.Hit, FaultTable, FaultPage, Transfer, CountReserved;
    ResolveIsWalk(m, page);
    if Resolve(m, page).Some? {
      var (s, a, faults) := Resolve(m, page).value;
      TouchIsFlat(m, s, a, page, off, req, faults);
      if Touch(m, s, a, page, off, req, faults).Some? {
        TableAddedOnce(m.s, s, Touch(m, s, a, page, off, req, faults).value.0.s, m.pid, page);
      }
    }
  }

  /** A hit of the TLB is the entry of the two-level walk. */
  lemma HitMeansWalk(m: Machine, page: nat)
    requires MInv(m) && page < PAGES && Hit(m.tlb, page).Some?
    ensures m.pid in m.s.dirs && Walk(m.s, m.pid, page) == Hit(m.tlb, page)
  {
    assert m.tlb[IndexOfPage(m.tlb, page)] in m.tlb;
  }

  lemma SwitchKeepsInv(m: Machine, pid: nat)
    requires MInv(m)
    ensures MInv(Switch(m, pid))
  {
  }

  /**
    One read or write: a segmentation fault exactly when the segments forbid it, and then nothing of the memory changes;
    otherwise the flat effect. Frames run out exactly when every frame that could help is reserved.
   */
  lemma AccessIsFlat(m: Machine, va: Addr32, pid: nat, req: Request)
    requires CanAccess(m, va, pid, req)
    ensures Access(m, va, pid, req).None? <==> Permits(m.segs[pid], va, req.Write?) && RunsOut(m.s, pid, va / PAGE_SIZE)
    ensures Access(m, va, pid, req).Some? ==>
              var (m', out) := Access(m, va, pid, req).value;
              && MInv(m') && m'.pid == pid && m'.segs == m.segs
              && (out == SegFault <==> !Permits(m.segs[pid], va, req.Write?))
              && (out == SegFault ==> m'.s == m.s && m'.segFaults == m.segFaults + 1 && m'.pageFaults == m.pageFaults)
              && (out != SegFault ==>
                    && FlatEffect(m.s, m'.s, out, pid, va / PAGE_SIZE, va % PAGE_SIZE, req)
                    && m'.segFaults == m.segFaults && m'.pageFaults == m.pageFaults + Faults(m.s, pid, va / PAGE_SIZE)
                    && m'.tlbMisses == m.tlbMisses + (if Hit(Switch(m, pid).tlb, va / PAGE_SIZE).Some? then 0 else 1)
                    && Hit(m'.tlb, va / PAGE_SIZE).Some? && Resident(m'.s, pid, va / PAGE_SIZE)
                    && TableAdded(m.s, m'.s, pid, va / PAGE_SIZE)
                    && CountReserved(m'.s.k.slots) ==
                       CountReserved(m.s.k.slots) + if Walk(m.s, pid, va / PAGE_SIZE).None? then 1 else 0)
  {
    SwitchKeepsInv(m, pid);
    if Permits(m.segs[pid], va, req.Write?) {
      TranslateIsFlat(Switch(m, pid), va / PAGE_SIZE, va % PAGE_SIZE, req);
    }
  }

  /** A further access by the same process to the page just accessed misses no TLB entry and faults no page. */
  lemma SecondAccessHits(m: Machine, va: Addr32, pid: nat, req: Request, vb: Addr32, again: Request)
    requires CanAccess(m, va, pid, req) && Access(m, va, pid, req).Some? && Access(m, va, pid, req).value.1 != SegFault
    requires vb / PAGE_SIZE == va / PAGE_SIZE && CanAccess(Access(m, va, pid, req).value.0, vb, pid, again)
    ensures var m1 := Access(m, va, pid, req).value.0;
            && Access(m1, vb, pid, again).Some?
            && (var (m2, out) := Access(m1, vb, pid, again).value;
                out != SegFault ==> m2.tlbMisses == m1.tlbMisses && m2.pageFaults == m1.pageFaults)
  {
    hide Access, FlatEffect, TlbOk, TablesOk, DirsOk, IndexOfPage, MmuSpec.Hit, FindSegment;
    AccessIsFlat(m, va, pid, req);
    AccessIsFlat(Access(m, va, pid, req).value.0, vb, pid, again);
  }

  // ---- mmu_add_process ----

  function DefaultSegments(): seq<Segment> {
    var rw := Permissions(true, true, false);
    [Segment(0xBFFFE000, 0xC07FE000, rw, true),
     Segment(0xC07FE000, 0xC07FE000, Permissions(true, true, true), true),
     Segment(0x08072000, 0x08072000, rw, false),
     Segment(0x0805A000, 0x08072000, rw, false),
     Segment(0x08052000, 0x0805A000, rw, false),
     Segment(0x08048000, 0x08052000, Permissions(true, false, true), false),
     Segment(PAGE_SIZE, 3 * PAGE_SIZE, rw, false)]
  }

  function AddDirectory(s: Space, p: nat): Option<Space>
    requires SInv(s)
  {
    AskForDirectory(s.k, s.dirs.Values);
    match Ask(s.k, Reserved)
    case None => None
    case Some((k1, d)) => Some(Space(k1, s.dirs[p := d]))
  }

  lemma AddDirectoryKeepsMemory(s: Space, p: nat)
    requires SInv(s) && p !in s.dirs
    ensures AddDirectory(s, p).None? <==> CountReserved(s.k.slots) == FRAMES
    ensures AddDirectory(s, p).Some? ==>
              var s' := AddDirectory(s, p).value;
              && SInv(s') && s'.dirs.Keys == s.dirs.Keys + {p}
              && (forall x :: 0 <= x < PAGES ==> Walk(s', p, x).None?)
              && (forall q, x :: q in s.dirs && 0 <= x < PAGES ==>
                    Walk(s', q, x) == Walk(s, q, x) && M(s', q, x) == M(s, q, x))
              && CountReserved(s'.k.slots) == CountReserved(s.k.slots) + 1
  {
    AskForDirectory(s.k, s.dirs.Values);
    if Ask(s.k, Reserved).Some? {
      var (k1, d) := Ask(s.k, Reserved).value;
      DirectoryAdded(s, p, k1, d);
    }
  }

  lemma DirectoryAdded(s: Space, p: nat, k1: Kernel, d: nat)
    requires SInv(s) && p !in s.dirs && d < FRAMES && d !in s.dirs.Values
    requires Inv(k1, s.dirs.Values + {d}) && k1.frames[d] == Table(ZeroTable())
    requires forall f :: f in s.dirs.Values ==> k1.frames[f] == s.k.frames[f]
    requires forall a :: IsPte(s.k, s.dirs.Values, a) ==>
               IsPte(k1, s.dirs.Values + {d}, a) && PageOf(k1, s.dirs.Values + {d}, a) == PageOf(s.k, s.dirs.Values, a)
    ensures var s' := Space(k1, s.dirs[p := d]);
            && SInv(s') && s'.dirs.Keys == s.dirs.Keys + {p}
            && (forall x :: 0 <= x < PAGES ==> Walk(s', p, x).None?)
            && (forall q, x :: q in s.dirs && 0 <= x < PAGES ==>
                  Walk(s', q, x) == Walk(s, q, x) && M(s', q, x) == M(s, q, x))
  {
    var s' := Space(k1, s.dirs[p := d]);
    NewDirectoryWalks(s, p, k1, d);
    forall q, i | q in s'.dirs && 0 <= i < ENTRIES && Pde(s', q, i).present
      ensures IsTable(k1, s'.dirs.Values, Pde(s', q, i).base)
    {
      assert IsPte(s.k, s.dirs.Values, At(Pde(s, q, i).base, 0));
      assert IsPte(k1, s'.dirs.Values, At(Pde(s, q, i).base, 0));
    }
    forall q, x | q in s.dirs && 0 <= x < PAGES
      ensures M(s', q, x) == M(s, q, x)
    {
      WalkIsPte(s, q, x);
    }
  }

  lemma NewDirectoryWalks(s: Space, p: nat, k1: Kernel, d: nat)
    requires SInv(s) && p !in s.dirs && d < FRAMES && d !in s.dirs.Values
    requires Inv(k1, s.dirs.Values + {d}) && k1.frames[d] == Table(ZeroTable())
    requires forall f :: f in s.dirs.Values ==> k1.frames[f] == s.k.frames[f]
    ensures var s' := Space(k1, s.dirs[p := d]);
            && s'.dirs.Values == s.dirs.Values + {d} && DirsOk(s')
            && (forall q, i :: q in s'.dirs && 0 <= i < ENTRIES ==>
                  Pde(s', q, i) == if q == p then ZERO_ENTRY else Pde(s, q, i))
            && (forall q, x :: q in s'.dirs && 0 <= x < PAGES ==>
                  Walk(s', q, x) == if q == p then None else Walk(s, q, x))
  {
    var s' := Space(k1, s.dirs[p := d]);
    assert s'.dirs.Values == s.dirs.Values + {d} by {
      assert forall q :: q in s.dirs ==> s'.dirs[q] == s.dirs[q];
      assert s'.dirs[p] == d;
    }
    assert forall q :: q in s'.dirs ==> s'.dirs[q] in s'.dirs.Values && HasDir(s', q);
    assert forall q, i :: q in s'.dirs && 0 <= i < ENTRIES ==>
           Pde(s', q, i) == if q == p then ZERO_ENTRY else Pde(s, q, i);
    forall q, x | q in s'.dirs && 0 <= x < PAGES
      ensures Walk(s', q, x) == if q == p then None else Walk(s, q, x)
    {
      assert Pde(s', q, x / ENTRIES) == if q == p then ZERO_ENTRY else Pde(s, q, x / ENTRIES);
    }
  }

  /** The space of a new process: its directory, the table of its first 4 MB and the two pages of testing memory. */
  function AddSpace(s: Space, p: nat): Option<Space>
    requires SInv(s) && p !in s.dirs
  {
    AddDirectoryKeepsMemory(s, p);
    match AddDirectory(s, p)
    case None => None
    case Some(s1) =>
      FaultTableKeepsMemory(s1, p, 1, true);
      match FaultTable(s1, p, 1, true)
      case None => None
      case Some((s2, a)) =>
        FaultPageKeepsMemory(s2, a);
        match FaultPage(s2, a)
        case None => None
        case Some(s3) =>
          NextPte(s2, s3, p, 1, a);
          FaultPage(s3, At(a.frame, 2))
  }

  lemma NextPte(s: Space, s': Space, p: nat, page: nat, a: EntryAddr)
    requires SInv(s) && SInv(s') && SameWalks(s, s') && p in s.dirs && page < ENTRIES && Walk(s, p, page) == Some(a)
    ensures IsTable(s'.k, s'.dirs.Values, a.frame)
  {
    assert Walk(s', p, page) == Some(a);
    WalkIsPte(s', p, page);
  }

  /** The page tables of `s'` are those of `s` and the one for the first 4 MB of the new process. */
  ghost predicate SpaceAdded(s: Space, s': Space, p: nat)
    requires SInv(s) && SInv(s') && s'.dirs.Keys == s.dirs.Keys + {p}
  {
    && (forall x :: 0 <= x < PAGES ==> (Walk(s', p, x).Some? <==> x / ENTRIES == 0))
    && (forall q, x :: q in s.dirs && q != p && 0 <= x < PAGES ==> (Walk(s', q, x).Some? <==> Walk(s, q, x).Some?))
  }

  lemma FirstTableAdded(s: Space, s1: Space, s2: Space, s3: Space, p: nat)
    requires SInv(s) && SInv(s1) && SInv(s2) && SInv(s3) && s1.dirs.Keys == s.dirs.Keys + {p} && p !in s.dirs
    requires s2.dirs == s1.dirs && s3.dirs == s1.dirs && TableAdded(s1, s2, p, 1) && SameWalks(s2, s3)
    requires forall x :: 0 <= x < PAGES ==> Walk(s1, p, x).None?
    requires forall q, x :: q in s.dirs && 0 <= x < PAGES ==> Walk(s1, q, x) == Walk(s, q, x)
    ensures SpaceAdded(s, s3, p)
  {
    hide TablesOk, KernelSpec.Inv, MmuSpec.Walk, Pde;
    forall q, x | q in s1.dirs && 0 <= x < PAGES
      ensures Walk(s3, q, x).Some? <==> Walk(s1, q, x).Some? || (q == p && x / ENTRIES == 0)
    {
      assert Walk(s3, q, x) == Walk(s2, q, x);
    }
  }

  lemma AddSpaceKeepsMemory(s: Space, p: nat)
    requires SInv(s) && p !in s.dirs
    ensures AddSpace(s, p).None? <==> CountReserved(s.k.slots) + 2 >= FRAMES
    ensures AddSpace(s, p).Some? ==>
              var s' := AddSpace(s, p).value;
              && SInv(s') && s'.dirs.Keys == s.dirs.Keys + {p}
              && (forall x :: 0 <= x < PAGES ==> M(s', p, x) == ZeroPage())
              && (forall q, x :: q in s.dirs && 0 <= x < PAGES ==> M(s', q, x) == M(s, q, x))
              && (forall q, x :: q in s.dirs && 0 <= x < PAGES && Walk(s, q, x).Some? ==>
                    Walk(s', q, x) == Walk(s, q, x))
              && SpaceAdded(s, s', p)
              && CountReserved(s'.k.slots) == CountReserved(s.k.slots) + 2
  {
    hide DirsOk, TablesOk, KernelSpec.Inv, Maps, Pde, FaultTable, FaultPage, AddDirectory, SpaceAdded;
    hide CountReserved, MmuSpec.Walk;
    AddDirectoryKeepsMemory(s, p);
    ReservedBound(s);
    if AddDirectory(s, p).Some? {
      var s1 := AddDirectory(s, p).value;
      SpaceShape(s1, p);
      ReservedBound(s1);
      FaultTableKeepsMemory(s1, p, 1, true);
      assert Walk(s1, p, 1).None?;
      if FaultTable(s1, p, 1, true).Some? {
        var (s2, a) := FaultTable(s1, p, 1, true).value;
        ReservedBound(s2);
        FaultPageKeepsMemory(s2, a);
        if FaultPage(s2, a).Some? {
          var s3 := FaultPage(s2, a).value;
          NextPte(s2, s3, p, 1, a);
          FaultPageKeepsMemory(s3, At(a.frame, 2));
          if FaultPage(s3, At(a.frame, 2)).Some? {
            FirstTableAdded(s, s1, s2, FaultPage(s3, At(a.frame, 2)).value, p);
            SameMemoryTrans(s1, s2, s3);
            SameMemoryTrans(s1, s3, FaultPage(s3, At(a.frame, 2)).value);
          }
        }
      }
    }
  }

  function AddProcess(m: Machine, pid: nat): Option<Machine>
    requires MInv(m) && pid !in m.s.dirs
  {
    match AddSpace(m.s, pid)
    case None => None
    case Some(s) => Some(m.(s := s, segs := m.segs[pid := DefaultSegments()]))
  }

  lemma AddProcessKeepsMemory(m: Machine, pid: nat)
    requires MInv(m) && pid !in m.s.dirs
    ensures AddProcess(m, pid).None? <==> CountReserved(m.s.k.slots) + 2 >= FRAMES
    ensures AddProcess(m, pid).Some? ==>
              var m' := AddProcess(m, pid).value;
              && MInv(m') && m'.segs == m.segs[pid := DefaultSegments()]
              && (forall x :: 0 <= x < PAGES ==> M(m'.s, pid, x) == ZeroPage())
              && (forall q, x :: q in m.s.dirs && 0 <= x < PAGES ==> M(m'.s, q, x) == M(m.s, q, x))
              && SpaceAdded(m.s, m'.s, pid)
              && CountReserved(m'.s.k.slots) == CountReserved(m.s.k.slots) + 2
  {
    hide SInv, TlbOk, M, MmuSpec.Walk, AddSpace, CountReserved, ZeroPage;
    AddSpaceKeepsMemory(m.s, pid);
    if AddSpace(m.s, pid).Some? {
      TlbStaysOk(m.s, AddSpace(m.s, pid).value, m.pid, m.tlb);
    }
  }

  // ---- runs against a flat memory ----

  datatype Op =
    | Add(pid: nat)
    | Rw(pid: nat, va: Addr32, req: Request)
    | Resize(pid: nat, which: nat, pages: nat, shrink: bool)

  predicate LegalOp(pids: set<nat>, op: Op) {
    match op
    case Add(p) => p < MAX_PROCESS_ID && p !in pids
    case Rw(p, va, req) => p in pids && va % PAGE_SIZE + req.Size() <= PAGE_SIZE
    case Resize(p, _, _, _) => p in pids
  }

  /** The operations of a run only name processes added before, and never add one twice. */
  predicate Legal(pids: set<nat>, ops: seq<Op>)
    decreases |ops|
  {
    ops == [] || (LegalOp(pids, ops[0]) && Legal(if ops[0].Add? then pids + {ops[0].pid} else pids, ops[1..]))
  }

  /** `grow_segment` and `shrink_segment`, with the wrap-around of 32-bit addresses. */
  function ResizeSegment(segs: seq<Segment>, which: nat, pages: nat, shrink: bool): seq<Segment> {
    if which >= |segs| then segs else
    var g := segs[which];
    var delta: int := pages * PAGE_SIZE;
    segs[which := g.(end := (if g.growsDown != shrink then g.end - delta else g.end + delta) % ADDR_SPACE)]
  }

  /**
    Growing moves the end of one segment away from its start, by whole pages, and shrinking moves it back; each undoes
    the other, also where addresses wrap.
   */
  lemma GrowAndShrink(segs: seq<Segment>, which: nat, pages: nat)
    ensures ResizeSegment(ResizeSegment(segs, which, pages, false), which, pages, true) == segs
    ensures ResizeSegment(ResizeSegment(segs, which, pages, true), which, pages, false) == segs
    ensures var grown := ResizeSegment(segs, which, pages, false);
            && |grown| == |segs|
            && (forall i :: 0 <= i < |segs| && i != which ==> grown[i] == segs[i])
            && (which < |segs| ==>
                  var g, g' := segs[which], grown[which];
                  && g'.start == g.start && g'.permissions == g.permissions && g'.growsDown == g.growsDown
                  && (g.growsDown && Low(g) >= pages * PAGE_SIZE ==> Low(g') == Low(g) - pages * PAGE_SIZE)
                  && (!g.growsDown && High(g) + pages * PAGE_SIZE < ADDR_SPACE ==>
                        High(g') == High(g) + pages * PAGE_SIZE))
  {
    if which < |segs| {
      var g := segs[which];
      var delta: int := pages * PAGE_SIZE;
      WrapAndBack(g.end, delta);
      WrapAndBack(g.end, -delta);
      assert ResizeSegment(ResizeSegment(segs, which, pages, false), which, pages, true)[which] == g;
      assert ResizeSegment(ResizeSegment(segs, which, pages, true), which, pages, false)[which] == g;
    }
  }

  lemma WrapAndBack(a: Addr32, delta: int)
    ensures ((a + delta) % ADDR_SPACE - delta) % ADDR_SPACE == a
    ensures 0 <= a + delta < ADDR_SPACE ==> (a + delta) % ADDR_SPACE == a + delta
  {
  }

  function Step(m: Machine, op: Op): Option<(Machine, Outcome)>
    requires MInv(m) && LegalOp(m.segs.Keys, op)
  {
    match op
    case Add(p) => (match AddProcess(m, p) case None => None case Some(m') => Some((m', Done)))
    case Rw(p, va, req) => Access(m, va, p, req)
    case Resize(p, which, pages, shrink) =>
      Some((m.(segs := m.segs[p := ResizeSegment(m.segs[p], which, pages, shrink)]), Done))
  }

  /** A plain memory: the segments of each process, and the pages that are not all zero. */
  datatype Flat = Flat(segs: map<nat, seq<Segment>>, pages: map<(nat, nat), Page>)

  function FlatPage(f: Flat, p: nat, x: nat): Page {
    if (p, x) in f.pages then f.pages[(p, x)] else ZeroPage()
  }

  function FlatStep(f: Flat, op: Op): (Flat, Outcome)
    requires LegalOp(f.segs.Keys, op)
  {
    match op
    case Add(p) => (Flat(f.segs[p := DefaultSegments()], f.pages), Done)
    case Rw(p, va, req) =>
      var x, off := va / PAGE_SIZE, va % PAGE_SIZE;
      if !Permits(f.segs[p], va, req.Write?) then (f, SegFault)
      else if req.Read? then (f, Bytes(FlatPage(f, p, x)[off..off + req.count]))
      else (Flat(f.segs, f.pages[(p, x) := Overlay(FlatPage(f, p, x), off, req.data)]), Done)
    case Resize(p, which, pages, shrink) =>
      (Flat(f.segs[p := ResizeSegment(f.segs[p], which, pages, shrink)], f.pages), Done)
  }

  ghost predicate Agree(m: Machine, f: Flat)
    requires MInv(m)
  {
    && f.segs == m.segs
    && (forall p, x :: p in m.segs && 0 <= x < PAGES ==> M(m.s, p, x) == FlatPage(f, p, x))
    && (forall p, x :: (p, x) in f.pages ==> p in f.segs)
  }

  lemma StepKeepsInv(m: Machine, op: Op)
    requires MInv(m) && LegalOp(m.segs.Keys, op)
    ensures Step(m, op).Some? ==>
              var (m', out) := Step(m, op).value;
              && MInv(m') && m'.segs.Keys == (if op.Add? then m.segs.Keys + {op.pid} else m.segs.Keys)
  {
    hide DirsOk, TablesOk, TlbOk, M, Access, AddProcess;
    match op {
      case Add(p) => AddProcessKeepsMemory(m, p);
      case Rw(p, va, req) => AccessIsFlat(m, va, p, req);
      case Resize(p, which, pages, shrink) =>
    }
  }

  lemma AccessRefines(m: Machine, f: Flat, p: nat, va: Addr32, req: Request)
    requires CanAccess(m, va, p, req) && Agree(m, f) && Access(m, va, p, req).Some?
    ensures var (m', out) := Access(m, va, p, req).value;
            && MInv(m') && Agree(m', FlatStep(f, Rw(p, va, req)).0) && out == FlatStep(f, Rw(p, va, req)).1
  {
    hide MInv, M, Access, Resident, Faults, RunsOut, MmuSpec.Hit, CountReserved, ZeroPage;
    AccessIsFlat(m, va, p, req);
    DirsAreSegs(m);
  }

  lemma DirsAreSegs(m: Machine)
    requires MInv(m)
    ensures SInv(m.s) && m.s.dirs.Keys == m.segs.Keys
  {
  }

  lemma AddRefines(m: Machine, f: Flat, p: nat)
    requires MInv(m) && Agree(m, f) && LegalOp(m.segs.Keys, Add(p)) && p !in m.s.dirs && AddProcess(m, p).Some?
    ensures var m' := AddProcess(m, p).value; MInv(m') && Agree(m', FlatStep(f, Add(p)).0)
  {
    hide MInv, M, AddProcess, CountReserved, ZeroPage;
    AddProcessKeepsMemory(m, p);
    DirsAreSegs(m);
  }

  lemma StepRefines(m: Machine, f: Flat, op: Op)
    requires MInv(m) && LegalOp(m.segs.Keys, op) && Agree(m, f) && Step(m, op).Some?
    ensures MInv(Step(m, op).value.0)
    ensures Agree(Step(m, op).value.0, FlatStep(f, op).0)
    ensures Step(m, op).value.1 == FlatStep(f, op).1
  {
    hide DirsOk, TablesOk, TlbOk, M, Access, AddProcess, CountReserved, ZeroPage, Covers, FindSegment;
    match op {
      case Add(p) => AddRefines(m, f, p);
      case Rw(p, va, req) => AccessRefines(m, f, p, va, req);
      case Resize(p, which, pages, shrink) =>
    }
  }

  /** Run the operations until frames run out, collecting the outcomes. */
  function Run(m: Machine, ops: seq<Op>): (Machine, seq<Outcome>)
    requires MInv(m) && Legal(m.segs.Keys, ops)
    decreases |ops|
  {
    if ops == [] then (m, []) else
    StepKeepsInv(m, ops[0]);
    match Step(m, ops[0])
    case None => (m, [])
    case Some((m', out)) => var (m'', outs) := Run(m', ops[1..]); (m'', [out] + outs)
  }

  function FlatRun(f: Flat, ops: seq<Op>): (Flat, seq<Outcome>)
    requires Legal(f.segs.Keys, ops)
    decreases |ops|
  {
    if ops == [] then (f, []) else
    var (f', out) := FlatStep(f, ops[0]);
    assert f'.segs.Keys == if ops[0].Add? then f.segs.Keys + {ops[0].pid} else f.segs.Keys;
    var (f'', outs) := FlatRun(f', ops[1..]);
    (f'', [out] + outs)
  }

  lemma StepKeysAgree(m: Machine, f: Flat, op: Op)
    requires MInv(m) && LegalOp(m.segs.Keys, op) && Agree(m, f) && Step(m, op).Some?
    ensures FlatStep(f, op).0.segs == Step(m, op).value.0.segs
  {
    StepRefines(m, f, op);
  }

  lemma RunUnfolds(m: Machine, ops: seq<Op>)
    requires MInv(m) && Legal(m.segs.Keys, ops) && ops != []
    ensures Step(m, ops[0]).None? ==> Run(m, ops) == (m, [])
    ensures Step(m, ops[0]).Some? ==>
              var (m', out) := Step(m, ops[0]).value;
              && MInv(m') && Legal(m'.segs.Keys, ops[1..])
              && Run(m, ops) == (Run(m', ops[1..]).0, [out] + Run(m', ops[1..]).1)
  {
    hide MInv, Step;
    StepKeepsInv(m, ops[0]);
  }

  lemma FlatRunUnfolds(f: Flat, ops: seq<Op>)
    requires Legal(f.segs.Keys, ops) && ops != []
    ensures var (f', out) := FlatStep(f, ops[0]);
            && Legal(f'.segs.Keys, ops[1..])
            && FlatRun(f, ops) == (FlatRun(f', ops[1..]).0, [out] + FlatRun(f', ops[1..]).1)
  {
    assert FlatStep(f, ops[0]).0.segs.Keys == if ops[0].Add? then f.segs.Keys + {ops[0].pid} else f.segs.Keys;
    hide FlatStep, LegalOp;
  }

  /**
    The paging machine refines a flat memory: over any legal run every outcome is the flat one, up to the point where
    frames run out, and a run that completes ends in an agreeing memory.
   */
  lemma {:induction false} RunRefinesFlatMemory(m: Machine, f: Flat, ops: seq<Op>)
    requires MInv(m) && Agree(m, f) && Legal(m.segs.Keys, ops)
    ensures Run(m, ops).1 <= FlatRun(f, ops).1
    ensures MInv(Run(m, ops).0)
    ensures |Run(m, ops).1| == |ops| ==> Agree(Run(m, ops).0, FlatRun(f, ops).0)
    decreases |ops|
  {
    if ops != [] {
      hide MInv, Agree, Run, FlatRun, LegalOp;
      RunUnfolds(m, ops);
      FlatRunUnfolds(f, ops);
      if Step(m, ops[0]).Some? {
        var m', f' := Step(m, ops[0]).value.0, FlatStep(f, ops[0]).0;
        StepRefines(m, f, ops[0]);
        assert f'.segs.Keys == m'.segs.Keys by { StepKeysAgree(m, f, ops[0]); }
        RunRefinesFlatMemory(m', f', ops[1..]);
        hide *;
      }
    }
  }

  // ---- how many frames a run needs ----

  /** The regions of 4 MB, by process and number, that have a page table. */
  ghost predicate HasRegions(s: Space, regions: set<(nat, nat)>)
    requires SInv(s)
  {
    && (forall q, x :: q in s.dirs && 0 <= x < PAGES ==> (Walk(s, q, x).Some? <==> (q, x / ENTRIES) in regions))
    && (forall q, i :: (q, i) in regions ==> q in s.dirs)
  }

  /** Whether an operation touches memory: resizing a segment and a segmentation fault do not. */
  predicate UsesFrames(f: Flat, op: Op)
    requires LegalOp(f.segs.Keys, op)
  {
    match op
    case Add(_) => true
    case Rw(p, va, req) => Permits(f.segs[p], va, req.Write?)
    case Resize(_, _, _, _) => false
  }

  /**
    The frames an operation reserves: a directory and a table for a process, a table for a region not touched before.
   */
  function Charge(f: Flat, regions: set<(nat, nat)>, op: Op): nat
    requires LegalOp(f.segs.Keys, op)
  {
    if !UsesFrames(f, op) then 0
    else if op.Add? then 2
    else if (op.pid, op.va / PAGE_SIZE / ENTRIES) in regions then 0 else 1
  }

  function Regions(f: Flat, regions: set<(nat, nat)>, op: Op): set<(nat, nat)>
    requires LegalOp(f.segs.Keys, op)
  {
    if !UsesFrames(f, op) then regions else regions + {(op.pid, if op.Add? then 0 else op.va / PAGE_SIZE / ENTRIES)}
  }

  /** The frames a run reserves. */
  function Need(f: Flat, regions: set<(nat, nat)>, ops: seq<Op>): nat
    requires Legal(f.segs.Keys, ops)
    decreases |ops|
  {
    if ops == [] then 0 else
    var f' := FlatStep(f, ops[0]).0;
    assert f'.segs.Keys == if ops[0].Add? then f.segs.Keys + {ops[0].pid} else f.segs.Keys;
    Charge(f, regions, ops[0]) + Need(f', Regions(f, regions, ops[0]), ops[1..])
  }

  lemma NothingResident(k: Kernel, dirs: set<nat>, a: EntryAddr)
    requires KernelSpec.Inv(k, dirs) && IsPte(k, dirs, a) && CountReserved(k.slots) == FRAMES
    ensures !EntryAt(k, a).present
  {
  }

  /** Frames run out exactly when the table that is needed would leave none to page with. */
  lemma RunsOutMeans(s: Space, p: nat, page: nat)
    requires SInv(s) && p in s.dirs && page < PAGES
    ensures RunsOut(s, p, page) <==> CountReserved(s.k.slots) + (if Walk(s, p, page).None? then 1 else 0) >= FRAMES
  {
    WalkIsPte(s, p, page);
    if Walk(s, p, page).Some? && CountReserved(s.k.slots) == FRAMES {
      NothingResident(s.k, s.dirs.Values, Walk(s, p, page).value);
    }
  }

  lemma AccessCharges(m: Machine, f: Flat, regions: set<(nat, nat)>, p: nat, va: Addr32, req: Request)
    requires CanAccess(m, va, p, req) && f.segs == m.segs && HasRegions(m.s, regions)
    ensures var op := Rw(p, va, req);
            && (Access(m, va, p, req).None? <==>
                  UsesFrames(f, op) && CountReserved(m.s.k.slots) + Charge(f, regions, op) >= FRAMES)
            && (Access(m, va, p, req).Some? ==>
                  var m' := Access(m, va, p, req).value.0;
                  && MInv(m') && HasRegions(m'.s, Regions(f, regions, op))
                  && CountReserved(m'.s.k.slots) == CountReserved(m.s.k.slots) + Charge(f, regions, op))
  {
    hide MInv, Access, Resident, Faults, RunsOut, FlatEffect, MmuSpec.Hit, MmuSpec.Walk, CountReserved, FindSegment, M;
    DirsAreSegs(m);
    AccessIsFlat(m, va, p, req);
    RunsOutMeans(m.s, p, va / PAGE_SIZE);
    if Access(m, va, p, req).Some? {
      DirsAreSegs(Access(m, va, p, req).value.0);
    }
  }

  lemma AddCharges(m: Machine, f: Flat, regions: set<(nat, nat)>, p: nat)
    requires MInv(m) && p !in m.s.dirs && LegalOp(f.segs.Keys, Add(p)) && f.segs == m.segs && HasRegions(m.s, regions)
    ensures AddProcess(m, p).None? <==> CountReserved(m.s.k.slots) + 2 >= FRAMES
    ensures AddProcess(m, p).Some? ==>
              var m' := AddProcess(m, p).value;
              && MInv(m') && HasRegions(m'.s, Regions(f, regions, Add(p)))
              && CountReserved(m'.s.k.slots) == CountReserved(m.s.k.slots) + 2
  {
    hide MInv, AddProcess, MmuSpec.Walk, CountReserved, M;
    DirsAreSegs(m);
    AddProcessKeepsMemory(m, p);
    if AddProcess(m, p).Some? {
      DirsAreSegs(AddProcess(m, p).value);
    }
  }

  /** An operation fails exactly if it touches memory and its frames would leave none to page with. */
  lemma StepCharges(m: Machine, f: Flat, regions: set<(nat, nat)>, op: Op)
    requires MInv(m) && LegalOp(m.segs.Keys, op) && f.segs == m.segs && HasRegions(m.s, regions)
    ensures Step(m, op).None? <==> UsesFrames(f, op) && CountReserved(m.s.k.slots) + Charge(f, regions, op) >= FRAMES
    ensures Step(m, op).Some? ==>
              var m' := Step(m, op).value.0;
              && MInv(m') && HasRegions(m'.s, Regions(f, regions, op))
              && CountReserved(m'.s.k.slots) == CountReserved(m.s.k.slots) + Charge(f, regions, op)
  {
    hide SInv, TlbOk, Access, AddProcess, HasRegions, CountReserved, FindSegment, Covers;
    match op {
      case Add(p) => AddCharges(m, f, regions, p);
      case Rw(p, va, req) => AccessCharges(m, f, regions, p, va, req);
      case Resize(p, which, pages, shrink) =>
    }
  }

  /** A run completes exactly if the frames it reserves leave one to page with. */
  lemma {:induction false} RunCompletes(m: Machine, f: Flat, regions: set<(nat, nat)>, ops: seq<Op>)
    requires MInv(m) && Legal(m.segs.Keys, ops) && Agree(m, f) && HasRegions(m.s, regions)
    requires CountReserved(m.s.k.slots) < FRAMES
    ensures |Run(m, ops).1| == |ops| <==> CountReserved(m.s.k.slots) + Need(f, regions, ops) < FRAMES
    decreases |ops|
  {
    if ops != [] {
      hide MInv, Agree, Step, Run, FlatStep, HasRegions, CountReserved, Charge, UsesFrames, LegalOp, Legal, Need;
      hide Regions, FRAMES;
      AgreeSegs(m, f);
      LegalFirst(m.segs.Keys, ops);
      StepCharges(m, f, regions, ops[0]);
      RunUnfolds(m, ops);
      NeedUnfolds(f, regions, ops);
      if Step(m, ops[0]).Some? {
        StepRefines(m, f, ops[0]);
        AgreeSegs(Step(m, ops[0]).value.0, FlatStep(f, ops[0]).0);
        RunCompletes(Step(m, ops[0]).value.0, FlatStep(f, ops[0]).0, Regions(f, regions, ops[0]), ops[1..]);
      }
    }
  }

  lemma AgreeSegs(m: Machine, f: Flat)
    requires MInv(m) && Agree(m, f)
    ensures f.segs == m.segs
  {
  }

  lemma LegalFirst(pids: set<nat>, ops: seq<Op>)
    requires Legal(pids, ops) && ops != []
    ensures LegalOp(pids, ops[0])
  {
  }

  lemma NeedUnfolds(f: Flat, regions: set<(nat, nat)>, ops: seq<Op>)
    requires Legal(f.segs.Keys, ops) && ops != [] && LegalOp(f.segs.Keys, ops[0])
    ensures var f' := FlatStep(f, ops[0]).0;
            && Legal(f'.segs.Keys, ops[1..])
            && Need(f, regions, ops) == Charge(f, regions, ops[0]) + Need(f', Regions(f, regions, ops[0]), ops[1..])
    ensures !UsesFrames(f, ops[0]) ==> Charge(f, regions, ops[0]) == 0
  {
    hide Permits, ResizeSegment, FlatPage;
    FlatRunUnfolds(f, ops);
  }

  /** `mmu_create` over a kernel with no frame handed out and an empty swap directory. */
  function Initial(): Machine {
    Machine(Space(Kernel(seq(FRAMES, _ => Data(ZeroPage())), seq(FRAMES, _ => Free), map[]), map[]),
            map[], [TlbItem(0, None)], 0, 0, 0, 0)
  }

  /**
    From the initial machine, a legal run of any length completes exactly if its processes and the regions they touch
    need fewer than all frames; it then behaves as a flat memory of zeros, and otherwise it does so up to where it ends.
   */
  lemma MachineIsFlatMemory(ops: seq<Op>)
    requires Legal({}, ops)
    ensures MInv(Initial()) && Legal(Initial().segs.Keys, ops)
    ensures var flat := Flat(map[], map[]);
            && Run(Initial(), ops).1 <= FlatRun(flat, ops).1
            && (Need(flat, {}, ops) < FRAMES <==> Run(Initial(), ops).1 == FlatRun(flat, ops).1)
  {
    InitialOk();
    hide MInv, Agree, Initial, HasRegions, CountReserved, Need;
    RunCompletes(Initial(), Flat(map[], map[]), {}, ops);
    RunRefinesFlatMemory(Initial(), Flat(map[], map[]), ops);
    FlatRunLength(Flat(map[], map[]), ops);
  }

  lemma InitialOk()
    ensures MInv(Initial()) && Agree(Initial(), Flat(map[], map[])) && CountReserved(Initial().s.k.slots) == 0
    ensures Initial().segs.Keys == {} && HasRegions(Initial().s, {})
  {
    hide CountReserved, KernelSpec.Inv, M;
    var m := Initial();
    NoneReserved(m.s.k.slots);
    NoFrameOwned(m.s.k);
    assert m.s.dirs.Values == {};
  }

  lemma InitialIs(m: Machine)
    requires m.s.k == Kernel(seq(FRAMES, _ => Data(ZeroPage())), seq(FRAMES, _ => Free), map[])
    requires m == Machine(Space(m.s.k, map[]), map[], [TlbItem(0, None)], 0, 0, 0, 0)
    ensures m == Initial()
  {
  }

  lemma NoFrameOwned(k: Kernel)
    requires |k.frames| == |k.slots| == FRAMES && k.swap == map[]
    requires forall i :: 0 <= i < FRAMES ==> k.slots[i] == Free
    ensures Inv(k, {})
  {
  }

  lemma NoneReserved(slots: seq<Slot>)
    requires forall i :: 0 <= i < |slots| ==> slots[i] != Reserved
    ensures CountReserved(slots) == 0
  {
  }

  lemma FlatRunLength(f: Flat, ops: seq<Op>)
    requires Legal(f.segs.Keys, ops)
    ensures |FlatRun(f, ops).1| == |ops|
    decreases |ops|
  {
    if ops != [] {
      var f' := FlatStep(f, ops[0]).0;
      assert f'.segs.Keys == if ops[0].Add? then f.segs.Keys + {ops[0].pid} else f.segs.Keys;
      FlatRunLength(f', ops[1..]);
    }
  }
}
