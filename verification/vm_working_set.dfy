/** Paging as long as frames are free: nothing is evicted, and every page is faulted in once. */
module WorkingSet {
  import opened MachineData
  import opened KernelSpec
  import opened MmuSpec
  import opened VirtualMemory
  import opened Wrappers

  // ---- one fault ----

  /** All page table entries of `k0` are in `k1`, and those of other pages than `a` are as they were. */
  ghost predicate KeepsEntries(k0: Kernel, k1: Kernel, dirs: set<nat>, a: EntryAddr)
    requires Inv(k0, dirs) && Inv(k1, dirs)
  {
    forall b :: IsPte(k0, dirs, b) ==>
                  IsPte(k1, dirs, b) && (b != a ==> EntryAt(k1, b).present == EntryAt(k0, b).present)
  }

  lemma FaultTableWithFree(s: Space, p: nat, page: nat, user: bool)
    requires SInv(s) && HasDir(s, p) && page < PAGES && (Walk(s, p, page).None? ==> CountFree(s.k.slots) > 0)
    ensures FaultTable(s, p, page, user).Some?
    ensures var (s', a) := FaultTable(s, p, page, user).value;
            && s'.k.swap == s.k.swap
            && CountFree(s'.k.slots) == CountFree(s.k.slots) - (if Walk(s, p, page).None? then 1 else 0)
            && (forall b :: IsPte(s.k, s.dirs.Values, b) ==>
                  IsPte(s'.k, s.dirs.Values, b) && EntryAt(s'.k, b) == EntryAt(s.k, b))
  {
    var dirs := s.dirs.Values;
    if Walk(s, p, page).None? {
      AskWithFree(s.k, dirs, Reserved);
      var (k1, i) := Ask(s.k, Reserved).value;
      NewTableKeepsPages(s.k, dirs, i);
      assert forall b :: IsPte(s.k, dirs, b) ==> IsPte(k1, dirs, b) && EntryAt(k1, b) == EntryAt(s.k, b);
      var pde := Pde(s, p, page / ENTRIES);
      DirectoryWriteKeepsPages(k1, dirs, At(s.dirs[p], page / ENTRIES),
                               pde.(base := i, present := true, readWrite := true, userSupervisor := user));
    }
  }

  lemma FaultPageWithFree(s: Space, a: EntryAddr)
    requires SInv(s) && IsPte(s.k, s.dirs.Values, a) && (!EntryAt(s.k, a).present ==> CountFree(s.k.slots) > 0)
    ensures FaultPage(s, a).Some? && SInv(FaultPage(s, a).value)
    ensures var s' := FaultPage(s, a).value;
            && s'.dirs == s.dirs && s'.k.swap == s.k.swap && KeepsEntries(s.k, s'.k, s.dirs.Values, a)
            && CountFree(s'.k.slots) == CountFree(s.k.slots) - (if EntryAt(s.k, a).present then 0 else 1)
  {
    FaultPageKeepsMemory(s, a);
    if !EntryAt(s.k, a).present {
      LoadWithFree(s.k, s.dirs.Values, a);
    }
  }

  lemma TransferKeepsEntries(s: Space, a: EntryAddr, off: nat, req: Request)
    requires SInv(s) && IsPte(s.k, s.dirs.Values, a) && EntryAt(s.k, a).present && off + req.Size() <= PAGE_SIZE
    ensures var s' := Transfer(s, a, off, req).0;
            && s'.k.swap == s.k.swap && s'.k.slots == s.k.slots
            && (forall b :: IsPte(s.k, s.dirs.Values, b) ==>
                  IsPte(s'.k, s.dirs.Values, b) && EntryAt(s'.k, b).present == EntryAt(s.k, b).present)
  {
  }

  // ---- one access ----

  /** `s1` is `s0` with, at most, an empty page table for the 4 MB around a page, whose entry is `a`. */
  ghost predicate OnlyTableAdded(s0: Space, s1: Space, p: nat, page: nat, a: EntryAddr)
    requires SInv(s0) && SInv(s1) && p in s0.dirs && page < PAGES
  {
    && s1.dirs == s0.dirs && Walk(s1, p, page) == Some(a) && TableAdded(s0, s1, p, page)
    && (forall q, x :: q in s0.dirs && 0 <= x < PAGES && Walk(s0, q, x).Some? ==> Walk(s1, q, x) == Walk(s0, q, x))
    && (forall b :: IsPte(s0.k, s0.dirs.Values, b) ==>
          IsPte(s1.k, s0.dirs.Values, b) && EntryAt(s1.k, b) == EntryAt(s0.k, b))
    && (Walk(s0, p, page).None? ==>
          forall j :: 0 <= j < ENTRIES ==>
              IsPte(s1.k, s0.dirs.Values, At(a.frame, j)) && EntryAt(s1.k, At(a.frame, j)) == ZERO_ENTRY)
  }

  lemma NothingAdded(s: Space, p: nat, page: nat)
    requires SInv(s) && p in s.dirs && page < PAGES && Walk(s, p, page).Some?
    ensures OnlyTableAdded(s, s, p, page, Walk(s, p, page).value)
  {
    NoTableAdded(s, p, page);
  }

  lemma FaultTableAdds(s: Space, p: nat, page: nat, user: bool)
    requires SInv(s) && p in s.dirs && HasDir(s, p) && page < PAGES && Walk(s, p, page).None?
    requires CountFree(s.k.slots) > 0
    ensures FaultTable(s, p, page, user).Some? && SInv(FaultTable(s, p, page, user).value.0)
    ensures var (s', a) := FaultTable(s, p, page, user).value;
            && OnlyTableAdded(s, s', p, page, a) && IsPte(s'.k, s.dirs.Values, a) && s'.k.swap == s.k.swap
            && CountFree(s'.k.slots) == CountFree(s.k.slots) - 1
  {
    hide TablesOk, DirsOk, TableAdded, SameMemory;
    FaultTableKeepsMemory(s, p, page, user);
    FaultTableWithFree(s, p, page, user);
  }

  lemma ResolveWithFree(m: Machine, page: nat)
    requires MInv(m) && m.pid in m.s.dirs && page < PAGES
    requires Walk(m.s, m.pid, page).None? ==> CountFree(m.s.k.slots) > 0
    ensures Resolve(m, page).Some? && SInv(Resolve(m, page).value.0)
    ensures var (s', a, faults) := Resolve(m, page).value;
            && OnlyTableAdded(m.s, s', m.pid, page, a) && IsPte(s'.k, m.s.dirs.Values, a) && s'.k.swap == m.s.k.swap
            && CountFree(s'.k.slots) == CountFree(m.s.k.slots) - (if Walk(m.s, m.pid, page).None? then 1 else 0)
  {
    hide TablesOk, DirsOk, TableAdded, IndexOfPage, SameMemory;
    ResolveIsWalk(m, page);
    SpaceShape(m.s, m.pid);
    if Walk(m.s, m.pid, page).Some? {
      NothingAdded(m.s, m.pid, page);
    } else {
      HitNeedsWalk(m, page);
      FaultTableAdds(m.s, m.pid, page, false);
    }
  }

  lemma HitNeedsWalk(m: Machine, page: nat)
    requires MInv(m) && m.pid in m.s.dirs && page < PAGES && Walk(m.s, m.pid, page).None?
    ensures Hit(m.tlb, page).None?
  {
    if Hit(m.tlb, page).Some? {
      HitMeansWalk(m, page);
    }
  }

  /** A page is resident afterwards exactly if it was before or is the one that was touched. */
  lemma TouchedIsResident(s0: Space, s1: Space, s2: Space, p: nat, page: nat, a: EntryAddr)
    requires SInv(s0) && SInv(s1) && SInv(s2) && p in s0.dirs && page < PAGES
    requires OnlyTableAdded(s0, s1, p, page, a) && SameWalks(s1, s2) && KeepsEntries(s1.k, s2.k, s1.dirs.Values, a)
    requires IsPte(s2.k, s1.dirs.Values, a) && EntryAt(s2.k, a).present
    ensures forall q, x :: q in s0.dirs && 0 <= x < PAGES ==>
              (Resident(s2, q, x) <==> Resident(s0, q, x) || (q == p && x == page))
  {
    forall q, x | q in s0.dirs && 0 <= x < PAGES
      ensures Resident(s2, q, x) <==> Resident(s0, q, x) || (q == p && x == page)
    {
      assert Walk(s2, q, x) == Walk(s1, q, x);
      WalkIsPte(s0, q, x);
      WalkIsPte(s1, q, x);
      WalkIsPte(s2, q, x);
      if Walk(s1, q, x).Some? {
        OnePage(s0, s1, q, x, p, page, a);
      }
    }
  }

  lemma OnePage(s0: Space, s1: Space, q: nat, x: nat, p: nat, page: nat, a: EntryAddr)
    requires SInv(s0) && SInv(s1) && p in s0.dirs && q in s0.dirs && page < PAGES && x < PAGES
    requires OnlyTableAdded(s0, s1, p, page, a) && Walk(s1, q, x).Some?
    ensures Walk(s1, q, x).value == a <==> q == p && x == page
    ensures IsPte(s1.k, s0.dirs.Values, Walk(s1, q, x).value)
    ensures EntryAt(s1.k, Walk(s1, q, x).value).present <==> Resident(s0, q, x)
  {
    WalkIsPte(s1, q, x);
    if Walk(s1, q, x).value == a {
      WalkInjective(s1, q, x, p, page);
    }
    if Walk(s0, q, x).Some? {
      WalkIsPte(s0, q, x);
    }
  }

  /**
    With a free frame for every frame it needs, an access takes exactly those, evicts nothing, and makes its page
    resident beside all that were.
   */
  lemma AccessWithFree(m: Machine, va: Addr32, pid: nat, req: Request)
    requires CanAccess(m, va, pid, req) && pid in m.s.dirs && Permits(m.segs[pid], va, req.Write?)
    requires CountFree(m.s.k.slots) >= Faults(m.s, pid, va / PAGE_SIZE)
    ensures Access(m, va, pid, req).Some?
    ensures var m' := Access(m, va, pid, req).value.0;
            && MInv(m') && m'.s.dirs == m.s.dirs && m'.s.k.swap == m.s.k.swap
            && CountFree(m'.s.k.slots) == CountFree(m.s.k.slots) - Faults(m.s, pid, va / PAGE_SIZE)
            && (forall q, x :: q in m.s.dirs && 0 <= x < PAGES ==>
                  (Resident(m'.s, q, x) <==> Resident(m.s, q, x) || (q == pid && x == va / PAGE_SIZE)))
  {
    hide SInv, TlbOk, Resident, Faults, Translate, CountFree, FindSegment, Covers, MmuSpec.Hit, FlatEffect, TableAdded;
    hide MmuSpec.Walk, CountReserved, RunsOut;
    var page, off := va / PAGE_SIZE, va % PAGE_SIZE;
    var m0 := Switch(m, pid);
    SwitchKeepsInv(m, pid);
    AccessIsFlat(m, va, pid, req);
    TranslateWithFree(m0, page, off, req);
  }

  lemma TranslateWithFree(m: Machine, page: nat, off: nat, req: Request)
    requires MInv(m) && m.pid in m.s.dirs && page < PAGES && off + req.Size() <= PAGE_SIZE
    requires CountFree(m.s.k.slots) >= Faults(m.s, m.pid, page)
    ensures Translate(m, page, off, req).Some?
    ensures var m' := Translate(m, page, off, req).value.0;
            && SInv(m'.s) && m'.s.dirs == m.s.dirs && m'.s.k.swap == m.s.k.swap
            && CountFree(m'.s.k.slots) == CountFree(m.s.k.slots) - Faults(m.s, m.pid, page)
            && (forall q, x :: q in m.s.dirs && 0 <= x < PAGES ==>
                  (Resident(m'.s, q, x) <==> Resident(m.s, q, x) || (q == m.pid && x == page)))
  {
    hide TablesOk, DirsOk, Resolve, FaultPage, Transfer, OnlyTableAdded, KeepsEntries, CountFree, FlatEffect;
    hide SameMemory, TlbOk, Promote, Insert, IndexOfPage;
    ResolveWithFree(m, page);
    ResolveIsWalk(m, page);
    var (s, a, faults) := Resolve(m, page).value;
    AddedParts(m.s, s, m.pid, page, a);
    FaultPageWithFree(s, a);
    FaultPageKeepsMemory(s, a);
    var s1 := FaultPage(s, a).value;
    TransferWithFree(s, s1, a, m.pid, page, off, req);
    TouchedIsResident(m.s, s, Transfer(s1, a, off, req).0, m.pid, page, a);
  }

  lemma AddedParts(s0: Space, s1: Space, p: nat, page: nat, a: EntryAddr)
    requires SInv(s0) && SInv(s1) && p in s0.dirs && page < PAGES && OnlyTableAdded(s0, s1, p, page, a)
    ensures s1.dirs == s0.dirs && Walk(s1, p, page) == Some(a) && IsPte(s1.k, s0.dirs.Values, a)
    ensures EntryAt(s1.k, a).present <==> Resident(s0, p, page)
    ensures HasDir(s1, p)
  {
    OnePage(s0, s1, p, page, p, page, a);
  }

  lemma TransferWithFree(s: Space, s1: Space, a: EntryAddr, p: nat, page: nat, off: nat, req: Request)
    requires SInv(s) && SInv(s1) && SameWalks(s, s1) && p in s.dirs && page < PAGES && Walk(s, p, page) == Some(a)
    requires IsPte(s1.k, s.dirs.Values, a) && EntryAt(s1.k, a).present && off + req.Size() <= PAGE_SIZE
    requires KeepsEntries(s.k, s1.k, s.dirs.Values, a)
    ensures var s2 := Transfer(s1, a, off, req).0;
            && SInv(s2) && SameWalks(s, s2) && KeepsEntries(s.k, s2.k, s.dirs.Values, a)
            && IsPte(s2.k, s.dirs.Values, a) && EntryAt(s2.k, a).present
            && s2.k.swap == s1.k.swap && s2.k.slots == s1.k.slots
  {
    hide TablesOk, Transfer, FlatEffect;
    SpaceShape(s1, p);
    TransferIsFlat(s1, a, p, page, off, req);
    TransferKeepsEntries(s1, a, off, req);
    SameWalksTrans(s, s1, Transfer(s1, a, off, req).0);
  }

  // ---- the marks of an entry ----

  lemma PageInMarks(k: Kernel, i: nat, a: EntryAddr)
    requires i < |k.frames| && i < |k.slots| && i != a.frame
    requires a.frame < |k.frames| && k.frames[a.frame].Table? && a.index < ENTRIES
    ensures |PageIn(k, i, a).frames| == |k.frames| && PageIn(k, i, a).frames[a.frame].Table?
    ensures var e := EntryAt(PageIn(k, i, a), a);
            e.dirty == EntryAt(k, a).dirty && e.readWrite && e.userSupervisor
  {
  }

  lemma LoadKeepsMarks(k: Kernel, dirs: set<nat>, a: EntryAddr)
    requires Inv(k, dirs) && IsPte(k, dirs, a) && !EntryAt(k, a).present
    ensures AllEvictable(k)
    ensures Load(k, a).Some? ==>
              var k' := Load(k, a).value;
              && Inv(k', dirs) && IsPte(k', dirs, a) && EntryAt(k', a).dirty == EntryAt(k, a).dirty
              && EntryAt(k', a).readWrite && EntryAt(k', a).userSupervisor
  {
    hide Evict, SamePages, FirstVictim, FirstFree, PageIn, CountReserved;
    LoadKeepsPages(k, dirs, a);
    ReclaimFails(k, dirs, Owner(a));
    if Reclaim(k, Owner(a)).Some? {
      var (k1, i) := Reclaim(k, Owner(a)).value;
      assert IsPte(k1, dirs, a);
      PageInMarks(k1, i, a);
      LoadIsPageIn(k, dirs, a);
    }
  }

  lemma LoadIsPageIn(k: Kernel, dirs: set<nat>, a: EntryAddr)
    requires Inv(k, dirs) && IsPte(k, dirs, a) && AllEvictable(k) && Reclaim(k, Owner(a)).Some?
    requires var (k1, i) := Reclaim(k, Owner(a)).value; i != a.frame && IsPte(k1, dirs, a) && Inv(k1, dirs)
    ensures var (k1, i) := Reclaim(k, Owner(a)).value; Load(k, a) == Some(PageIn(k1, i, a))
  {
  }

  /** The entry of a page as an access finds it: all zero if its table is missing. */
  ghost function EntryOf(s: Space, p: nat, page: nat): Entry
    requires SInv(s) && p in s.dirs && page < PAGES
  {
    WalkIsPte(s, p, page);
    if Walk(s, p, page).Some? then EntryAt(s.k, Walk(s, p, page).value) else ZERO_ENTRY
  }

  lemma TransferEntry(s: Space, a: EntryAddr, off: nat, req: Request)
    requires SInv(s) && IsPte(s.k, s.dirs.Values, a) && EntryAt(s.k, a).present && off + req.Size() <= PAGE_SIZE
    ensures var s', e := Transfer(s, a, off, req).0, EntryAt(s.k, a);
            && a.frame < |s'.k.frames| && s'.k.frames[a.frame].Table?
            && EntryAt(s'.k, a) == e.(accessed := true, dirty := req.Write? || e.dirty)
  {
  }

  /**
    An entry after an access: present and accessed, dirty exactly if it was or this is a write; writable and for users
    if it was faulted in just now, and else with the frame and the bits it had.
   */
  predicate Marked(e: Entry, e': Entry, req: Request) {
    && e'.present && e'.accessed && (e'.dirty <==> req.Write? || e.dirty)
    && (if e.present then e'.base == e.base && e'.readWrite == e.readWrite && e'.userSupervisor == e.userSupervisor
        else e'.readWrite && e'.userSupervisor)
  }

  lemma TransferMarks(s: Space, a: EntryAddr, p: nat, page: nat, off: nat, req: Request)
    requires SInv(s) && p in s.dirs && HasDir(s, p) && page < PAGES && Walk(s, p, page) == Some(a)
    requires IsPte(s.k, s.dirs.Values, a) && EntryAt(s.k, a).present && off + req.Size() <= PAGE_SIZE
    ensures var s' := Transfer(s, a, off, req).0;
            && SInv(s') && s'.dirs == s.dirs
            && EntryOf(s', p, page) == EntryAt(s.k, a).(accessed := true, dirty := req.Write? || EntryAt(s.k, a).dirty)
  {
    hide SInv, FlatEffect, MmuSpec.Walk;
    TransferIsFlat(s, a, p, page, off, req);
    TransferEntry(s, a, off, req);
    SpaceShape(Transfer(s, a, off, req).0, p);
    assert Walk(Transfer(s, a, off, req).0, p, page) == Some(a);
  }

  lemma TouchMarks(m: Machine, s: Space, a: EntryAddr, page: nat, off: nat, req: Request, faults: nat)
    requires SInv(s) && m.pid in s.dirs && page < PAGES && Walk(s, m.pid, page) == Some(a)
    requires IsPte(s.k, s.dirs.Values, a) && off + req.Size() <= PAGE_SIZE
    requires Touch(m, s, a, page, off, req, faults).Some?
    ensures var s' := Touch(m, s, a, page, off, req, faults).value.0.s;
            && SInv(s') && s'.dirs == s.dirs && Marked(EntryAt(s.k, a), EntryOf(s', m.pid, page), req)
  {
    hide DirsOk, TablesOk, EntryOf, FaultPage, Transfer, MmuSpec.Walk;
    FaultPageKeepsMemory(s, a);
    FaultPageKeepsMarks(s, a);
    var s1 := FaultPage(s, a).value;
    SpaceShape(s1, m.pid);
    TransferMarks(s1, a, m.pid, page, off, req);
  }

  /** A permitted access marks the entry of its page so. */
  lemma AccessMarks(m: Machine, va: Addr32, pid: nat, req: Request)
    requires CanAccess(m, va, pid, req) && pid in m.s.dirs && Permits(m.segs[pid], va, req.Write?)
    requires Access(m, va, pid, req).Some?
    ensures MInv(Access(m, va, pid, req).value.0) && pid in Access(m, va, pid, req).value.0.s.dirs
    ensures var e := EntryOf(m.s, pid, va / PAGE_SIZE);
            var e' := EntryOf(Access(m, va, pid, req).value.0.s, pid, va / PAGE_SIZE);
            Marked(e, e', req)
  {
    hide SInv, TlbOk, FindSegment, Covers, MmuSpec.Hit, TableAdded, Resolve, Touch, Promote, CountReserved, FlatEffect;
    var page, off := va / PAGE_SIZE, va % PAGE_SIZE;
    var m0 := Switch(m, pid);
    SwitchKeepsInv(m, pid);
    AccessIsFlat(m, va, pid, req);
    ResolveIsWalk(m0, page);
    var (s, a, faults) := Resolve(m0, page).value;
    SameDirs(m.s, s);
    TouchMarks(m0, s, a, page, off, req, faults);
    EntryFound(m.s, s, pid, page, a);
  }

  lemma EntryFound(s0: Space, s: Space, p: nat, page: nat, a: EntryAddr)
    requires SInv(s0) && SInv(s) && p in s0.dirs && page < PAGES && IsPte(s.k, s.dirs.Values, a)
    requires p in s.dirs && Walk(s, p, page) == Some(a)
    requires if Walk(s0, p, page).Some? then s == s0 else EntryAt(s.k, a) == ZERO_ENTRY
    ensures EntryOf(s0, p, page) == EntryAt(s.k, a)
  {
  }

  lemma FaultPageKeepsMarks(s: Space, a: EntryAddr)
    requires SInv(s) && IsPte(s.k, s.dirs.Values, a)
    ensures FaultPage(s, a).Some? ==>
              && SInv(FaultPage(s, a).value) && IsPte(FaultPage(s, a).value.k, s.dirs.Values, a)
              && var e, e' := EntryAt(s.k, a), EntryAt(FaultPage(s, a).value.k, a);
                 && e'.dirty == e.dirty
                 && (if e.present then e' == e else e'.readWrite && e'.userSupervisor)
  {
    FaultPageKeepsMemory(s, a);
    if !EntryAt(s.k, a).present {
      LoadKeepsMarks(s.k, s.dirs.Values, a);
    }
  }

  // ---- a new process ----

  lemma DirectoryEntries(k: Kernel, dirs: set<nat>, i: nat)
    requires Inv(k, dirs) && i < FRAMES && k.slots[i] == Free
    ensures var k' := Grant(k, i, Reserved);
            forall b :: IsPte(k, dirs, b) ==> IsPte(k', dirs + {i}, b) && EntryAt(k', b) == EntryAt(k, b)
  {
  }

  lemma DirectoryWithFree(s: Space, p: nat)
    requires SInv(s) && p !in s.dirs && CountFree(s.k.slots) > 0
    ensures AddDirectory(s, p).Some? && SInv(AddDirectory(s, p).value)
    ensures var s' := AddDirectory(s, p).value;
            && s'.dirs.Keys == s.dirs.Keys + {p} && s'.k.swap == s.k.swap
            && CountFree(s'.k.slots) == CountFree(s.k.slots) - 1
            && (forall q, x :: q in s.dirs && 0 <= x < PAGES ==> (Resident(s', q, x) <==> Resident(s, q, x)))
            && (forall x :: 0 <= x < PAGES ==> Walk(s', p, x).None?)
  {
    hide TablesOk, MmuSpec.Walk, Pde, Ask, KernelSpec.Inv, M, CountFree, CountReserved, PageOf;
    AddDirectoryKeepsMemory(s, p);
    AskForDirectory(s.k, s.dirs.Values);
    AskWithFree(s.k, s.dirs.Values, Reserved);
    var (k1, d) := Ask(s.k, Reserved).value;
    var s' := AddDirectory(s, p).value;
    DirectoryEntries(s.k, s.dirs.Values, d);
    NewDirectoryWalks(s, p, k1, d);
    forall q, x | q in s.dirs && 0 <= x < PAGES
      ensures Resident(s', q, x) <==> Resident(s, q, x)
    {
      WalkIsPte(s, q, x);
      WalkIsPte(s', q, x);
    }
  }

  lemma SecondTestingPage(s2: Space, s3: Space, p: nat, a: EntryAddr)
    requires SInv(s2) && SInv(s3) && SameWalks(s2, s3) && p in s2.dirs && Walk(s2, p, 1) == Some(a)
    ensures Walk(s3, p, 2) == Some(At(a.frame, 2)) && IsPte(s3.k, s3.dirs.Values, At(a.frame, 2))
    ensures IsTable(s3.k, s3.dirs.Values, a.frame)
  {
    assert Walk(s3, p, 1) == Some(a);
    WalkIsPte(s3, p, 2);
  }

  /** With four free frames a process is added and nothing evicted; its two pages of testing memory are resident. */
  lemma AddSpaceWithFree(s: Space, p: nat)
    requires SInv(s) && p !in s.dirs && CountFree(s.k.slots) >= 4
    ensures AddSpace(s, p).Some? && SInv(AddSpace(s, p).value)
    ensures var s' := AddSpace(s, p).value;
            && s'.dirs.Keys == s.dirs.Keys + {p} && s'.k.swap == s.k.swap
            && CountFree(s'.k.slots) == CountFree(s.k.slots) - 4
            && (forall q, x :: q in s.dirs && 0 <= x < PAGES ==> (Resident(s', q, x) <==> Resident(s, q, x)))
            && (forall x :: 0 <= x < PAGES ==> (Resident(s', p, x) <==> x == 1 || x == 2))
  {
    hide TablesOk, DirsOk, FaultTable, FaultPage, AddDirectory, OnlyTableAdded, KeepsEntries, CountFree, SameMemory;
    hide Pde, MmuSpec.Walk, TableAdded, SpaceAdded, CountReserved, M;
    AddSpaceKeepsMemory(s, p);
    DirectoryWithFree(s, p);
    var s1 := AddDirectory(s, p).value;
    SpaceShape(s1, p);
    FaultTableAdds(s1, p, 1, true);
    var (s2, a) := FaultTable(s1, p, 1, true).value;
    AddedParts(s1, s2, p, 1, a);
    FaultPageWithFree(s2, a);
    FaultPageKeepsMemory(s2, a);
    var s3 := FaultPage(s2, a).value;
    TouchedIsResident(s1, s2, s3, p, 1, a);
    SecondTestingPage(s2, s3, p, a);
    var b := At(a.frame, 2);
    NothingAdded(s3, p, 2);
    AddedParts(s3, s3, p, 2, b);
    FaultPageWithFree(s3, b);
    FaultPageKeepsMemory(s3, b);
    var s4 := FaultPage(s3, b).value;
    TouchedIsResident(s3, s3, s4, p, 2, b);
    NextPte(s2, s3, p, 1, a);
    NotResident(s1, p);
  }

  lemma NotResident(s: Space, p: nat)
    requires SInv(s) && p in s.dirs && (forall x :: 0 <= x < PAGES ==> Walk(s, p, x).None?)
    ensures forall x :: 0 <= x < PAGES ==> !Resident(s, p, x)
  {
  }

  // ---- whole runs ----

  /** The pages, by process and number, that are resident. */
  ghost predicate HasPages(s: Space, pages: set<(nat, nat)>)
    requires SInv(s)
  {
    && (forall q, x :: q in s.dirs && 0 <= x < PAGES ==> (Resident(s, q, x) <==> (q, x) in pages))
    && (forall q, x :: (q, x) in pages ==> q in s.dirs)
  }

  /** The pages an operation brings in, if none goes out: two for a process, one for a page not touched before. */
  function NewPages(f: Flat, pages: set<(nat, nat)>, op: Op): nat
    requires LegalOp(f.segs.Keys, op)
  {
    if !UsesFrames(f, op) then 0
    else if op.Add? then 2
    else if (op.pid, op.va / PAGE_SIZE) in pages then 0 else 1
  }

  function Touched(f: Flat, pages: set<(nat, nat)>, op: Op): set<(nat, nat)>
    requires LegalOp(f.segs.Keys, op)
  {
    if !UsesFrames(f, op) then pages
    else pages + if op.Add? then {(op.pid, 1), (op.pid, 2)} else {(op.pid, op.va / PAGE_SIZE)}
  }

  /** The frames of a whole run: directories, tables and all pages it touches. */
  function AllFrames(f: Flat, regions: set<(nat, nat)>, pages: set<(nat, nat)>, ops: seq<Op>): nat
    requires Legal(f.segs.Keys, ops)
    decreases |ops|
  {
    if ops == [] then 0 else
    FlatRunUnfolds(f, ops);
    Charge(f, regions, ops[0]) + NewPages(f, pages, ops[0]) +
    AllFrames(FlatStep(f, ops[0]).0, Regions(f, regions, ops[0]), Touched(f, pages, ops[0]), ops[1..])
  }

  /** The page faults of a run in which every page and every table is brought in once. */
  function FirstFaults(f: Flat, regions: set<(nat, nat)>, pages: set<(nat, nat)>, ops: seq<Op>): nat
    requires Legal(f.segs.Keys, ops)
    decreases |ops|
  {
    if ops == [] then 0 else
    FlatRunUnfolds(f, ops);
    (if ops[0].Rw? then Charge(f, regions, ops[0]) + NewPages(f, pages, ops[0]) else 0) +
    FirstFaults(FlatStep(f, ops[0]).0, Regions(f, regions, ops[0]), Touched(f, pages, ops[0]), ops[1..])
  }

  lemma RwFits(m: Machine, f: Flat, regions: set<(nat, nat)>, pages: set<(nat, nat)>, p: nat, va: Addr32, req: Request)
    requires CanAccess(m, va, p, req) && f.segs == m.segs && HasRegions(m.s, regions) && HasPages(m.s, pages)
    requires LegalOp(f.segs.Keys, Rw(p, va, req))
    requires CountFree(m.s.k.slots) >= Charge(f, regions, Rw(p, va, req)) + NewPages(f, pages, Rw(p, va, req))
    ensures Access(m, va, p, req).Some? && MInv(Access(m, va, p, req).value.0)
    ensures var m', op := Access(m, va, p, req).value.0, Rw(p, va, req);
            && HasPages(m'.s, Touched(f, pages, op)) && m'.s.k.swap == m.s.k.swap
            && CountFree(m'.s.k.slots) == CountFree(m.s.k.slots) - Charge(f, regions, op) - NewPages(f, pages, op)
            && m'.pageFaults == m.pageFaults + Charge(f, regions, op) + NewPages(f, pages, op)
  {
    hide SInv, TlbOk, Access, FlatEffect, TableAdded, MmuSpec.Hit, MmuSpec.Walk, CountReserved, CountFree, FindSegment;
    hide M, Resident, RunsOut, Covers;
    DirsAreSegs(m);
    AccessIsFlat(m, va, p, req);
    if Permits(m.segs[p], va, req.Write?) {
      FaultsAreCharges(m.s, regions, pages, p, va / PAGE_SIZE);
      AccessWithFree(m, va, p, req);
    }
  }

  lemma FaultsAreCharges(s: Space, regions: set<(nat, nat)>, pages: set<(nat, nat)>, p: nat, page: nat)
    requires SInv(s) && HasRegions(s, regions) && HasPages(s, pages) && p in s.dirs && page < PAGES
    ensures Faults(s, p, page) ==
            (if (p, page / ENTRIES) in regions then 0 else 1) + if (p, page) in pages then 0 else 1
  {
    hide SInv;
  }

  lemma AddFits(m: Machine, f: Flat, regions: set<(nat, nat)>, pages: set<(nat, nat)>, p: nat)
    requires MInv(m) && p !in m.s.dirs && LegalOp(f.segs.Keys, Add(p)) && f.segs == m.segs && HasPages(m.s, pages)
    requires CountFree(m.s.k.slots) >= 4
    ensures AddProcess(m, p).Some? && MInv(AddProcess(m, p).value)
    ensures var m' := AddProcess(m, p).value;
            && HasPages(m'.s, Touched(f, pages, Add(p))) && m'.s.k.swap == m.s.k.swap
            && CountFree(m'.s.k.slots) == CountFree(m.s.k.slots) - 4 && m'.pageFaults == m.pageFaults
  {
    hide SInv, TlbOk, Resident, AddSpace, CountFree, CountReserved, M, SpaceAdded, ZeroPage;
    DirsAreSegs(m);
    AddSpaceWithFree(m.s, p);
    AddProcessKeepsMemory(m, p);
  }

  lemma StepFits(m: Machine, f: Flat, regions: set<(nat, nat)>, pages: set<(nat, nat)>, op: Op)
    requires MInv(m) && LegalOp(m.segs.Keys, op) && f.segs == m.segs && HasRegions(m.s, regions) && HasPages(m.s, pages)
    requires CountFree(m.s.k.slots) >= Charge(f, regions, op) + NewPages(f, pages, op)
    ensures Step(m, op).Some? && MInv(Step(m, op).value.0)
    ensures var m' := Step(m, op).value.0;
            && HasPages(m'.s, Touched(f, pages, op)) && m'.s.k.swap == m.s.k.swap
            && CountFree(m'.s.k.slots) == CountFree(m.s.k.slots) - Charge(f, regions, op) - NewPages(f, pages, op)
            && m'.pageFaults ==
               m.pageFaults + if op.Rw? then Charge(f, regions, op) + NewPages(f, pages, op) else 0
  {
    hide SInv, TlbOk, Access, AddProcess, HasRegions, HasPages, CountFree, Permits;
    DirsAreSegs(m);
    match op {
      case Add(p) => AddFits(m, f, regions, pages, p);
      case Rw(p, va, req) => RwFits(m, f, regions, pages, p, va, req);
      case Resize(p, which, size, shrink) =>
    }
  }

  /** A run whose frames are all there pages nothing out, and faults in every table and every page once. */
  lemma {:induction false} RunFits(m: Machine, f: Flat, regions: set<(nat, nat)>, pages: set<(nat, nat)>, ops: seq<Op>)
    requires MInv(m) && Legal(m.segs.Keys, ops) && Agree(m, f) && HasRegions(m.s, regions) && HasPages(m.s, pages)
    requires f.segs == m.segs && CountFree(m.s.k.slots) >= AllFrames(f, regions, pages, ops)
    ensures |Run(m, ops).1| == |ops|
    ensures var m' := Run(m, ops).0;
            && m'.s.k.swap == m.s.k.swap && m'.pageFaults == m.pageFaults + FirstFaults(f, regions, pages, ops)
            && CountFree(m'.s.k.slots) == CountFree(m.s.k.slots) - AllFrames(f, regions, pages, ops)
    decreases |ops|
  {
    if ops != [] {
      hide MInv, Agree, Step, Run, FlatStep, HasRegions, HasPages, CountFree, CountReserved, Charge, NewPages;
      hide UsesFrames, LegalOp, Legal, Regions, Touched, FRAMES;
      LegalFirst(m.segs.Keys, ops);
      StepCharges(m, f, regions, ops[0]);
      StepFits(m, f, regions, pages, ops[0]);
      RunUnfolds(m, ops);
      FlatRunUnfolds(f, ops);
      StepRefines(m, f, ops[0]);
      var m', f' := Step(m, ops[0]).value.0, FlatStep(f, ops[0]).0;
      AgreeSegs(m', f');
      RunFits(m', f', Regions(f, regions, ops[0]), Touched(f, pages, ops[0]), ops[1..]);
    }
  }

  /**
    From the initial machine: a run whose directories, tables and touched pages fit in memory together is served to its
    end as by a flat memory, nothing is ever written to swap, and no page is faulted in twice.
   */
  lemma WorkingSetFits(ops: seq<Op>)
    requires Legal(Flat(map[], map[]).segs.Keys, ops) && AllFrames(Flat(map[], map[]), {}, {}, ops) <= FRAMES
    ensures MInv(Initial()) && Legal(Initial().segs.Keys, ops)
    ensures Run(Initial(), ops).1 == FlatRun(Flat(map[], map[]), ops).1
    ensures Run(Initial(), ops).0.s.k.swap == map[]
    ensures Run(Initial(), ops).0.pageFaults == FirstFaults(Flat(map[], map[]), {}, {}, ops)
  {
    hide MInv, Agree, HasRegions, HasPages, CountReserved, CountFree, AllFrames, FirstFaults, Run, FlatRun, Initial;
    InitialOk();
    NothingYet();
    AgreeSegs(Initial(), Flat(map[], map[]));
    RunFits(Initial(), Flat(map[], map[]), {}, {}, ops);
    RunRefinesFlatMemory(Initial(), Flat(map[], map[]), ops);
    FlatRunLength(Flat(map[], map[]), ops);
  }

  lemma NothingYet()
    ensures SInv(Initial().s) && HasPages(Initial().s, {}) && CountFree(Initial().s.k.slots) == FRAMES
    ensures Initial().s.k.swap == map[] && Initial().pageFaults == 0
  {
    hide KernelSpec.Inv, CountFree, TablesOk, HasRegions, Agree;
    InitialOk();
    AllFree(Initial().s.k.slots);
  }

  lemma {:induction false} AllFree(slots: seq<Slot>)
    requires forall i :: 0 <= i < |slots| ==> slots[i] == Free
    ensures CountFree(slots) == |slots|
  {
    if slots != [] {
      AllFree(slots[1..]);
    }
  }
}
