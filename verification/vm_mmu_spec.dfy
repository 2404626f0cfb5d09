/** What tlb.c and mmu.c do, as functions on values, and their refinement of a flat memory. */
module MmuSpec {
  import opened MachineData
  import opened KernelSpec
  import opened Wrappers

  const PAGES: nat := ENTRIES * ENTRIES

  /** The globals of kernel.c and the page directory of each process. */
  datatype Space = Space(k: Kernel, dirs: map<nat, nat>)

  /** The whole machine: `mmu` and the kernel below it. The TLB is the list from head to tail. */
  datatype Machine = Machine(
    s: Space,
    segs: map<nat, seq<Segment>>,
    tlb: seq<TlbItem>,
    pid: nat,
    pageFaults: nat,
    segFaults: nat,
    tlbMisses: nat)

  datatype Request = Read(count: nat) | Write(data: seq<Byte>) {
    function Size(): nat { if Read? then count else |data| }
  }

  datatype Outcome = Done | Bytes(data: seq<Byte>) | SegFault

  // ---- segments.c ----

  predicate Covers(s: Segment, va: Addr32) {
    if s.growsDown then s.end <= va <= s.start else s.start <= va <= s.end
  }

  /** The first segment that covers the address. */
  function FindSegment(segs: seq<Segment>, va: Addr32): (r: Option<Segment>)
    ensures r.None? <==> forall s :: s in segs ==> !Covers(s, va)
    ensures r.Some? ==> r.value in segs && Covers(r.value, va)
  {
    if segs == [] then None
    else if Covers(segs[0], va) then Some(segs[0])
    else FindSegment(segs[1..], va)
  }

  predicate Permits(segs: seq<Segment>, va: Addr32, write: bool) {
    var s := FindSegment(segs, va);
    s.Some? && if write then s.value.permissions.write else s.value.permissions.read
  }

  /** The lower end of a segment: the end it grows to, if it grows down. */
  function Low(s: Segment): Addr32 { if s.growsDown then s.end else s.start }

  function High(s: Segment): Addr32 { if s.growsDown then s.start else s.end }

  /**
    The segments are asked in order, and the first one that reaches from at or below the address to at or above it
    decides: by its write bit for a write, by its read bit for a read. Where none does, nothing is permitted.
   */
  lemma {:induction false} FirstSegmentDecides(segs: seq<Segment>, va: Addr32, i: nat)
    requires i <= |segs| && (forall j :: 0 <= j < i ==> !(Low(segs[j]) <= va <= High(segs[j])))
    requires i < |segs| ==> Low(segs[i]) <= va <= High(segs[i])
    ensures Permits(segs, va, true) <==> i < |segs| && segs[i].permissions.write
    ensures Permits(segs, va, false) <==> i < |segs| && segs[i].permissions.read
    decreases i
  {
    if i > 0 {
      assert forall j :: 0 <= j < i - 1 ==> segs[1..][j] == segs[j + 1];
      FirstSegmentDecides(segs[1..], va, i - 1);
    }
  }

  // ---- tlb.c ----

  function IndexOfPage(tlb: seq<TlbItem>, page: nat): (i: nat)
    ensures i <= |tlb|
    ensures i < |tlb| ==> tlb[i].page == page
    ensures forall j :: 0 <= j < i ==> tlb[j].page != page
  {
    if tlb == [] || tlb[0].page == page then 0 else 1 + IndexOfPage(tlb[1..], page)
  }

  /** Move the first node of the page to the head. */
  function Promote(tlb: seq<TlbItem>, page: nat): seq<TlbItem> {
    var i := IndexOfPage(tlb, page);
    if i < |tlb| then [tlb[i]] + tlb[..i] + tlb[i + 1..] else tlb
  }

  function Hit(tlb: seq<TlbItem>, page: nat): Option<EntryAddr> {
    var i := IndexOfPage(tlb, page);
    if i < |tlb| then tlb[i].entry else None
  }

  /** Add at the head; a full list loses its tail. */
  function Insert(tlb: seq<TlbItem>, item: TlbItem): seq<TlbItem> {
    [item] + if |tlb| >= MAX_NODES then tlb[..|tlb| - 1] else tlb
  }

  /** The node looked up is in front now, all others are in their old order; a full list loses its last node. */
  lemma MovedToFront(tlb: seq<TlbItem>, item: TlbItem, i: nat)
    requires i < |tlb| && (forall j :: 0 <= j < i ==> tlb[j].page != tlb[i].page)
    ensures var p := Promote(tlb, tlb[i].page);
            && |p| == |tlb| && p[0] == tlb[i]
            && (forall j :: 0 <= j < i ==> p[j + 1] == tlb[j]) && (forall j :: i < j < |tlb| ==> p[j] == tlb[j])
    ensures var r := Insert(tlb, item);
            && r[0] == item && |r| == (if |tlb| < MAX_NODES then |tlb| + 1 else |tlb|)
            && (forall j :: 0 < j < |r| ==> r[j] == tlb[j - 1])
  {
    assert IndexOfPage(tlb, tlb[i].page) == i;
  }

  lemma PromoteMovesOne(tlb: seq<TlbItem>, page: nat)
    ensures multiset(Promote(tlb, page)) == multiset(tlb) && |Promote(tlb, page)| == |tlb|
    ensures forall t :: t in Promote(tlb, page) <==> t in tlb
    ensures Hit(Promote(tlb, page), page) == Hit(tlb, page)
    ensures forall q :: q != page ==> Hit(Promote(tlb, page), q) == Hit(tlb, q)
  {
    var i := IndexOfPage(tlb, page);
    if i < |tlb| {
      assert tlb == tlb[..i] + [tlb[i]] + tlb[i + 1..];
      forall q | q != page
        ensures Hit(Promote(tlb, page), q) == Hit(tlb, q)
      {
        PromoteOther(tlb, i, q);
      }
    }
  }

  lemma {:induction false} PromoteOther(tlb: seq<TlbItem>, i: nat, q: nat)
    requires i < |tlb| && tlb[i].page != q
    ensures Hit([tlb[i]] + tlb[..i] + tlb[i + 1..], q) == Hit(tlb, q)
  {
    var p := [tlb[i]] + tlb[..i] + tlb[i + 1..];
    assert forall k :: 0 <= k < |p| ==> p[k] == tlb[if k == 0 then i else if k <= i then k - 1 else k];
    var j := IndexOfPage(tlb, q);
    if j < |tlb| {
      assert p[if j < i then j + 1 else j] == tlb[j];
    }
  }

  // ---- the two-level walk and the invariant ----

  predicate HasDir(s: Space, p: nat) {
    p in s.dirs && s.dirs[p] < |s.k.frames| && s.k.frames[s.dirs[p]].Table?
  }

  function Pde(s: Space, p: nat, i: nat): Entry
    requires HasDir(s, p) && i < ENTRIES
  {
    EntryAt(s.k, At(s.dirs[p], i))
  }

  /** The entry the two-level walk leads to, if its table exists. */
  function Walk(s: Space, p: nat, page: nat): Option<EntryAddr>
    requires HasDir(s, p) && page < PAGES
  {
    var pde := Pde(s, p, page / ENTRIES);
    if pde.present then Some(At(pde.base, page % ENTRIES)) else None
  }

  ghost predicate DirsOk(s: Space) {
    && Inv(s.k, s.dirs.Values)
    && (forall p :: p in s.dirs ==> s.dirs[p] in s.dirs.Values && HasDir(s, p))
    && (forall p, q :: p in s.dirs && q in s.dirs && s.dirs[p] == s.dirs[q] ==> p == q)
  }

  ghost predicate TablesOk(s: Space)
    requires DirsOk(s)
  {
    && (forall p, i :: p in s.dirs && 0 <= i < ENTRIES && Pde(s, p, i).present ==>
          IsTable(s.k, s.dirs.Values, Pde(s, p, i).base))
    && (forall p, i, q, j ::
          && p in s.dirs && 0 <= i < ENTRIES && Pde(s, p, i).present
          && q in s.dirs && 0 <= j < ENTRIES && Pde(s, q, j).present
          && Pde(s, p, i).base == Pde(s, q, j).base
          ==> p == q && i == j)
  }

  /** Frames, directories and tables agree: every table is entered in one directory, once. */
  ghost predicate SInv(s: Space) {
    DirsOk(s) && TablesOk(s)
  }

  /** The TLB is bounded, and each of its entries is the one the walk of the current process gives. */
  ghost predicate TlbOk(s: Space, pid: nat, tlb: seq<TlbItem>)
    requires SInv(s)
  {
    && 1 <= |tlb| <= MAX_NODES
    && (forall t :: t in tlb ==> t.page < PAGES)
    && (forall t :: t in tlb && t.entry.Some? ==> pid in s.dirs && Walk(s, pid, t.page) == t.entry)
  }

  ghost predicate MInv(m: Machine) {
    SInv(m.s) && m.s.dirs.Keys == m.segs.Keys && TlbOk(m.s, m.pid, m.tlb)
  }

  /** The meaning of the machine: the bytes of each page of each process. */
  ghost function M(s: Space, p: nat, page: nat): Page
    requires SInv(s) && p in s.dirs && page < PAGES
  {
    match Walk(s, p, page)
    case None => ZeroPage()
    case Some(a) => WalkIsPte(s, p, page); PageOf(s.k, s.dirs.Values, a)
  }

  lemma WalkIsPte(s: Space, p: nat, page: nat)
    requires SInv(s) && p in s.dirs && page < PAGES
    ensures Walk(s, p, page).Some? ==> IsPte(s.k, s.dirs.Values, Walk(s, p, page).value)
  {
  }

  /** Two pages of the machine never share an entry. */
  lemma WalkInjective(s: Space, p: nat, x: nat, q: nat, y: nat)
    requires SInv(s) && p in s.dirs && q in s.dirs && x < PAGES && y < PAGES
    requires Walk(s, p, x).Some? && Walk(s, p, x) == Walk(s, q, y)
    ensures p == q && x == y
  {
    assert x == x / ENTRIES * ENTRIES + x % ENTRIES && y == y / ENTRIES * ENTRIES + y % ENTRIES;
  }

  ghost predicate SameWalks(s0: Space, s1: Space)
    requires SInv(s0) && SInv(s1)
  {
    s1.dirs == s0.dirs && (forall p, x :: p in s0.dirs && 0 <= x < PAGES ==> Walk(s1, p, x) == Walk(s0, p, x))
  }

  ghost predicate SameMemory(s0: Space, s1: Space)
    requires SInv(s0) && SInv(s1)
  {
    s1.dirs == s0.dirs && (forall p, x :: p in s0.dirs && 0 <= x < PAGES ==> M(s1, p, x) == M(s0, p, x))
  }

  /** The page tables of `s'` are those of `s` and the one for the 4 MB around a page. */
  ghost predicate TableAdded(s: Space, s': Space, p: nat, page: nat)
    requires SInv(s) && SInv(s') && s'.dirs == s.dirs
  {
    forall q, x :: q in s.dirs && 0 <= x < PAGES ==>
                     (Walk(s', q, x).Some? <==> Walk(s, q, x).Some? || (q == p && x / ENTRIES == page / ENTRIES))
  }

  lemma NoTableAdded(s: Space, p: nat, page: nat)
    requires SInv(s) && HasDir(s, p) && page < PAGES && Walk(s, p, page).Some?
    ensures TableAdded(s, s, p, page)
  {
  }

  lemma TableAddedOnce(s0: Space, s1: Space, s2: Space, p: nat, page: nat)
    requires SInv(s0) && SInv(s1) && SInv(s2) && s1.dirs == s0.dirs && s2.dirs == s0.dirs
    requires (SameWalks(s0, s1) && TableAdded(s1, s2, p, page)) || (TableAdded(s0, s1, p, page) && SameWalks(s1, s2))
    ensures TableAdded(s0, s2, p, page)
  {
  }

  lemma SameMemoryTrans(s0: Space, s1: Space, s2: Space)
    requires SInv(s0) && SInv(s1) && SInv(s2) && SameMemory(s0, s1) && SameMemory(s1, s2)
    ensures SameMemory(s0, s2)
  {
  }

  /** A kernel step that keeps directories and the pages of all entries keeps the memory and the walks. */
  lemma KernelStepKeepsMemory(s: Space, k': Kernel)
    requires SInv(s) && Inv(k', s.dirs.Values) && SamePages(s.k, k', s.dirs.Values)
    ensures SInv(Space(k', s.dirs)) && SameMemory(s, Space(k', s.dirs)) && SameWalks(s, Space(k', s.dirs))
  {
    var s' := Space(k', s.dirs);
    assert forall p :: p in s.dirs ==> HasDir(s', p);
    assert forall p, i :: p in s.dirs && 0 <= i < ENTRIES ==> Pde(s', p, i) == Pde(s, p, i);
    forall p, i | p in s.dirs && 0 <= i < ENTRIES && Pde(s', p, i).present
      ensures IsTable(k', s.dirs.Values, Pde(s', p, i).base)
    {
      assert IsPte(s.k, s.dirs.Values, At(Pde(s, p, i).base, 0));
      assert IsPte(k', s.dirs.Values, At(Pde(s, p, i).base, 0));
    }
    forall p, x | p in s.dirs && 0 <= x < PAGES
      ensures Walk(s', p, x) == Walk(s, p, x)
    {
      assert Pde(s', p, x / ENTRIES) == Pde(s, p, x / ENTRIES);
    }
    forall p, x | p in s.dirs && 0 <= x < PAGES
      ensures M(s', p, x) == M(s, p, x)
    {
      WalkIsPte(s, p, x);
    }
  }

  lemma TlbStaysOk(s: Space, s': Space, pid: nat, tlb: seq<TlbItem>)
    requires SInv(s) && SInv(s') && TlbOk(s, pid, tlb) && s.dirs.Keys <= s'.dirs.Keys
    requires forall p, x :: p in s.dirs && 0 <= x < PAGES && Walk(s, p, x).Some? ==> Walk(s', p, x) == Walk(s, p, x)
    ensures TlbOk(s', pid, tlb)
  {
  }

  // ---- mmu_rw_from_virtual_address, step by step ----

  /** The page table of a page, created on a page fault if its directory entry is not present. */
  function FaultTable(s: Space, p: nat, page: nat, user: bool): Option<(Space, EntryAddr)>
    requires SInv(s) && HasDir(s, p) && page < PAGES
  {
    var pde := Pde(s, p, page / ENTRIES);
    if pde.present then Some((s, At(pde.base, page % ENTRIES))) else
    AskForTable(s.k, s.dirs.Values);
    match Ask(s.k, Reserved)
    case None => None
    case Some((k1, i)) =>
      var e := pde.(base := i, present := true, readWrite := true, userSupervisor := user);
      Some((Space(SetEntry(k1, At(s.dirs[p], page / ENTRIES), e), s.dirs), At(i, page % ENTRIES)))
  }

  /** A page fault on a directory entry changes no page: it only creates an empty table. */
  lemma FaultTableKeepsMemory(s: Space, p: nat, page: nat, user: bool)
    requires SInv(s) && HasDir(s, p) && page < PAGES
    ensures FaultTable(s, p, page, user).None? <==> Walk(s, p, page).None? && CountReserved(s.k.slots) == FRAMES
    ensures FaultTable(s, p, page, user).Some? ==>
              var (s', a) := FaultTable(s, p, page, user).value;
              && SInv(s') && SameMemory(s, s') && Walk(s', p, page) == Some(a) && TableAdded(s, s', p, page)
              && (forall q, x :: q in s.dirs && 0 <= x < PAGES && Walk(s, q, x).Some? ==>
                    Walk(s', q, x) == Walk(s, q, x))
              && CountReserved(s'.k.slots) == CountReserved(s.k.slots) + (if Walk(s, p, page).None? then 1 else 0)
              && (Walk(s, p, page).Some? ==> s' == s)
              && IsPte(s'.k, s.dirs.Values, a)
              && (Walk(s, p, page).None? ==>
                    forall j :: 0 <= j < ENTRIES ==>
                        EntryAt(s'.k, At(a.frame, j)) == ZERO_ENTRY && At(a.frame, j) !in s'.k.swap)
  {
    var pde := Pde(s, p, page / ENTRIES);
    if pde.present {
      WalkIsPte(s, p, page);
      NoTableAdded(s, p, page);
    } else {
      AskForTable(s.k, s.dirs.Values);
      if Ask(s.k, Reserved).Some? {
        var (k1, i) := Ask(s.k, Reserved).value;
        KernelStepKeepsMemory(s, k1);
        var s1 := Space(k1, s.dirs);
        forall q, j | q in s.dirs && 0 <= j < ENTRIES && Pde(s1, q, j).present
          ensures Pde(s1, q, j).base != i
        {
          assert Pde(s, q, j) == Pde(s1, q, j);
        }
        assert Pde(s1, p, page / ENTRIES) == pde;
        InstallTable(s1, p, page, i, pde.(base := i, present := true, readWrite := true, userSupervisor := user));
        SameMemoryTrans(s, s1, FaultTable(s, p, page, user).value.0);
        TableAddedOnce(s, s1, FaultTable(s, p, page, user).value.0, p, page);
      }
    }
  }

  /** Entering an empty, unused table into the directory of a process. */
  lemma InstallTable(s: Space, p: nat, page: nat, i: nat, e: Entry)
    requires SInv(s) && HasDir(s, p) && page < PAGES && !Pde(s, p, page / ENTRIES).present
    requires IsTable(s.k, s.dirs.Values, i) && e.present && e.base == i
    requires forall j :: 0 <= j < ENTRIES ==> EntryAt(s.k, At(i, j)) == ZERO_ENTRY && At(i, j) !in s.k.swap
    requires forall q, j :: q in s.dirs && 0 <= j < ENTRIES && Pde(s, q, j).present ==> Pde(s, q, j).base != i
    ensures var s' := Space(SetEntry(s.k, At(s.dirs[p], page / ENTRIES), e), s.dirs);
            && SInv(s') && SameMemory(s, s') && Walk(s', p, page) == Some(At(i, page % ENTRIES))
            && TableAdded(s, s', p, page)
            && (forall q, x :: q in s.dirs && 0 <= x < PAGES && Walk(s, q, x).Some? ==> Walk(s', q, x) == Walk(s, q, x))
            && IsPte(s'.k, s.dirs.Values, At(i, page % ENTRIES))
            && (forall j :: 0 <= j < ENTRIES ==> EntryAt(s'.k, At(i, j)) == ZERO_ENTRY)
            && s'.k.slots == s.k.slots && s'.k.swap == s.k.swap
  {
    var dirs := s.dirs.Values;
    var d := At(s.dirs[p], page / ENTRIES);
    var s' := Space(SetEntry(s.k, d, e), s.dirs);
    DirectoryWriteKeepsPages(s.k, dirs, d, e);
    InstalledWalk(s, p, page, i, e);
    assert forall f :: IsTable(s.k, dirs, f) ==> IsTable(s'.k, dirs, f);
    assert TablesOk(s');
    assert IsPte(s.k, dirs, At(i, page % ENTRIES));
    forall q, x | q in s.dirs && 0 <= x < PAGES
      ensures M(s', q, x) == M(s, q, x)
    {
      WalkIsPte(s, q, x);
      if q == p && x / ENTRIES == page / ENTRIES {
        assert IsPte(s.k, dirs, At(i, x % ENTRIES));
      }
    }
  }

  lemma InstalledWalk(s: Space, p: nat, page: nat, i: nat, e: Entry)
    requires SInv(s) && HasDir(s, p) && page < PAGES && !Pde(s, p, page / ENTRIES).present && e.present && e.base == i
    ensures var s' := Space(SetEntry(s.k, At(s.dirs[p], page / ENTRIES), e), s.dirs);
            && (forall q :: q in s.dirs ==> HasDir(s', q))
            && (forall q, j :: q in s.dirs && 0 <= j < ENTRIES ==>
                  Pde(s', q, j) == if q == p && j == page / ENTRIES then e else Pde(s, q, j))
            && (forall q, x :: q in s.dirs && 0 <= x < PAGES ==>
                  Walk(s', q, x) == if q == p &&
                      x / ENTRIES == page / ENTRIES then Some(At(i, x % ENTRIES)) else Walk(s, q, x))
  {
    var s' := Space(SetEntry(s.k, At(s.dirs[p], page / ENTRIES), e), s.dirs);
    assert forall q, j :: q in s.dirs && 0 <= j < ENTRIES ==>
        Pde(s', q, j) == if q == p && j == page / ENTRIES then e else Pde(s, q, j);
    forall q, x | q in s.dirs && 0 <= x < PAGES
      ensures Walk(s', q, x) == if q == p &&
              x / ENTRIES == page / ENTRIES then Some(At(i, x % ENTRIES)) else Walk(s, q, x)
    {
      assert Pde(s', q, x / ENTRIES) == if q == p && x / ENTRIES == page / ENTRIES then e else Pde(s, q, x / ENTRIES);
    }
  }

  /** The page of a table entry, brought in on a page fault if the entry is not present. */
  function FaultPage(s: Space, a: EntryAddr): Option<Space>
    requires SInv(s) && IsPte(s.k, s.dirs.Values, a)
  {
    if EntryAt(s.k, a).present then Some(s) else
    LoadKeepsPages(s.k, s.dirs.Values, a);
    match Load(s.k, a)
    case None => None
    case Some(k1) => Some(Space(k1, s.dirs))
  }

  /** A page fault on a table entry changes no page: an evicted page comes back from swap. */
  lemma FaultPageKeepsMemory(s: Space, a: EntryAddr)
    requires SInv(s) && IsPte(s.k, s.dirs.Values, a)
    ensures FaultPage(s, a).None? <==> !EntryAt(s.k, a).present && CountReserved(s.k.slots) == FRAMES
    ensures FaultPage(s, a).Some? ==>
              var s' := FaultPage(s, a).value;
              && SInv(s') && SameMemory(s, s') && SameWalks(s, s')
              && IsPte(s'.k, s.dirs.Values, a) && EntryAt(s'.k, a).present
              && CountReserved(s'.k.slots) == CountReserved(s.k.slots)
              && (forall b :: IsPte(s.k, s.dirs.Values, b) && !EntryAt(s.k, b).present && b != a ==>
                                IsPte(s'.k, s.dirs.Values, b) && EntryAt(s'.k, b) == EntryAt(s.k, b) &&
                                    (b in s'.k.swap <==> b in s.k.swap))
  {
    if EntryAt(s.k, a).present {
    } else {
      LoadKeepsPages(s.k, s.dirs.Values, a);
      if Load(s.k, a).Some? {
        KernelStepKeepsMemory(s, Load(s.k, a).value);
      }
    }
  }

  /** The store of a write and the marks set in the entry. */
  function Transfer(s: Space, a: EntryAddr, off: nat, req: Request): (Space, Outcome)
    requires SInv(s) && IsPte(s.k, s.dirs.Values, a) && EntryAt(s.k, a).present && off + req.Size() <= PAGE_SIZE
  {
    var e := EntryAt(s.k, a);
    var bytes := s.k.frames[e.base].bytes;
    var k1 := if req.Read? then s.k
              else Kernel(s.k.frames[e.base := Data(Overlay(bytes, off, req.data))], s.k.slots, s.k.swap);
    (Space(SetEntry(k1, a, e.(accessed := true, dirty := e.dirty || req.Write?)), s.dirs),
     if req.Read? then Bytes(bytes[off..off + req.count]) else Done)
  }

  /**
    What a permitted request does to the memory and answers: reads give the page's bytes, writes change the addressed
    slice of that page only.
   */
  ghost predicate FlatEffect(s: Space, s': Space, out: Outcome, p: nat, page: nat, off: nat, req: Request)
    requires SInv(s) && SInv(s') && p in s.dirs && page < PAGES && off + req.Size() <= PAGE_SIZE
  {
    && s'.dirs == s.dirs
    && out == (if req.Read? then Bytes(M(s, p, page)[off..off + req.count]) else Done)
    && (forall q, x :: q in s.dirs && 0 <= x < PAGES ==>
                         M(s', q, x) == if req.Write? && q == p &&
                             x == page then Overlay(M(s, q, x), off, req.data) else M(s, q, x))
  }

  lemma FlatAfterSame(s: Space, s1: Space, s2: Space, out: Outcome, p: nat, page: nat, off: nat, req: Request)
    requires SInv(s) && SInv(s1) && SInv(s2) && p in s.dirs && page < PAGES && off + req.Size() <= PAGE_SIZE
    requires SameMemory(s, s1) && FlatEffect(s1, s2, out, p, page, off, req)
    ensures FlatEffect(s, s2, out, p, page, off, req)
  {
  }

  lemma TransferIsFlat(s: Space, a: EntryAddr, p: nat, page: nat, off: nat, req: Request)
    requires SInv(s) && HasDir(s, p) && page < PAGES && Walk(s, p, page) == Some(a)
    requires IsPte(s.k, s.dirs.Values, a) && EntryAt(s.k, a).present && off + req.Size() <= PAGE_SIZE
    ensures var (s', out) := Transfer(s, a, off, req);
            && SInv(s') && FlatEffect(s, s', out, p, page, off, req) && SameWalks(s, s')
            && s'.k.slots == s.k.slots && EntryAt(s'.k, a).present
  {
    var e := EntryAt(s.k, a);
    var bytes := s.k.frames[e.base].bytes;
    var s1 :=
      if req.Read? then s
      else Space(Kernel(s.k.frames[e.base := Data(Overlay(bytes, off, req.data))], s.k.slots, s.k.swap), s.dirs);
    if req.Write? {
      StoreIsFlat(s, a, p, page, Overlay(bytes, off, req.data));
    }
    var e2 := e.(accessed := true, dirty := e.dirty || req.Write?);
    MarkKeepsPages(s1.k, s.dirs.Values, a, e2);
    KernelStepKeepsMemory(s1, SetEntry(s1.k, a, e2));
  }

  lemma StoreIsFlat(s: Space, a: EntryAddr, p: nat, page: nat, bytes: Page)
    requires SInv(s) && HasDir(s, p) && page < PAGES && Walk(s, p, page) == Some(a)
    requires IsPte(s.k, s.dirs.Values, a) && EntryAt(s.k, a).present
    ensures var s' := Space(Kernel(s.k.frames[EntryAt(s.k, a).base := Data(bytes)], s.k.slots, s.k.swap), s.dirs);
            && SInv(s') && SameWalks(s, s') && IsPte(s'.k, s.dirs.Values, a) && EntryAt(s'.k, a) == EntryAt(s.k, a)
            && (forall q, x :: q in s.dirs && 0 <= x < PAGES ==>
                  M(s', q, x) == if q == p && x == page then bytes else M(s, q, x))
  {
    var dirs := s.dirs.Values;
    var s' := Space(Kernel(s.k.frames[EntryAt(s.k, a).base := Data(bytes)], s.k.slots, s.k.swap), s.dirs);
    StoreChangesOnePage(s.k, dirs, a, bytes);
    assert forall q :: q in s.dirs ==> HasDir(s', q);
    assert forall q, i :: q in s.dirs && 0 <= i < ENTRIES ==> Pde(s', q, i) == Pde(s, q, i);
    assert forall f :: IsTable(s'.k, dirs, f) <==> IsTable(s.k, dirs, f);
    forall q, x | q in s.dirs && 0 <= x < PAGES
      ensures Walk(s', q, x) == Walk(s, q, x)
    {
      assert Pde(s', q, x / ENTRIES) == Pde(s, q, x / ENTRIES);
    }
    forall q, x | q in s.dirs && 0 <= x < PAGES
      ensures M(s', q, x) == if q == p && x == page then bytes else M(s, q, x)
    {
      WalkIsPte(s, q, x);
      if Walk(s, q, x) == Some(a) {
        WalkInjective(s, q, x, p, page);
      }
    }
  }
}
