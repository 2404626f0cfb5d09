/** What kernel.c does to its globals, as functions of their values, and what that means for the pages they hold. */
module KernelSpec {
  import opened MachineData
  import opened Wrappers

  /** `physical_memory`, `entry_mapping` and the swap directory. */
  datatype Kernel = Kernel(frames: seq<Frame>, slots: seq<Slot>, swap: map<EntryAddr, Page>)

  ghost predicate IsTable(k: Kernel, dirs: set<nat>, f: nat) {
    f < FRAMES && f < |k.slots| && k.slots[f] == Reserved && f !in dirs
  }

  ghost predicate Shaped(k: Kernel, dirs: set<nat>) {
    && |k.frames| == FRAMES && |k.slots| == FRAMES
    && (forall i :: 0 <= i < FRAMES && k.slots[i] == Reserved ==> k.frames[i].Table?)
    && (forall d :: d in dirs ==> d < FRAMES && k.slots[d] == Reserved)
  }

  function EntryAt(k: Kernel, a: EntryAddr): Entry
    requires a.frame < |k.frames| && k.frames[a.frame].Table? && a.index < ENTRIES
  {
    k.frames[a.frame].entries[a.index]
  }

  function SetEntry(k: Kernel, a: EntryAddr, e: Entry): Kernel
    requires a.frame < |k.frames| && k.frames[a.frame].Table? && a.index < ENTRIES
  {
    Kernel(k.frames[a.frame := Table(k.frames[a.frame].entries[a.index := e])], k.slots, k.swap)
  }

  /** An entry of a page table, not of a directory. */
  ghost predicate IsPte(k: Kernel, dirs: set<nat>, a: EntryAddr) {
    IsTable(k, dirs, a.frame) && a.index < ENTRIES
  }

  ghost predicate Maps(k: Kernel, dirs: set<nat>, a: EntryAddr, i: nat)
    requires Shaped(k, dirs)
  {
    IsPte(k, dirs, a) && EntryAt(k, a).present && EntryAt(k, a).base == i
  }

  /** Frame ownership: a frame is owned by an entry exactly when that entry is present and maps it. */
  ghost predicate Inv(k: Kernel, dirs: set<nat>) {
    && Shaped(k, dirs)
    && (forall i :: 0 <= i < FRAMES && k.slots[i].Owner? ==> k.frames[i].Data? && Maps(k, dirs, k.slots[i].pte, i))
    && (forall a :: IsPte(k, dirs, a) && EntryAt(k, a).present ==>
                      EntryAt(k, a).base < FRAMES && k.slots[EntryAt(k, a).base] == Owner(a))
    && (forall a :: a in k.swap ==> IsPte(k, dirs, a))
  }

  /** The contents of the page an entry stands for: resident, swapped out, or never touched. */
  ghost function PageOf(k: Kernel, dirs: set<nat>, a: EntryAddr): Page
    requires Inv(k, dirs) && IsPte(k, dirs, a)
  {
    if EntryAt(k, a).present then k.frames[EntryAt(k, a).base].bytes
    else if a in k.swap then k.swap[a]
    else ZeroPage()
  }

  /** `k1` has all tables and directories of `k0`, and every page table entry stands for the same page. */
  ghost predicate SamePages(k0: Kernel, k1: Kernel, dirs: set<nat>)
    requires Inv(k0, dirs) && Inv(k1, dirs)
  {
    && (forall d :: d in dirs ==> k1.frames[d] == k0.frames[d])
    && (forall a :: IsPte(k0, dirs, a) ==> IsPte(k1, dirs, a) && PageOf(k1, dirs, a) == PageOf(k0, dirs, a))
  }

  lemma SamePagesTrans(k0: Kernel, k1: Kernel, k2: Kernel, dirs: set<nat>)
    requires Inv(k0, dirs) && Inv(k1, dirs) && Inv(k2, dirs) && SamePages(k0, k1, dirs) && SamePages(k1, k2, dirs)
    ensures SamePages(k0, k2, dirs)
  {
  }

  // ---- ask_kernel_for_frame ----

  function FirstFree(slots: seq<Slot>): (i: nat)
    ensures i <= |slots|
    ensures i < |slots| ==> slots[i] == Free
    ensures forall j :: 0 <= j < i ==> slots[j] != Free
  {
    if slots == [] || slots[0] == Free then 0 else 1 + FirstFree(slots[1..])
  }

  /** The first frame that is neither reserved nor already owned by the asking entry. */
  function FirstVictim(slots: seq<Slot>, want: Slot): (i: nat)
    ensures i <= |slots|
    ensures i < |slots| ==> slots[i] != Reserved && slots[i] != want
    ensures forall j :: 0 <= j < i ==> slots[j] == Reserved || slots[j] == want
  {
    if slots == [] || (slots[0] != Reserved && slots[0] != want) then 0 else 1 + FirstVictim(slots[1..], want)
  }

  /** Record the owner of frame `i` and zero the frame. */
  function Grant(k: Kernel, i: nat, want: Slot): Kernel
    requires i < |k.frames| && i < |k.slots|
  {
    Kernel(k.frames[i := if want == Reserved then Table(ZeroTable()) else Data(ZeroPage())], k.slots[i := want], k.swap)
  }

  /** What makes an eviction possible: frames and owners agree. */
  ghost predicate Evictable(k: Kernel, v: nat) {
    && v < |k.slots| && k.slots[v].Owner?
    && (var a := k.slots[v].pte;
        && a.frame < |k.frames| && k.frames[a.frame].Table? && a.index < ENTRIES
        && EntryAt(k, a).base < |k.frames| && k.frames[EntryAt(k, a).base].Data?)
  }

  ghost predicate AllEvictable(k: Kernel) {
    && |k.frames| == |k.slots| == FRAMES
    && (forall v :: 0 <= v < FRAMES && k.slots[v].Owner? ==> Evictable(k, v))
  }

  /** Write the page of frame `v`'s owner to swap, clear the owner's entry and free the frame. */
  function Evict(k: Kernel, v: nat): Kernel
    requires Evictable(k, v)
  {
    var a := k.slots[v].pte;
    var e := EntryAt(k, a);
    var written := Kernel(k.frames, k.slots[v := Free], k.swap[a := k.frames[e.base].bytes]);
    SetEntry(written, a, e.(present := false, base := 0))
  }

  /** A free frame, made by eviction if there is none; None when only reserved frames are left. */
  function Reclaim(k: Kernel, want: Slot): (r: Option<(Kernel, nat)>)
    requires AllEvictable(k)
    ensures r.Some? ==> r.value.1 < FRAMES && |r.value.0.frames| == |r.value.0.slots| == FRAMES
  {
    var i := FirstFree(k.slots);
    if i < FRAMES then Some((k, i)) else
    var v := FirstVictim(k.slots, want);
    if v < FRAMES then (assert k.slots[v].Owner?; Some((Evict(k, v), v))) else None
  }

  lemma InvEvictable(k: Kernel, dirs: set<nat>)
    requires Inv(k, dirs)
    ensures AllEvictable(k)
  {
    forall v | 0 <= v < FRAMES && k.slots[v].Owner?
      ensures Evictable(k, v)
    {
      assert Maps(k, dirs, k.slots[v].pte, v);
    }
  }

  /** Eviction keeps frame ownership and every page. */
  lemma EvictKeepsPages(k: Kernel, dirs: set<nat>, v: nat)
    requires Inv(k, dirs) && v < FRAMES && k.slots[v].Owner? && Evictable(k, v)
    ensures Inv(Evict(k, v), dirs) && SamePages(k, Evict(k, v), dirs)
    ensures Evict(k, v).slots == k.slots[v := Free]
    ensures forall a :: IsPte(k, dirs, a) && !EntryAt(k, a).present ==>
                          EntryAt(Evict(k, v), a) == EntryAt(k, a) && (a in Evict(k, v).swap <==> a in k.swap)
  {
    var a := k.slots[v].pte;
    var k' := Evict(k, v);
    assert Maps(k, dirs, a, v);
    assert forall f :: IsTable(k', dirs, f) <==> IsTable(k, dirs, f);
    forall b | IsPte(k', dirs, b)
      ensures b != a ==> EntryAt(k', b) == EntryAt(k, b)
      ensures !EntryAt(k', a).present
    {
    }
    forall i | 0 <= i < FRAMES && k'.slots[i].Owner?
      ensures k'.frames[i].Data? && Maps(k', dirs, k'.slots[i].pte, i)
    {
      assert Maps(k, dirs, k.slots[i].pte, i);
    }
    forall b | IsPte(k, dirs, b)
      ensures IsPte(k', dirs, b)
    {
    }
    assert Inv(k', dirs);
    forall b | IsPte(k, dirs, b)
      ensures PageOf(k', dirs, b) == PageOf(k, dirs, b)
    {
    }
  }

  /** A free frame can become a page table: it has no present entry and nothing of it is in swap. */
  lemma NewTableKeepsPages(k: Kernel, dirs: set<nat>, i: nat)
    requires Inv(k, dirs) && i < FRAMES && k.slots[i] == Free
    ensures var k' := Grant(k, i, Reserved);
            && Inv(k', dirs) && SamePages(k, k', dirs) && IsTable(k', dirs, i)
            && (forall j :: 0 <= j < ENTRIES ==> EntryAt(k', At(i, j)) == ZERO_ENTRY && At(i, j) !in k'.swap)
  {
    var k' := Grant(k, i, Reserved);
    assert forall f :: IsTable(k', dirs, f) <==> f == i || IsTable(k, dirs, f);
    forall x | 0 <= x < FRAMES && k'.slots[x].Owner?
      ensures k'.frames[x].Data? && Maps(k', dirs, k'.slots[x].pte, x)
    {
      assert Maps(k, dirs, k.slots[x].pte, x);
    }
    forall a | IsPte(k', dirs, a) && EntryAt(k', a).present
      ensures EntryAt(k', a).base < FRAMES && k'.slots[EntryAt(k', a).base] == Owner(a)
    {
      assert IsPte(k, dirs, a);
    }
    assert forall j :: 0 <= j < ENTRIES ==> !IsPte(k, dirs, At(i, j));
  }

  /** A free frame can become a page directory. */
  lemma NewDirectoryKeepsPages(k: Kernel, dirs: set<nat>, i: nat)
    requires Inv(k, dirs) && i < FRAMES && k.slots[i] == Free
    ensures var k' := Grant(k, i, Reserved);
            && Inv(k', dirs + {i})
            && (forall d :: d in dirs ==> k'.frames[d] == k.frames[d])
            && (forall a :: IsPte(k, dirs, a) ==>
                  IsPte(k', dirs + {i}, a) && PageOf(k', dirs + {i}, a) == PageOf(k, dirs, a))
  {
    var k' := Grant(k, i, Reserved);
    var dirs' := dirs + {i};
    assert forall f :: IsTable(k', dirs', f) <==> IsTable(k, dirs, f);
    forall x | 0 <= x < FRAMES && k'.slots[x].Owner?
      ensures k'.frames[x].Data? && Maps(k', dirs', k'.slots[x].pte, x)
    {
      assert Maps(k, dirs, k.slots[x].pte, x);
    }
    forall a | IsPte(k', dirs', a) && EntryAt(k', a).present
      ensures EntryAt(k', a).base < FRAMES && k'.slots[EntryAt(k', a).base] == Owner(a)
    {
      assert IsPte(k, dirs, a);
    }
    forall a | a in k'.swap
      ensures IsPte(k', dirs', a)
    {
      assert IsPte(k, dirs, a);
    }
    assert Inv(k', dirs');
  }

  /** `ask_kernel_for_frame`: a zeroed frame recorded for its owner. */
  function Ask(k: Kernel, want: Slot): Option<(Kernel, nat)>
    requires AllEvictable(k)
  {
    match Reclaim(k, want)
    case None => None
    case Some((k1, i)) => Some((Grant(k1, i, want), i))
  }

  /** Fill the granted frame `i` from swap if the page was evicted before, and map it. */
  function Fill(g: Kernel, i: nat, a: EntryAddr): Kernel
    requires i < |g.frames| && i != a.frame
    requires a.frame < |g.frames| && g.frames[a.frame].Table? && a.index < ENTRIES
  {
    var loaded := if a in g.swap then Kernel(g.frames[i := Data(g.swap[a])], g.slots, g.swap) else g;
    SetEntry(loaded, a, EntryAt(g, a).(base := i, present := true, readWrite := true, userSupervisor := true))
  }

  function PageIn(k: Kernel, i: nat, a: EntryAddr): Kernel
    requires i < |k.frames| && i < |k.slots| && i != a.frame
    requires a.frame < |k.frames| && k.frames[a.frame].Table? && a.index < ENTRIES
  {
    Fill(Grant(k, i, Owner(a)), i, a)
  }

  /** Bringing a page in keeps frame ownership and every page, the loaded one included. */
  lemma PageInKeepsPages(k: Kernel, dirs: set<nat>, i: nat, a: EntryAddr)
    requires Inv(k, dirs) && i < FRAMES && k.slots[i] == Free
    requires IsPte(k, dirs, a) && !EntryAt(k, a).present
    ensures var k' := PageIn(k, i, a); Inv(k', dirs) && SamePages(k, k', dirs) && Maps(k', dirs, a, i)
  {
    var k' := PageIn(k, i, a);
    PageInShape(k, dirs, i, a);
    forall x | 0 <= x < FRAMES && k'.slots[x].Owner?
      ensures k'.frames[x].Data? && Maps(k', dirs, k'.slots[x].pte, x)
    {
      if x != i {
        assert Maps(k, dirs, k.slots[x].pte, x);
      }
    }
    assert Inv(k', dirs);
    forall b | IsPte(k, dirs, b)
      ensures PageOf(k', dirs, b) == PageOf(k, dirs, b)
    {
      if b != a && EntryAt(k, b).present {
        assert EntryAt(k, b).base != i;
      }
    }
  }

  lemma PageInShape(k: Kernel, dirs: set<nat>, i: nat, a: EntryAddr)
    requires Inv(k, dirs) && i < FRAMES && k.slots[i] == Free
    requires IsPte(k, dirs, a) && !EntryAt(k, a).present
    ensures var k' := PageIn(k, i, a);
            && Shaped(k', dirs) && k'.slots == k.slots[i := Owner(a)] && k'.swap == k.swap
            && k'.frames[i] == Data(if a in k.swap then k.swap[a] else ZeroPage())
            && (forall x :: 0 <= x < FRAMES && x != i && x != a.frame ==> k'.frames[x] == k.frames[x])
            && (forall b :: IsPte(k', dirs, b) <==> IsPte(k, dirs, b))
            && (forall b :: IsPte(k, dirs, b) && b != a ==> EntryAt(k', b) == EntryAt(k, b))
            && EntryAt(k', a).present && EntryAt(k', a).base == i
  {
    var k' := PageIn(k, i, a);
    assert forall f :: IsTable(k', dirs, f) <==> IsTable(k, dirs, f);
  }

  /** Storing into the frame of a resident page changes that page and no other. */
  lemma StoreChangesOnePage(k: Kernel, dirs: set<nat>, a: EntryAddr, p: Page)
    requires Inv(k, dirs) && IsPte(k, dirs, a) && EntryAt(k, a).present
    ensures var k' := Kernel(k.frames[EntryAt(k, a).base := Data(p)], k.slots, k.swap);
            && Inv(k', dirs)
            && (forall d :: d in dirs ==> k'.frames[d] == k.frames[d])
            && (forall b :: IsPte(k, dirs, b) ==>
                              && IsPte(k', dirs, b) && EntryAt(k', b) == EntryAt(k, b)
                              && PageOf(k', dirs, b) == if b == a then p else PageOf(k, dirs, b))
  {
    var i := EntryAt(k, a).base;
    var k' := Kernel(k.frames[i := Data(p)], k.slots, k.swap);
    assert forall f :: IsTable(k', dirs, f) <==> IsTable(k, dirs, f);
    assert forall b :: IsPte(k', dirs, b) <==> IsPte(k, dirs, b);
    assert forall b :: IsPte(k, dirs, b) ==> EntryAt(k', b) == EntryAt(k, b);
    forall x | 0 <= x < FRAMES && k'.slots[x].Owner?
      ensures k'.frames[x].Data? && Maps(k', dirs, k'.slots[x].pte, x)
    {
      assert Maps(k, dirs, k.slots[x].pte, x);
    }
    assert Inv(k', dirs);
  }

  /** The accessed and dirty marks of an entry are not part of what it stands for. */
  lemma MarkKeepsPages(k: Kernel, dirs: set<nat>, a: EntryAddr, e: Entry)
    requires Inv(k, dirs) && IsPte(k, dirs, a)
    requires e.base == EntryAt(k, a).base && e.present == EntryAt(k, a).present
    ensures Inv(SetEntry(k, a, e), dirs) && SamePages(k, SetEntry(k, a, e), dirs)
  {
    var k' := SetEntry(k, a, e);
    assert forall f :: IsTable(k', dirs, f) <==> IsTable(k, dirs, f);
    forall x | 0 <= x < FRAMES && k'.slots[x].Owner?
      ensures k'.frames[x].Data? && Maps(k', dirs, k'.slots[x].pte, x)
    {
      assert Maps(k, dirs, k.slots[x].pte, x);
    }
    forall b | IsPte(k', dirs, b) && EntryAt(k', b).present
      ensures EntryAt(k', b).base < FRAMES && k'.slots[EntryAt(k', b).base] == Owner(b)
    {
      assert IsPte(k, dirs, b);
    }
    assert Inv(k', dirs);
  }

  /** Writing a directory entry leaves the page tables alone. */
  lemma DirectoryWriteKeepsPages(k: Kernel, dirs: set<nat>, d: EntryAddr, e: Entry)
    requires Inv(k, dirs) && d.frame in dirs && d.index < ENTRIES
    ensures var k' := SetEntry(k, d, e);
            && Inv(k', dirs)
            && (forall f :: f in dirs && f != d.frame ==> k'.frames[f] == k.frames[f])
            && (forall a :: IsPte(k', dirs, a) <==> IsPte(k, dirs, a))
            && (forall a :: IsPte(k, dirs, a) ==>
                  EntryAt(k', a) == EntryAt(k, a) && PageOf(k', dirs, a) == PageOf(k, dirs, a))
  {
    var k' := SetEntry(k, d, e);
    assert forall f :: IsTable(k', dirs, f) <==> IsTable(k, dirs, f);
    assert forall a :: IsPte(k', dirs, a) <==> IsPte(k, dirs, a);
    assert forall a :: IsPte(k, dirs, a) ==> EntryAt(k', a) == EntryAt(k, a);
    forall x | 0 <= x < FRAMES && k'.slots[x].Owner?
      ensures k'.frames[x].Data? && Maps(k', dirs, k'.slots[x].pte, x)
    {
      assert Maps(k, dirs, k.slots[x].pte, x);
    }
    assert Inv(k', dirs);
  }

  // ---- when a frame can be had ----

  function CountReserved(slots: seq<Slot>): (n: nat)
    ensures n <= |slots|
    ensures n == |slots| <==> forall i :: 0 <= i < |slots| ==> slots[i] == Reserved
  {
    if slots == [] then 0 else (if slots[0] == Reserved then 1 else 0) + CountReserved(slots[1..])
  }

  lemma {:induction false} CountReservedUpdate(slots: seq<Slot>, i: nat, s: Slot)
    requires i < |slots|
    ensures CountReserved(slots[i := s]) ==
            CountReserved(slots) - (if slots[i] == Reserved then 1 else 0) + (if s == Reserved then 1 else 0)
  {
    if i > 0 {
      assert slots[i := s][1..] == slots[1..][i - 1 := s];
      CountReservedUpdate(slots[1..], i - 1, s);
    } else {
      assert slots[i := s][1..] == slots[1..];
    }
  }

  /** A frame is found unless every frame is reserved; the number of reserved frames does not change. */
  lemma ReclaimFails(k: Kernel, dirs: set<nat>, want: Slot)
    requires Inv(k, dirs)
    requires forall i :: 0 <= i < FRAMES ==> k.slots[i] != want || want == Reserved
    ensures AllEvictable(k)
    ensures Reclaim(k, want).None? <==> CountReserved(k.slots) == FRAMES
    ensures Reclaim(k, want).Some? ==>
              var (k', i) := Reclaim(k, want).value;
              && i < FRAMES && Inv(k', dirs) && SamePages(k, k', dirs) && k'.slots[i] == Free
              && CountReserved(k'.slots) == CountReserved(k.slots)
              && (forall a :: IsPte(k, dirs, a) && !EntryAt(k, a).present ==>
                    EntryAt(k', a) == EntryAt(k, a) && (a in k'.swap <==> a in k.swap))
  {
    InvEvictable(k, dirs);
    if FirstFree(k.slots) == FRAMES {
      var v := FirstVictim(k.slots, want);
      if v < FRAMES {
        assert k.slots[v].Owner?;
        EvictKeepsPages(k, dirs, v);
        CountReservedUpdate(k.slots, v, Free);
        assert Reclaim(k, want) == Some((Evict(k, v), v));
        assert k.slots[v] != Reserved;
      } else {
        assert forall j :: 0 <= j < FRAMES ==> k.slots[j] == Reserved;
      }
    } else {
      assert k.slots[FirstFree(k.slots)] != Reserved;
    }
  }

  /** Asking for a page table frame: the new table maps nothing, and it is not one that existed. */
  lemma AskForTable(k: Kernel, dirs: set<nat>)
    requires Inv(k, dirs)
    ensures AllEvictable(k)
    ensures Ask(k, Reserved).None? <==> CountReserved(k.slots) == FRAMES
    ensures Ask(k, Reserved).Some? ==>
              var (k', i) := Ask(k, Reserved).value;
              && Inv(k', dirs) && SamePages(k, k', dirs) && IsTable(k', dirs, i) && !IsTable(k, dirs, i)
              && (forall j :: 0 <= j < ENTRIES ==> EntryAt(k', At(i, j)) == ZERO_ENTRY && At(i, j) !in k'.swap)
              && CountReserved(k'.slots) == CountReserved(k.slots) + 1
  {
    ReclaimFails(k, dirs, Reserved);
    if Reclaim(k, Reserved).Some? {
      var (k1, i) := Reclaim(k, Reserved).value;
      NewTableKeepsPages(k1, dirs, i);
      CountReservedUpdate(k1.slots, i, Reserved);
      SamePagesTrans(k, k1, Grant(k1, i, Reserved), dirs);
      assert IsTable(k, dirs, i) ==> IsPte(k, dirs, At(i, 0)) && IsPte(k1, dirs, At(i, 0));
    }
  }

  lemma AskForDirectory(k: Kernel, dirs: set<nat>)
    requires Inv(k, dirs)
    ensures AllEvictable(k)
    ensures Ask(k, Reserved).None? <==> CountReserved(k.slots) == FRAMES
    ensures Ask(k, Reserved).Some? ==>
              var (k', i) := Ask(k, Reserved).value;
              && i !in dirs && Inv(k', dirs + {i}) && k'.frames[i] == Table(ZeroTable())
              && (forall d :: d in dirs ==> k'.frames[d] == k.frames[d])
              && (forall a :: IsPte(k, dirs, a) ==>
                    IsPte(k', dirs + {i}, a) && PageOf(k', dirs + {i}, a) == PageOf(k, dirs, a))
              && CountReserved(k'.slots) == CountReserved(k.slots) + 1
  {
    ReclaimFails(k, dirs, Reserved);
    if Reclaim(k, Reserved).Some? {
      var (k1, i) := Reclaim(k, Reserved).value;
      NewDirectoryKeepsPages(k1, dirs, i);
      CountReservedUpdate(k1.slots, i, Reserved);
    }
  }

  /** Asking for a frame for an absent page and filling it. */
  function Load(k: Kernel, a: EntryAddr): (r: Option<Kernel>)
    requires AllEvictable(k)
    requires a.frame < FRAMES && k.frames[a.frame].Table? && k.slots[a.frame] == Reserved && a.index < ENTRIES
  {
    match Ask(k, Owner(a))
    case None => None
    case Some((g, i)) => Some(Fill(g, i, a))
  }

  lemma LoadKeepsPages(k: Kernel, dirs: set<nat>, a: EntryAddr)
    requires Inv(k, dirs) && IsPte(k, dirs, a) && !EntryAt(k, a).present
    ensures AllEvictable(k)
    ensures Load(k, a).None? <==> CountReserved(k.slots) == FRAMES
    ensures Load(k, a).Some? ==>
              var k' := Load(k, a).value;
              && Inv(k', dirs) && SamePages(k, k', dirs) && IsPte(k', dirs, a) && EntryAt(k', a).present
              && CountReserved(k'.slots) == CountReserved(k.slots)
              && (forall b :: IsPte(k, dirs, b) && !EntryAt(k, b).present && b != a ==>
                                EntryAt(k', b) == EntryAt(k, b) && (b in k'.swap <==> b in k.swap))
  {
    ReclaimFails(k, dirs, Owner(a));
    if Reclaim(k, Owner(a)).Some? {
      var (k1, i) := Reclaim(k, Owner(a)).value;
      assert IsPte(k1, dirs, a);
      PageInKeepsPages(k1, dirs, i, a);
      PageInShape(k1, dirs, i, a);
      CountReservedUpdate(k1.slots, i, Owner(a));
      SamePagesTrans(k, k1, PageIn(k1, i, a), dirs);
    }
  }

  // ---- which frame is granted ----

  /** The first frame nobody has. */
  predicate LeastFree(slots: seq<Slot>, i: nat) {
    i < |slots| && slots[i] == Free && (forall j :: 0 <= j < i ==> slots[j] != Free)
  }

  predicate NoneFree(slots: seq<Slot>) {
    forall j :: 0 <= j < |slots| ==> slots[j] != Free
  }

  /** The first frame that holds a page of another entry than the asking one. */
  predicate LeastEvictable(slots: seq<Slot>, want: Slot, v: nat) {
    && v < |slots| && slots[v].Owner? && slots[v] != want
    && (forall j :: 0 <= j < v ==> slots[j] == Reserved || slots[j] == want)
  }

  /** `k1` is `k0` with frame `i`, zeroed, given to `want`; the swap directory and all else is as it was. */
  predicate GrantedOnly(k0: Kernel, k1: Kernel, i: nat, want: Slot)
    requires i < |k0.frames| == |k0.slots|
  {
    && k1.swap == k0.swap && k1.slots == k0.slots[i := want]
    && k1.frames == k0.frames[i := if want == Reserved then Table(ZeroTable()) else Data(ZeroPage())]
  }

  /**
    `k1` is `k0` with frame `v` taken from its owner, whose page went to swap and whose entry is absent now, and given
    to `want`; no other frame, no other owner and no other page in swap changed.
   */
  ghost predicate EvictedAndGranted(k0: Kernel, k1: Kernel, v: nat, want: Slot)
    requires |k0.frames| == |k0.slots| == FRAMES && v < FRAMES && k0.slots[v].Owner?
  {
    var a := k0.slots[v].pte;
    && |k1.frames| == FRAMES && k1.slots == k0.slots[v := want]
    && k0.frames[v].Data? && k1.swap == k0.swap[a := k0.frames[v].bytes]
    && k1.frames[v] == (if want == Reserved then Table(ZeroTable()) else Data(ZeroPage()))
    && (forall f :: 0 <= f < FRAMES && f != v && f != a.frame ==> k1.frames[f] == k0.frames[f])
    && a.frame < FRAMES && a.frame != v && k0.frames[a.frame].Table? && k1.frames[a.frame].Table? && a.index < ENTRIES
    && !EntryAt(k1, a).present
    && (forall j :: 0 <= j < ENTRIES && j != a.index ==> EntryAt(k1, At(a.frame, j)) == EntryAt(k0, At(a.frame, j)))
  }

  /**
    What a request for a frame does: the first free frame is granted; only if there is none is a page evicted, from the
    first frame that has one to give; and only if there is none of those either the request fails.
   */
  ghost predicate FreeFirst(k0: Kernel, k1: Kernel, want: Slot, frame: Option<nat>)
    requires |k0.frames| == |k0.slots| == FRAMES
  {
    && (forall i: nat :: LeastFree(k0.slots, i) ==> frame == Some(i) && GrantedOnly(k0, k1, i, want))
    && (forall v: nat :: NoneFree(k0.slots) && LeastEvictable(k0.slots, want, v) ==>
          frame == Some(v) && EvictedAndGranted(k0, k1, v, want))
    && (NoneFree(k0.slots) && (forall v: nat :: !LeastEvictable(k0.slots, want, v)) ==> frame.None? && k1 == k0)
  }

  lemma AskTakesFreeFirst(k: Kernel, dirs: set<nat>, want: Slot)
    requires Inv(k, dirs) && want != Free
    ensures AllEvictable(k)
    ensures match Ask(k, want)
            case None => FreeFirst(k, k, want, None)
            case Some((k', i)) => FreeFirst(k, k', want, Some(i))
  {
    hide Inv, EvictedAndGranted, Evict, Evictable;
    InvEvictable(k, dirs);
    SlotCount(k, dirs);
    var w := FirstVictim(k.slots, want);
    if NoneFree(k.slots) {
      assert FirstFree(k.slots) == FRAMES;
      if w < FRAMES {
        assert LeastEvictable(k.slots, want, w) && Evictable(k, w);
        EvictedThenGranted(k, dirs, w, want);
      }
    } else {
      assert LeastFree(k.slots, FirstFree(k.slots));
    }
  }

  lemma SlotCount(k: Kernel, dirs: set<nat>)
    requires Inv(k, dirs)
    ensures |k.frames| == |k.slots| == FRAMES
  {
  }

  lemma EvictedThenGranted(k: Kernel, dirs: set<nat>, v: nat, want: Slot)
    requires Inv(k, dirs) && v < FRAMES && k.slots[v].Owner? && Evictable(k, v) && want != Free
    ensures EvictedAndGranted(k, Grant(Evict(k, v), v, want), v, want)
  {
    assert Maps(k, dirs, k.slots[v].pte, v);
  }

  function CountFree(slots: seq<Slot>): (n: nat)
    ensures n <= |slots|
    ensures n == 0 <==> forall i :: 0 <= i < |slots| ==> slots[i] != Free
  {
    if slots == [] then 0 else (if slots[0] == Free then 1 else 0) + CountFree(slots[1..])
  }

  lemma {:induction false} CountFreeUpdate(slots: seq<Slot>, i: nat, s: Slot)
    requires i < |slots|
    ensures CountFree(slots[i := s]) ==
            CountFree(slots) - (if slots[i] == Free then 1 else 0) + (if s == Free then 1 else 0)
  {
    if i > 0 {
      assert slots[i := s][1..] == slots[1..][i - 1 := s];
      CountFreeUpdate(slots[1..], i - 1, s);
    } else {
      assert slots[i := s][1..] == slots[1..];
    }
  }

  lemma {:induction false} FreeAndReserved(slots: seq<Slot>)
    ensures CountFree(slots) + CountReserved(slots) <= |slots|
  {
    if slots != [] {
      FreeAndReserved(slots[1..]);
    }
  }

  lemma AskWithFree(k: Kernel, dirs: set<nat>, want: Slot)
    requires Inv(k, dirs) && want != Free && CountFree(k.slots) > 0
    ensures AllEvictable(k) && Ask(k, want).Some?
    ensures var (k', i) := Ask(k, want).value;
            && i < FRAMES && k.slots[i] == Free && k' == Grant(k, i, want) && Reclaim(k, want) == Some((k, i))
            && CountFree(k'.slots) == CountFree(k.slots) - 1
  {
    InvEvictable(k, dirs);
    CountFreeUpdate(k.slots, FirstFree(k.slots), want);
  }

  /** While a frame is free, a page fault takes no page away: all entries but the one that faulted stay as they are. */
  lemma LoadWithFree(k: Kernel, dirs: set<nat>, a: EntryAddr)
    requires Inv(k, dirs) && IsPte(k, dirs, a) && !EntryAt(k, a).present && CountFree(k.slots) > 0
    ensures AllEvictable(k) && Load(k, a).Some?
    ensures var k' := Load(k, a).value;
            && Inv(k', dirs) && k'.swap == k.swap && CountFree(k'.slots) == CountFree(k.slots) - 1
            && (forall b :: IsPte(k', dirs, b) <==> IsPte(k, dirs, b))
            && (forall b :: IsPte(k, dirs, b) && b != a ==> EntryAt(k', b) == EntryAt(k, b))
  {
    AskWithFree(k, dirs, Owner(a));
    var i := Ask(k, Owner(a)).value.1;
    PageInShape(k, dirs, i, a);
    PageInKeepsPages(k, dirs, i, a);
    assert Load(k, a).value == PageIn(k, i, a);
  }

  /** With no frame free, a page fault takes away the page in the first frame that holds one, and no other. */
  lemma LoadEvictsOne(k: Kernel, dirs: set<nat>, a: EntryAddr, v: nat)
    requires Inv(k, dirs) && IsPte(k, dirs, a) && !EntryAt(k, a).present
    requires NoneFree(k.slots) && LeastEvictable(k.slots, Reserved, v)
    ensures AllEvictable(k) && Load(k, a).Some?
    ensures var k', lost := Load(k, a).value, k.slots[v].pte;
            && Inv(k', dirs) && IsPte(k, dirs, lost) && EntryAt(k, lost).present && lost != a
            && (forall b :: IsPte(k', dirs, b) <==> IsPte(k, dirs, b))
            && (forall b :: IsPte(k, dirs, b) && b != a ==>
                  EntryAt(k', b).present == (EntryAt(k, b).present && b != lost))
  {
    var want := Owner(a);
    InvEvictable(k, dirs);
    assert forall i :: 0 <= i < FRAMES ==> k.slots[i] != want;
    assert FirstVictim(k.slots, want) == v && FirstFree(k.slots) == FRAMES;
    assert Maps(k, dirs, k.slots[v].pte, v);
    EvictKeepsPages(k, dirs, v);
    var k1 := Evict(k, v);
    EvictedEntries(k, dirs, v);
    hide Evict, SamePages;
    PageInKeepsPages(k1, dirs, v, a);
    PageInShape(k1, dirs, v, a);
    assert Load(k, a).value == PageIn(k1, v, a);
  }

  lemma EvictedEntries(k: Kernel, dirs: set<nat>, v: nat)
    requires Inv(k, dirs) && v < FRAMES && k.slots[v].Owner? && Evictable(k, v)
    ensures forall b :: IsPte(Evict(k, v), dirs, b) <==> IsPte(k, dirs, b)
    ensures forall b :: IsPte(k, dirs, b) ==>
              if b == k.slots[v].pte then !EntryAt(Evict(k, v), b).present else EntryAt(Evict(k, v), b) == EntryAt(k, b)
  {
    assert Maps(k, dirs, k.slots[v].pte, v);
  }
}
