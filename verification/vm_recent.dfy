/** How long the translation list of tlb.c remembers a page. */
module RecentPages {
  import opened MachineData
  import opened KernelSpec
  import opened MmuSpec
  import opened VirtualMemory
  import opened Wrappers

  /** What an access does to the list: its page is looked up, which may move a node, and added in front in any case. */
  function Use(tlb: seq<TlbItem>, page: nat, a: EntryAddr): seq<TlbItem> {
    Insert(Promote(tlb, page), TlbItem(page, Some(a)))
  }

  function Uses(tlb: seq<TlbItem>, accesses: seq<(nat, EntryAddr)>): seq<TlbItem> {
    if accesses == [] then tlb
    else var last := accesses[|accesses| - 1]; Use(Uses(tlb, accesses[..|accesses| - 1]), last.0, last.1)
  }

  /** A permitted access uses the list so, whether it hits or not. */
  lemma AccessUses(m: Machine, va: Addr32, req: Request)
    requires CanAccess(m, va, m.pid, req) && Access(m, va, m.pid, req).Some?
    requires Permits(m.segs[m.pid], va, req.Write?)
    ensures exists a :: Access(m, va, m.pid, req).value.0.tlb == Use(m.tlb, va / PAGE_SIZE, a)
  {
    hide SInv, TlbOk, FaultTable, FaultPage, Transfer, Promote, Insert, MmuSpec.Hit, FindSegment, Covers;
    var page := va / PAGE_SIZE;
    ResolveIsWalk(m, page);
    var (s, a, faults) := Resolve(m, page).value;
    assert Access(m, va, m.pid, req).value.0.tlb == Use(m.tlb, page, a);
  }

  /** A lookup and an addition push any other page back by at most two places. */
  lemma PushedByTwo(tlb: seq<TlbItem>, page: nat, a: EntryAddr, q: nat)
    requires |tlb| <= MAX_NODES
    ensures |Use(tlb, page, a)| <= MAX_NODES
    ensures IndexOfPage(Use(tlb, page, a), page) == 0 && Hit(Use(tlb, page, a), page) == Some(a)
    ensures var i := IndexOfPage(tlb, q);
            q != page && i < |tlb| && i + 2 < MAX_NODES ==>
              && IndexOfPage(Use(tlb, page, a), q) <= i + 2 && IndexOfPage(Use(tlb, page, a), q) < |Use(tlb, page, a)|
              && Hit(Use(tlb, page, a), q) == Hit(tlb, q)
  {
    var i, k := IndexOfPage(tlb, q), IndexOfPage(tlb, page);
    var p, u := Promote(tlb, page), Use(tlb, page, a);
    if q != page && i < |tlb| && i + 2 < MAX_NODES {
      var j := if k < |tlb| && i < k then i + 1 else i;
      assert p[j] == tlb[i];
      assert forall x :: 0 <= x < j ==> p[x].page != q;
      assert u[j + 1] == p[j];
      assert forall x :: 0 < x < j + 1 ==> u[x] == p[x - 1];
      assert IndexOfPage(u, q) == j + 1;
    }
  }

  /** A page is still found after any seven further accesses, to whatever pages. */
  lemma {:induction false} SevenAreRemembered(tlb: seq<TlbItem>, page: nat, a: EntryAddr, later: seq<(nat, EntryAddr)>)
    requires |tlb| <= MAX_NODES && |later| <= 7
    ensures var u := Uses(Use(tlb, page, a), later);
            && |u| <= MAX_NODES && Hit(u, page).Some?
            && IndexOfPage(u, page) <= 2 * |later| && IndexOfPage(u, page) < |u|
  {
    hide Use, IndexOfPage, MmuSpec.Hit;
    if later == [] {
      Remembered(tlb, page, a);
    } else {
      var last := later[|later| - 1];
      SevenAreRemembered(tlb, page, a, later[..|later| - 1]);
      var u := Uses(Use(tlb, page, a), later[..|later| - 1]);
      PushedByTwo(u, last.0, last.1, page);
      if last.0 == page {
        Remembered(u, page, last.1);
      }
    }
  }

  lemma Remembered(tlb: seq<TlbItem>, page: nat, a: EntryAddr)
    requires |tlb| <= MAX_NODES
    ensures var u := Use(tlb, page, a);
            0 < |u| <= MAX_NODES && IndexOfPage(u, page) == 0 && Hit(u, page).Some?
  {
  }

  /**
    An access that hits adds its page all the same. So sixteen accesses to a single page drive every other one out of
    the list, and what is freed is then not the page used least recently but a page used just before.
   */
  lemma {:induction false} OnePageFillsTheList(tlb: seq<TlbItem>, page: nat, a: EntryAddr, times: nat)
    requires 0 < |tlb| <= MAX_NODES
    ensures var u := Uses(tlb, seq(times, _ => (page, a)));
            && 0 < |u| <= MAX_NODES
            && (forall i :: 0 <= i < times && i < |u| ==> u[i].page == page)
            && (times >= MAX_NODES ==> forall q :: q != page ==> Hit(u, q).None?)
  {
    var accesses := seq(times, _ => (page, a));
    if times > 0 {
      assert accesses[..times - 1] == seq(times - 1, _ => (page, a));
      OnePageFillsTheList(tlb, page, a, times - 1);
      FilledOnce(Uses(tlb, accesses[..times - 1]), page, a, times - 1);
    }
  }

  lemma FilledOnce(tlb: seq<TlbItem>, page: nat, a: EntryAddr, times: nat)
    requires 0 < |tlb| <= MAX_NODES && (forall i :: 0 <= i < times && i < |tlb| ==> tlb[i].page == page)
    ensures var u := Use(tlb, page, a);
            && 0 < |u| <= MAX_NODES
            && (forall i :: 0 <= i < times + 1 && i < |u| ==> u[i].page == page)
            && (times + 1 >= MAX_NODES ==> forall q :: q != page ==> Hit(u, q).None?)
  {
    var p, u := Promote(tlb, page), Use(tlb, page, a);
    assert forall i :: 0 <= i < times && i < |p| ==> p[i].page == page;
    forall i | 0 <= i < times + 1 && i < |u|
      ensures u[i].page == page
    {
      assert i > 0 ==> u[i] == p[i - 1];
    }
  }
}
