/** tlb.c: an LRU list of translations, relinked in place. */
module TlbList {
  import opened MachineData
  import opened MmuSpec
  import opened Wrappers

  class Node {
    var page: nat
    var entry: Option<EntryAddr>
    var next: Node?

    constructor (page: nat, entry: Option<EntryAddr>, next: Node?)
      ensures this.page == page && this.entry == entry && this.next == next
    {
      this.page, this.entry, this.next := page, entry, next;
    }
  }

  class Tlb {
    var head: Node
    ghost var nodes: seq<Node>
    ghost var repr: set<Node>

    /** The node at position `i`, null past the tail. */
    ghost function Peek(i: nat): Node?
      reads this
    {
      if i < |nodes| then nodes[i] else null
    }

    ghost predicate Valid()
      reads this, repr
    {
      && nodes != [] && head == nodes[0]
      && (forall i :: 0 <= i < |nodes| ==> nodes[i] in repr)
      && (forall i, j :: 0 <= i < j < |nodes| ==> nodes[i] != nodes[j])
      && (forall i :: 0 <= i < |nodes| ==> nodes[i].next == Peek(i + 1))
    }

    /** The contents, from head to tail. */
    ghost function Items(): (s: seq<TlbItem>)
      requires Valid()
      reads this, repr
      ensures |s| == |nodes|
    {
      seq(|nodes|, i requires 0 <= i < |nodes| && nodes[i] in repr reads this, repr =>
          TlbItem(nodes[i].page, nodes[i].entry))
    }

    constructor ()
      ensures Valid() && fresh(repr) && Items() == [TlbItem(0, None)]
    {
      var node := new Node(0, None, null);
      head := node;
      nodes := [node];
      repr := {node};
    }

    /** `tlb_flush`. */
    method Flush()
      modifies this
      ensures Valid() && fresh(repr) && Items() == [TlbItem(0, None)]
    {
      var node := new Node(0, None, null);
      head := node;
      nodes := [node];
      repr := {node};
    }

    /** Unlink the node behind `slow` and make it the head. */
    method Relink(slow: Node, fast: Node, ghost i: nat)
      requires Valid() && 0 < i < |nodes| && nodes[i - 1] == slow && nodes[i] == fast
      modifies this, slow`next, fast`next
      ensures Valid() && repr == old(repr) && nodes == [old(nodes[i])] + old(nodes[..i]) + old(nodes[i + 1..])
    {
      ghost var was := nodes;
      slow.next := fast.next;
      fast.next := head;
      head := fast;
      nodes := [nodes[i]] + nodes[..i] + nodes[i + 1..];
      MovedNodes(was, i);
      forall k | 0 <= k < |nodes|
        ensures nodes[k].next == Peek(k + 1) && nodes[k] in repr
      {
        var j := if k == 0 then i else if k <= i then k - 1 else k;
        assert nodes[k] == was[j] && (k > 0 && k != i ==> was[j].next == old(was[j].next));
      }
    }

    static lemma MovedNodes(was: seq<Node>, i: nat)
      requires 0 < i < |was| && (forall j, k :: 0 <= j < k < |was| ==> was[j] != was[k])
      ensures var now := [was[i]] + was[..i] + was[i + 1..];
              && |now| == |was| && (forall j, k :: 0 <= j < k < |now| ==> now[j] != now[k])
              && (forall k :: 0 <= k < |now| ==> now[k] == was[if k == 0 then i else if k <= i then k - 1 else k])
    {
    }

    method MoveToFront(slow: Node, fast: Node, ghost i: nat)
      requires Valid() && 0 < i < |nodes| && nodes[i - 1] == slow && nodes[i] == fast
      modifies this, slow`next, fast`next
      ensures Valid() && repr == old(repr) && Items() == [old(Items())[i]] + old(Items())[..i] + old(Items())[i + 1..]
    {
      hide Valid;
      ghost var items := Items();
      Relink(slow, fast, i);
      assert forall j :: 0 <= j < |nodes| ==> Items()[j] == ([items[i]] + items[..i] + items[i + 1..])[j];
    }

    /** `tlb_get_pte`: look a page up and move its node to the head. */
    method GetPte(page: nat) returns (entry: Option<EntryAddr>)
      requires Valid()
      modifies this, repr
      ensures Valid() && repr == old(repr)
      ensures entry == Hit(old(Items()), page)
      ensures Items() == Promote(old(Items()), page)
    {
      ghost var items := Items();
      if head.page == page {
        assert items[0].page == page && Promote(items, page) == items;
        return head.entry;
      }
      var slow, fast := head, head.next;
      ghost var i := 1;
      while fast != null
        invariant 1 <= i <= |nodes| && slow == nodes[i - 1]
        invariant fast == Peek(i)
        invariant forall j :: 0 <= j < i ==> items[j].page != page
        decreases |nodes| - i
      {
        if fast.page == page {
          assert items[i].page == page;
          assert IndexOfPage(items, page) == i;
          MoveToFront(slow, fast, i);
          return fast.entry;
        }
        fast := fast.next;
        slow := slow.next;
        i := i + 1;
      }
      assert IndexOfPage(items, page) == |nodes|;
      return None;
    }

    /** `tlb_add_pte`: a new head; a full list loses its tail. */
    method AddPte(page: nat, entry: EntryAddr)
      requires Valid()
      modifies this, repr
      ensures Valid() && fresh(repr - old(repr))
      ensures Items() == Insert(old(Items()), TlbItem(page, Some(entry)))
    {
      var numNodes := 2;
      var slow, fast := head, head.next;
      ghost var i := 1;
      while fast != null && fast.next != null
        invariant 1 <= i <= |nodes| && slow == nodes[i - 1]
        invariant fast == Peek(i)
        invariant numNodes == i + 1
        invariant |nodes| > 1 ==> i < |nodes|
        decreases |nodes| - i
      {
        numNodes := numNodes + 1;
        fast := fast.next;
        slow := slow.next;
        i := i + 1;
      }
      if numNodes >= MAX_NODES {
        DropTail(slow, i);
      }
      Push(page, Some(entry));
    }

    /** Cut the list behind its last node but one. */
    method DropTail(slow: Node, ghost i: nat)
      requires Valid() && 0 < i == |nodes| - 1 && nodes[i - 1] == slow
      modifies this, slow`next
      ensures Valid() && repr == old(repr) && Items() == old(Items())[..i]
    {
      slow.next := null;
      nodes := nodes[..i];
    }

    /** Put a node in front of the head. */
    method Link(newHead: Node)
      requires Valid() && newHead !in repr && newHead.next == head
      modifies this
      ensures Valid() && repr == old(repr) + {newHead} && nodes == [newHead] + old(nodes)
    {
      head := newHead;
      nodes := [newHead] + nodes;
      repr := repr + {newHead};
    }

    method Push(page: nat, entry: Option<EntryAddr>)
      requires Valid()
      modifies this
      ensures Valid() && fresh(repr - old(repr)) && Items() == [TlbItem(page, entry)] + old(Items())
    {
      ghost var items := Items();
      var newHead := new Node(page, entry, head);
      Link(newHead);
      hide Valid;
      assert forall j :: 0 <= j < |nodes| ==> Items()[j] == ([TlbItem(page, entry)] + items)[j];
    }
  }
}
