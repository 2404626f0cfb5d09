/** kernel.c: the frame table and physical memory, updated in place, against KernelSpec. */
module KernelMemory {
  import opened MachineData
  import opened KernelSpec
  import opened Wrappers

  class PhysicalKernel {
    const physicalMemory: array<Frame>
    const entryMapping: array<Slot>
    var swapFiles: map<EntryAddr, Page>

    ghost predicate Valid()
    {
      physicalMemory.Length == entryMapping.Length == FRAMES
    }

    ghost function Snapshot(): Kernel
      reads this, physicalMemory, entryMapping
    {
      Kernel(physicalMemory[..], entryMapping[..], swapFiles)
    }

    constructor ()
      ensures Valid() && fresh(physicalMemory) && fresh(entryMapping)
      ensures Snapshot() == Kernel(seq(FRAMES, _ => Data(ZeroPage())), seq(FRAMES, _ => Free), map[])
    {
      physicalMemory := new Frame[FRAMES](_ => Data(ZeroPage()));
      entryMapping := new Slot[FRAMES](_ => Free);
      swapFiles := map[];
    }

    method WriteEntry(a: EntryAddr, e: Entry)
      requires Valid() && a.frame < FRAMES && physicalMemory[a.frame].Table? && a.index < ENTRIES
      modifies physicalMemory
      ensures Snapshot() == SetEntry(old(Snapshot()), a, e)
    {
      physicalMemory[a.frame] := Table(physicalMemory[a.frame].entries[a.index := e]);
    }

    /** `write_page_to_disk`, keyed by the entry. */
    method WritePageToDisk(a: EntryAddr)
      requires Valid() && a.frame < FRAMES && physicalMemory[a.frame].Table? && a.index < ENTRIES
      requires var b := physicalMemory[a.frame].entries[a.index].base; b < FRAMES && physicalMemory[b].Data?
      modifies this
      ensures swapFiles == old(swapFiles)[a := physicalMemory[physicalMemory[a.frame].entries[a.index].base].bytes]
    {
      var frame := physicalMemory[a.frame].entries[a.index].base;
      swapFiles := swapFiles[a := physicalMemory[frame].bytes];
    }

    /** `read_page_from_disk`: nothing happens when the entry has no swap file. */
    method ReadPageFromDisk(a: EntryAddr)
      requires Valid() && a.frame < FRAMES && physicalMemory[a.frame].Table? && a.index < ENTRIES
      requires physicalMemory[a.frame].entries[a.index].base < FRAMES
      modifies physicalMemory
      ensures var k, i := old(Snapshot()), old(physicalMemory[a.frame].entries[a.index].base);
              Snapshot() == if a in k.swap then Kernel(k.frames[i := Data(k.swap[a])], k.slots, k.swap) else k
    {
      var frame := physicalMemory[a.frame].entries[a.index].base;
      if a in swapFiles {
        physicalMemory[frame] := Data(swapFiles[a]);
      }
    }

    /** Page out frame `i` and take it from its owner. */
    method EvictFrame(i: nat)
      requires Valid() && i < FRAMES && entryMapping[i].Owner? && Evictable(Snapshot(), i)
      modifies this, physicalMemory, entryMapping
      ensures old(Evictable(Snapshot(), i)) && Snapshot() == Evict(old(Snapshot()), i)
    {
      var evictee := entryMapping[i].pte;
      WritePageToDisk(evictee);
      var e := physicalMemory[evictee.frame].entries[evictee.index];
      WriteEntry(evictee, e.(present := false, base := 0));
      entryMapping[i] := Free;
    }

    /** `ask_kernel_for_frame`: the first unused frame, else a frame freed by evicting the first page that may go. */
    method AskKernelForFrame(entry: Option<EntryAddr>, ghost dirs: set<nat>) returns (frame: Option<nat>)
      requires Valid() && Inv(Snapshot(), dirs)
      modifies this, physicalMemory, entryMapping
      ensures old(AllEvictable(Snapshot()))
      ensures match Ask(old(Snapshot()), if entry.None? then Reserved else Owner(entry.value))
              case None => frame.None? && Snapshot() == old(Snapshot())
              case Some((k, i)) => frame == Some(i) && Snapshot() == k
      ensures FreeFirst(old(Snapshot()), Snapshot(), if entry.None? then Reserved else Owner(entry.value), frame)
      decreases FirstFree(entryMapping[..]) == FRAMES
    {
      hide KernelSpec.Inv, SamePages, EntryAt, Evict, FreeFirst;
      ghost var k := Snapshot();
      InvEvictable(k, dirs);
      var want := if entry.None? then Reserved else Owner(entry.value);
      AskTakesFreeFirst(k, dirs, want);
      for i := 0 to FRAMES
        invariant Snapshot() == k
        invariant forall j :: 0 <= j < i ==> k.slots[j] != Free
      {
        if entryMapping[i] == Free {
          assert FirstFree(k.slots) == i;
          entryMapping[i] := want;
          physicalMemory[i] := if entry.None? then Table(ZeroTable()) else Data(ZeroPage());
          return Some(i);
        }
      }
      assert FirstFree(k.slots) == FRAMES;
      for i := 0 to FRAMES
        invariant Snapshot() == k
        invariant forall j :: 0 <= j < i ==> k.slots[j] == Reserved || k.slots[j] == want
      {
        if entryMapping[i] != Reserved && entryMapping[i] != want {
          assert FirstVictim(k.slots, want) == i && k.slots[i].Owner? && Evictable(k, i);
          EvictKeepsPages(k, dirs, i);
          EvictFrame(i);
          assert Snapshot().slots[i] == Free && FirstFree(Snapshot().slots) == i;
          frame := AskKernelForFrame(entry, dirs);
          return;
        }
      }
      return None;
    }
  }
}
