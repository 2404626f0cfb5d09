/**
  Data of the simulated machine: frames, page table entries, the frame table, segments and TLB nodes
  (ideal_indirection/page_table.h, kernel.h, segments.h, tlb.h).
 */
module MachineData {
  import opened Wrappers

  const FRAMES: nat := 250
  const PAGE_SIZE: nat := 4096
  const ENTRIES: nat := 1024
  const MAX_NODES: nat := 16
  const MAX_PROCESS_ID: nat := 32768
  const ADDR_SPACE: nat := 0x1_0000_0000

  newtype Byte = b: int | 0 <= b < 256

  type Page = s: seq<Byte> | |s| == PAGE_SIZE witness seq(PAGE_SIZE, _ => 0)

  /** A 32-bit virtual address. */
  type Addr32 = a: int | 0 <= a < ADDR_SPACE

  /** The fields of a directory or table entry that the code reads or writes. */
  datatype Entry = Entry(base: nat, present: bool, readWrite: bool, userSupervisor: bool, accessed: bool, dirty: bool)

  /** The address of an entry: the frame of its table and its index there. */
  datatype EntryAddr = At(frame: nat, index: nat)

  type EntryTable = s: seq<Entry> | |s| == ENTRIES witness seq(ENTRIES, _ => ZERO_ENTRY)

  /** A frame read as user data, or as a page directory or page table. */
  datatype Frame = Data(bytes: Page) | Table(entries: EntryTable)

  /** `entry_mapping[i]`: NULL, RESERVED, or the page table entry that owns the frame. */
  datatype Slot = Free | Reserved | Owner(pte: EntryAddr)

  const ZERO_ENTRY: Entry := Entry(0, false, false, false, false, false)
  function ZeroPage(): Page { seq(PAGE_SIZE, _ => 0) }

  function ZeroTable(): EntryTable { seq(ENTRIES, _ => ZERO_ENTRY) }

  datatype Permissions = Permissions(read: bool, write: bool, exec: bool)
  datatype Segment = Segment(start: Addr32, end: Addr32, permissions: Permissions, growsDown: bool)

  datatype TlbItem = TlbItem(page: nat, entry: Option<EntryAddr>)

  function Overlay(p: Page, off: nat, data: seq<Byte>): (r: Page)
    requires off + |data| <= PAGE_SIZE
    ensures r[off..off + |data|] == data
    ensures forall i :: 0 <= i < PAGE_SIZE && !(off <= i < off + |data|) ==> r[i] == p[i]
  {
    p[..off] + data + p[off + |data|..]
  }
}
