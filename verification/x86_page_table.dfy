/** The x86_64 crate's page-table types (v1/src/xxx/structures/paging/page_table.rs):
    the raw entry with its address and flags views, the 9-bit table index
    with its `Step` arithmetic, and the 12-bit page offset. */
module X86PageTables {
  import opened Base
  import opened Bits
  import Entries

  /** Entries per table. */
  const ENTRY_COUNT: nat := 512

  /** Bits 12 to 51 of an entry: the physical address. */
  const ADDRESS_MASK: nat := 0x000f_ffff_ffff_f000

  /** Every other bit: each of bits 0 to 11 and 52 to 63 is a named flag
      (`PRESENT` up to `GLOBAL`, the available bits `BIT_9` to `BIT_62`,
      and `NO_EXECUTE`), so `from_bits_truncate` keeps exactly these. */
  const FLAGS_MASK: nat := 0xfff0_0000_0000_0fff

  const TWO_12: nat := 0x1000
  const TWO_40: nat := 0x100_0000_0000
  const TWO_52: nat := 0x10_0000_0000_0000

  datatype PageTableEntry = PageTableEntry(entry: u64)

  /** `PageTableEntry::new`: an unused entry. */
  function NewEntry(): (e: PageTableEntry)
    ensures Addr(e) == 0 && Flags(e) == 0
  {
    PageTableEntry(0)
  }

  /** `addr`: the physical address in bits 12 to 51. The `PhysAddr::new`
      it goes through accepts every such value (it only rejects bits 52 to
      63), so it is the identity here. */
  function Addr(e: PageTableEntry): (a: nat)
    ensures a == ((e.entry / TWO_12) % TWO_40) * TWO_12
    ensures a % TWO_12 == 0 && a < TWO_52
  {
    Entries.MaskedAddress(e.entry);
    And(e.entry, ADDRESS_MASK)
  }

  /** `flags`: `from_bits_truncate`, the low twelve and the high twelve
      bits of the entry. */
  function Flags(e: PageTableEntry): (f: nat)
    ensures f == e.entry % TWO_12 + (e.entry / TWO_52) * TWO_52
    ensures f + Addr(e) == e.entry
  {
    FlagsMaskIsComplement();
    AndSplit(e.entry, ADDRESS_MASK, 64);
    Entries.MaskedAddress(e.entry);
    FlagsArithmetic(e.entry);
    And(e.entry, FLAGS_MASK)
  }

  lemma FlagsMaskIsComplement()
    ensures ADDRESS_MASK < Pow2(64)
    ensures FLAGS_MASK == Not(ADDRESS_MASK, 64)
  {
    Pow2Table();
  }

  /** Splitting a word at bits 12 and 52. */
  lemma FlagsArithmetic(x: nat)
    ensures x == (x / TWO_52) * TWO_52 + ((x / TWO_12) % TWO_40) * TWO_12 + x % TWO_12
  {
    var q := x / TWO_12;
    DivDiv(x, TWO_12, TWO_40);
    assert x == q * TWO_12 + x % TWO_12;
    assert q == (q / TWO_40) * TWO_40 + q % TWO_40;
    assert q / TWO_40 == x / TWO_52;
  }

  /** An entry is its address and its flags, which share no bit. */
  lemma EntrySplit(e: PageTableEntry)
    ensures Addr(e) + Flags(e) == e.entry
    ensures Addr(e) == 0 && Flags(e) == 0 <==> e == NewEntry()
  {
  }

  /** A page-table index: 0 to 511. */
  type Index9 = x: nat | x < ENTRY_COUNT

  datatype PageTableIndex = PageTableIndex(value: Index9)

  /** `PageTableIndex::new`: panics on 512 and above. */
  function IndexNew(index: u16): (r: Result<PageTableIndex, string>)
    ensures r.Ok? <==> index < ENTRY_COUNT
    ensures r.Ok? ==> r.value.value == index
  {
    if index < ENTRY_COUNT then Ok(PageTableIndex(index))
    else Err("assertion failed: (index as usize) < ENTRY_COUNT")
  }

  /** `PageTableIndex::new_truncate`: throws away bits 9 and up. */
  function IndexNewTruncate(index: u16): (r: PageTableIndex)
    ensures r.value <= index
    ensures (index - r.value) % ENTRY_COUNT == 0
  {
    DivModOf(index / ENTRY_COUNT, ENTRY_COUNT, index % ENTRY_COUNT);
    PageTableIndex(index % ENTRY_COUNT)
  }

  /** The truncating constructor agrees with the checked one wherever the
      checked one succeeds, and truncating twice is truncating once. */
  lemma IndexTruncateAgrees(index: u16)
    ensures IndexNew(index).Ok? ==> IndexNewTruncate(index) == IndexNew(index).value
    ensures IndexNewTruncate(IndexNewTruncate(index).value) == IndexNewTruncate(index)
  {
  }

  /** `Step::steps_between`: `end - start`, or `None` when it would be
      negative. */
  function StepsBetween(start: PageTableIndex, end: PageTableIndex): (r: Option<nat>)
    ensures r.Some? <==> start.value <= end.value
    ensures r.Some? ==> start.value + r.value == end.value
  {
    if end.value >= start.value then Some(end.value - start.value) else None
  }

  /** `Step::forward_checked`: `None` once the sum overflows `usize` or
      reaches 512. */
  function ForwardChecked(start: PageTableIndex, count: u64): (r: Option<PageTableIndex>)
    ensures r.Some? <==> start.value + count < ENTRY_COUNT
    ensures r.Some? ==> r.value.value == start.value + count
  {
    var idx := start.value + count;
    if idx >= TWO_64 then None
    else if idx < ENTRY_COUNT then
      match IndexNew(idx)
      case Ok(i) => Some(i)
      case Err(_) => None
    else None
  }

  /** `Step::backward_checked`: `None` when the difference is negative. The
      `new` inside cannot fail, since the result is at most `start`. */
  function BackwardChecked(start: PageTableIndex, count: u64): (r: Option<PageTableIndex>)
    ensures r.Some? <==> count <= start.value
    ensures r.Some? ==> r.value.value + count == start.value
  {
    if count > start.value then None
    else
      match IndexNew(start.value - count)
      case Ok(i) => Some(i)
      case Err(_) => None
  }

  /** The three `Step` functions agree: stepping forward by the distance
      reaches the end, stepping back returns to the start, and a successful
      forward step is measured back by `steps_between`. */
  lemma StepRoundTrip(start: PageTableIndex, end: PageTableIndex, count: u64)
    ensures StepsBetween(start, end).Some? ==>
              ForwardChecked(start, StepsBetween(start, end).value) == Some(end) &&
              BackwardChecked(end, StepsBetween(start, end).value) == Some(start)
    ensures ForwardChecked(start, count) == Some(end) ==> StepsBetween(start, end) == Some(count)
    ensures BackwardChecked(end, count) == Some(start) ==> StepsBetween(start, end) == Some(count)
  {
  }

  /** A byte offset inside a 4 KiB page: 0 to 4095. */
  type Offset12 = x: nat | x < TWO_12

  datatype PageOffset = PageOffset(value: Offset12)

  /** `PageOffset::new`: panics on 4096 and above. */
  function OffsetNew(offset: u16): (r: Result<PageOffset, string>)
    ensures r.Ok? <==> offset < TWO_12
    ensures r.Ok? ==> r.value.value == offset
  {
    if offset < TWO_12 then Ok(PageOffset(offset)) else Err("assertion failed: offset < (1 << 12)")
  }

  /** `PageOffset::new_truncate`: keeps the low twelve bits. */
  function OffsetNewTruncate(offset: u16): (r: PageOffset)
    ensures r.value <= offset
    ensures (offset - r.value) % TWO_12 == 0
  {
    DivModOf(offset / TWO_12, TWO_12, offset % TWO_12);
    PageOffset(offset % TWO_12)
  }

  lemma OffsetTruncateAgrees(offset: u16)
    ensures OffsetNew(offset).Ok? ==> OffsetNewTruncate(offset) == OffsetNew(offset).value
    ensures OffsetNewTruncate(OffsetNewTruncate(offset).value) == OffsetNewTruncate(offset)
  {
  }
}
