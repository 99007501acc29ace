/** Page tables (v1/src/memory/paging/table.rs): the level hierarchy, 512-entry
    tables held in physical memory, `zero`, and the recursive-mapping address
    arithmetic of `next_table_address`. */
module Tables {
  import opened Base
  import opened Bits
  import opened Frames
  import opened Entries
  import Pages

  /** `Level4` .. `Level1`; only the first three are `HierachicalLevel`s. */
  datatype Level = Level4 | Level3 | Level2 | Level1

  /** `HierachicalLevel::NextLevel`. */
  function NextLevel(l: Level): (r: Option<Level>)
    ensures r.None? <==> l == Level1
    ensures r.Some? ==> Height(r.value) + 1 == Height(l)
  {
    match l
    case Level4 => Some(Level3)
    case Level3 => Some(Level2)
    case Level2 => Some(Level1)
    case Level1 => None
  }

  function Height(l: Level): nat
  {
    match l
    case Level4 => 4
    case Level3 => 3
    case Level2 => 2
    case Level1 => 1
  }

  /** Following `NextLevel` from any level reaches `Level1` after
      `Height - 1` steps: the hierarchy is exactly 4 -> 3 -> 2 -> 1. */
  lemma {:induction false} LevelChain(l: Level)
    ensures Descend(l, Height(l) - 1) == Some(Level1)
    ensures forall k :: 0 <= k < Height(l) - 1 ==> Descend(l, k) != Some(Level1)
    decreases Height(l)
  {
    match NextLevel(l)
    case None =>
    case Some(n) =>
      LevelChain(n);
      forall k | 0 < k < Height(l) - 1
        ensures Descend(l, k) == Descend(n, k - 1)
      {
      }
  }

  function Descend(l: Level, k: nat): Option<Level>
    decreases k
  {
    if k == 0 then Some(l)
    else match NextLevel(l)
      case None => None
      case Some(n) => Descend(n, k - 1)
  }

  /** A table: `ENTRY_COUNT` entries. */
  type Table = t: seq<Entry> | |t| == 512 witness seq(512, _ => UNUSED)

  /** The table every entry of which is unused. */
  function ZeroTable(): (t: Table)
    ensures forall i :: 0 <= i < |t| ==> t[i] == UNUSED
  {
    seq(512, _ => Entry(0))
  }

  /** Physical memory seen as page tables: a frame not in the map holds
      zeros. */
  type Memory = map<Frame, Table>

  function TableAt(mem: Memory, f: Frame): Table
  {
    if f in mem then mem[f] else ZeroTable()
  }

  /** Store `e` at `mem[f][i]`; every other entry of every table is kept. */
  function WriteEntry(mem: Memory, f: Frame, i: nat, e: Entry): (m: Memory)
    requires i < Pages.ENTRY_COUNT
    ensures TableAt(m, f)[i] == e
    ensures forall g, j :: 0 <= j < Pages.ENTRY_COUNT && (g != f || j != i) ==>
              TableAt(m, g)[j] == TableAt(mem, g)[j]
  {
    mem[f := TableAt(mem, f)[i := e]]
  }

  /** `Table::zero`: every entry becomes unused. */
  function Zero(t: Table): (r: Table)
    ensures forall i :: 0 <= i < |r| ==> IsUnused(r[i])
  {
    ZeroTable()
  }

  /** Frame `f` overwritten by `Table::zero`. */
  function ZeroFrame(mem: Memory, f: Frame): (m: Memory)
    ensures forall j :: 0 <= j < Pages.ENTRY_COUNT ==> TableAt(m, f)[j] == UNUSED
    ensures forall g, j :: g != f && 0 <= j < Pages.ENTRY_COUNT ==> TableAt(m, g)[j] == TableAt(mem, g)[j]
  {
    mem[f := Zero(TableAt(mem, f))]
  }

  /** An entry that leads to a child table: present and not a huge page. */
  predicate LeadsToTable(e: Entry)
  {
    Contains(Flags(e), PRESENT) && !Contains(Flags(e), HUGE_PAGE)
  }

  lemma LeadsToTableBits(e: Entry)
    ensures LeadsToTable(e) <==> Bit(e.value, 0) && !Bit(e.value, 7)
  {
    Pow2Table();
    ContainsFlag(Flags(e), 0);
    ContainsFlag(Flags(e), 7);
  }

  lemma HugeBit(e: Entry)
    ensures Contains(Flags(e), HUGE_PAGE) <==> Bit(e.value, 7)
  {
    Pow2Table();
    ContainsFlag(Flags(e), 7);
  }

  /** The frame of the child table at slot `i` of the table in frame `f`:
      where the source's `next_table` reference lands. */
  function NextTable(mem: Memory, f: Frame, i: nat): (r: Option<Frame>)
    requires i < Pages.ENTRY_COUNT
    ensures r.Some? <==> LeadsToTable(TableAt(mem, f)[i])
    ensures r.Some? ==> PointedFrame(TableAt(mem, f)[i]) == r
  {
    var e := TableAt(mem, f)[i];
    if LeadsToTable(e) then
      LeadsToTableBits(e);
      PointedFrame(e)
    else
      None
  }

  /** The virtual address of the active level 4 table under the recursive
      mapping in slot 511: all four indices 511, sign-extended. */
  const P4: nat := 0xffff_ffff_ffff_f000

  /** `next_table_address`: `(table_address << 9) | (index << 12)` on a 64-bit
      word when the entry is present and not huge, else `None`. */
  function NextTableAddress(level: Level, tableAddress: u64, t: Table, index: nat): (r: Option<u64>)
    requires level != Level1 && index < Pages.ENTRY_COUNT
    ensures r.None? <==> !Bit(t[index].value, 0) || Bit(t[index].value, 7)
    ensures r.Some? && tableAddress % PAGE_SIZE == 0 ==>
              r.value == (tableAddress * 512) % TWO_64 + index * PAGE_SIZE
  {
    LeadsToTableBits(t[index]);
    if LeadsToTable(t[index]) then
      ChildAddress(tableAddress, index);
      Some(Or(Shl(tableAddress, 9, 64), Shl(index, 12, 64)))
    else
      None
  }

  /** For a page-aligned table address the `|` in `next_table_address` adds:
      the shifted table address has no bit below 21 and the shifted index no
      bit from 21 on. */
  lemma ChildAddress(tableAddress: u64, index: nat)
    requires index < Pages.ENTRY_COUNT
    ensures Or(Shl(tableAddress, 9, 64), Shl(index, 12, 64)) < TWO_64
    ensures tableAddress % PAGE_SIZE == 0 ==>
              Or(Shl(tableAddress, 9, 64), Shl(index, 12, 64))
              == (tableAddress * 512) % TWO_64 + index * PAGE_SIZE
  {
    ChildWidths();
    var hi := Shl(tableAddress, 9, 64);
    var lo := Shl(index, 12, 64);
    IndexShift(index);
    OrBelow(hi, lo, 64);
    if tableAddress % PAGE_SIZE == 0 {
      TableShift(tableAddress);
      OrAligned(hi, lo, 21);
    }
  }

  /** The powers of two `next_table_address` works with. */
  lemma ChildWidths()
    ensures Pow2(9) == 512 && Pow2(12) == PAGE_SIZE && Pow2(21) == 0x20_0000
    ensures Pow2(64) == TWO_64 && Pow2(21) * Pow2(43) == TWO_64
  {
    Pow2Table();
    Pow2Add(21, 43);
  }

  /** `index << 12` of a table index is its byte offset, below `2^21`. */
  lemma IndexShift(index: nat)
    requires index < Pages.ENTRY_COUNT
    ensures Shl(index, 12, 64) == index * PAGE_SIZE < Pow2(21)
  {
    ChildWidths();
    MulBound(index, 512, PAGE_SIZE);
    SmallMod(index * PAGE_SIZE, TWO_64);
  }

  /** `table_address << 9` of a page-aligned address is a multiple of
      `2^21`. */
  lemma TableShift(tableAddress: u64)
    requires tableAddress % PAGE_SIZE == 0
    ensures Shl(tableAddress, 9, 64) == (tableAddress * 512) % TWO_64
    ensures Shl(tableAddress, 9, 64) % Pow2(21) == 0
  {
    ChildWidths();
    var q := tableAddress / PAGE_SIZE;
    assert tableAddress * 512 == q * 0x20_0000;
    MultipleModMultiple(q, 0x20_0000, Pow2(43));
  }

  /** Reducing a multiple of `a` modulo a multiple of `a` keeps it one. */
  lemma MultipleModMultiple(q: nat, a: nat, b: nat)
    requires a > 0 && b > 0
    ensures ((q * a) % (a * b)) % a == 0
  {
    DivModOf(q, a, 0);
    DivDiv(q * a, a, b);
    DivModOf(q % b, a, 0);
    assert a * (q % b) == (q % b) * a;
  }

  lemma MulBound(x: nat, m: nat, k: nat)
    requires x < m
    ensures x * k < m * k || k == 0
  {
  }

  /** With 64-bit wrap-around the level 4 table's own address is a fixed
      point of `next_table_address` at slot 511: the recursive slot maps the
      table onto itself. */
  lemma P4FixedPoint(t: Table)
    requires LeadsToTable(t[511])
    ensures NextTableAddress(Level4, P4, t, 511) == Some(P4)
  {
    LeadsToTableBits(t[511]);
    ChildAddress(P4, 511);
    DivModOf(0xf_ffff_ffff_ffff, PAGE_SIZE, 0);
    assert P4 * 512 == 0x1ff * TWO_64 + 0xffff_ffff_ffe0_0000;
    DivModOf(0x1ff, TWO_64, 0xffff_ffff_ffe0_0000);
    assert (P4 * 512) % TWO_64 + 511 * PAGE_SIZE == P4;
  }
}
