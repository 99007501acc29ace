/** The `Mapper` of v1/src/memory/paging/mapper.rs: translation of pages and
    addresses, `map_to`, `map`, `identity_map` and `unmap`.

    The source reaches every table through the recursive window, at the
    virtual addresses `next_table_address` computes; module `PageWalk`
    shows that under the recursive entry the processor maps those addresses
    onto the tables' frames. Here the tables are therefore read and written
    directly in physical memory, starting from `root`, the frame of the
    level 4 table the mapper works on. */
module Mapper {
  import opened Base
  import opened Bits
  import opened Frames
  import opened Entries
  import opened Tables
  import Pages
  import PageWalk
  import FrameAllocators

  /** The 4 KiB path: level 4, 3 and 2 entries lead to tables and the frame
      is the one the level 1 entry names. */
  function DirectPath(mem: Memory, root: Frame, p: Pages.Page): Option<Frame>
  {
    match NextTable(mem, root, Pages.P4Index(p))
    case None => None
    case Some(f3) =>
      match NextTable(mem, f3, Pages.P3Index(p))
      case None => None
      case Some(f2) =>
        match NextTable(mem, f2, Pages.P2Index(p))
        case None => None
        case Some(f1) => PointedFrame(TableAt(mem, f1)[Pages.P1Index(p)])
  }

  /** An entry that names a frame and has `HUGE_PAGE` set. */
  predicate HugeLeaf(e: Entry)
  {
    PointedFrame(e).Some? && Contains(Flags(e), HUGE_PAGE)
  }

  /** The `or_else` branch of `translate_page`: a 1 GiB page at level 3 or
      a 2 MiB page at level 2, whose start frame must be aligned to the
      page size. */
  function HugePath(mem: Memory, f3: Frame, p: Pages.Page): Result<Option<Frame>, string>
  {
    var e3 := TableAt(mem, f3)[Pages.P3Index(p)];
    if HugeLeaf(e3) then
      var start := PointedFrame(e3).value;
      if start.number % (Pages.ENTRY_COUNT * Pages.ENTRY_COUNT) != 0 then
        Err("assertion failed: start_frame.number % ENTRY_COUNT.pow(2) == 0")
      else
        Ok(Some(Frame(start.number + Pages.P2Index(p) * Pages.ENTRY_COUNT + Pages.P1Index(p))))
    else
      match NextTable(mem, f3, Pages.P3Index(p))
      case None => Ok(None)
      case Some(f2) =>
        var e2 := TableAt(mem, f2)[Pages.P2Index(p)];
        if HugeLeaf(e2) then
          var start := PointedFrame(e2).value;
          if start.number % Pages.ENTRY_COUNT != 0 then
            Err("assertion failed: start_frame.number % ENTRY_COUNT == 0")
          else
            Ok(Some(Frame(start.number + Pages.P1Index(p))))
        else
          Ok(None)
  }

  /** `Mapper::translate_page`. A mapped frame always fits the 40-bit frame
      field of an entry. */
  function TranslatePage(mem: Memory, root: Frame, p: Pages.Page): (r: Result<Option<Frame>, string>)
    ensures r.Ok? && r.value.Some? ==> r.value.value.number < MAX_FRAMES
  {
    var direct := DirectPath(mem, root, p);
    if direct.Some? then Ok(direct)
    else
      match NextTable(mem, root, Pages.P4Index(p))
      case None => Ok(None)
      case Some(f3) =>
        var r := HugePath(mem, f3, p);
        if r.Ok? && r.value.Some? then
          var e3 := TableAt(mem, f3)[Pages.P3Index(p)];
          if HugeLeaf(e3) then
            AlignedBelow(PointedFrame(e3).value.number, Pages.TWO_18,
                         Pages.P2Index(p) * Pages.ENTRY_COUNT + Pages.P1Index(p));
            r
          else
            var e2 := TableAt(mem, NextTable(mem, f3, Pages.P3Index(p)).value)[Pages.P2Index(p)];
            AlignedBelow(PointedFrame(e2).value.number, Pages.ENTRY_COUNT, Pages.P1Index(p));
            r
        else r
  }

  /** A start frame aligned to `m` plus an offset below `m` stays below
      `MAX_FRAMES`. */
  lemma AlignedBelow(start: nat, m: nat, off: nat)
    requires m > 0 && start < MAX_FRAMES && start % m == 0 && off < m && MAX_FRAMES % m == 0
    ensures start + off < MAX_FRAMES
  {
    var q, b := start / m, MAX_FRAMES / m;
    assert start == q * m && MAX_FRAMES == b * m;
    MulBelow(q, b, m);
  }

  /** `Mapper::translate`: the frame of the page holding `v`, and the offset
      of `v` inside its page. Aborts on a non-canonical address. */
  function Translate(mem: Memory, root: Frame, v: u64): (r: Result<Option<nat>, string>)
    ensures !Pages.Canonical(v) ==> r.Err?
    ensures r.Ok? && r.value.Some? ==>
              r.value.value % PAGE_SIZE == v % PAGE_SIZE &&
              r.value.value / PAGE_SIZE < MAX_FRAMES
  {
    var offset := v % PAGE_SIZE;
    match Pages.ContainingAddress(v)
    case Err(e) => Err(e)
    case Ok(p) =>
      match TranslatePage(mem, root, p)
      case Err(e) => Err(e)
      case Ok(None) => Ok(None)
      case Ok(Some(f)) =>
        DivModOf(f.number, PAGE_SIZE, offset);
        Ok(Some(f.number * PAGE_SIZE + offset))
  }

  /** `translate_page` ends where the processor's walk ends: no leaf gives
      `None`, a 4 KiB leaf gives its frame, and a huge leaf gives its start
      frame plus the page's offset inside the huge page, or aborts when that
      start frame is not aligned. */
  lemma TranslatePageLookup(mem: Memory, root: Frame, v: nat)
    ensures var p := Pages.Page(v / PAGE_SIZE);
            match PageWalk.Lookup(mem, root, v)
            case None => TranslatePage(mem, root, p) == Ok(None)
            case Some(l) =>
              var a := PageWalk.AddressField(l.entry);
              var m := PageWalk.PageFrames(l.level);
              if a % m != 0 then TranslatePage(mem, root, p).Err?
              else TranslatePage(mem, root, p) == Ok(Some(Frame(a + p.number % m)))
  {
    var p := Pages.Page(v / PAGE_SIZE);
    var n := p.number;
    PageWalk.WalkIndices(v);
    var i4, i3, i2, i1 := Pages.P4Index(p), Pages.P3Index(p), Pages.P2Index(p), Pages.P1Index(p);
    PageWalk.NextTableRaw(mem, root, i4);
    match NextTable(mem, root, i4)
    case None =>
    case Some(f3) =>
      PageWalk.NextTableRaw(mem, f3, i3);
      HugeBit(TableAt(mem, f3)[i3]);
      match NextTable(mem, f3, i3)
      case None =>
        DivDiv(n, 512, 512);
      case Some(f2) =>
        PageWalk.NextTableRaw(mem, f2, i2);
        HugeBit(TableAt(mem, f2)[i2]);
        match NextTable(mem, f2, i2)
        case None =>
        case Some(f1) =>
  }

  /** `translate` agrees with the processor: whenever it returns, it returns
      the physical address the hardware walk reaches from `root`, or `None`
      exactly where that walk faults. It aborts only on a non-canonical
      address or at a huge page whose start frame is not aligned, where the
      walk faults too unless just the PAT bit is set. */
  lemma TranslateMatchesWalk(mem: Memory, root: Frame, v: u64)
    ensures Translate(mem, root, v).Ok? ==> Translate(mem, root, v).value == PageWalk.Walk(mem, root, v)
    ensures Translate(mem, root, v).Err? ==>
              PageWalk.Walk(mem, root, v).None? ||
              (PageWalk.Lookup(mem, root, v).Some? && PageWalk.PatBit(PageWalk.Lookup(mem, root, v).value))
  {
    if Pages.Canonical(v) {
      TranslatePageLookup(mem, root, v);
      match PageWalk.Lookup(mem, root, v)
      case None =>
      case Some(l) =>
        var a := PageWalk.AddressField(l.entry);
        if a % PageWalk.PageFrames(l.level) != 0 {
          PatOnly(a, PageWalk.PageFrames(l.level));
        } else {
          LeafOffset(a, l.level, v);
        }
    }
  }

  /** The physical address of `v` inside a page of `level` starting at
      frame `a`, counted two ways. */
  lemma LeafOffset(a: nat, level: nat, v: nat)
    requires 1 <= level <= 3 && a % PageWalk.PageFrames(level) == 0
    ensures var m, pb := PageWalk.PageFrames(level), PageWalk.PageBytes(level);
            (a / m) * pb + v % pb == (a + (v / PAGE_SIZE) % m) * PAGE_SIZE + v % PAGE_SIZE
  {
    var m, pb := PageWalk.PageFrames(level), PageWalk.PageBytes(level);
    assert pb == m * PAGE_SIZE;
    DivDiv(v, PAGE_SIZE, m);
    DivModOf(a / m, m, 0);
    assert a == (a / m) * m;
    assert (a / m) * pb == a * PAGE_SIZE;
  }

  /** An unaligned huge start frame with no reserved bit set has only its
      lowest bit, the PAT bit, set. */
  lemma PatOnly(a: nat, m: nat)
    requires m == Pages.TWO_18 || m == 512
    requires a % m != 0
    ensures (a % m) / 2 != 0 || a % 2 == 1
  {
    DivDiv(a, 2, m / 2);
  }

  /** The flags of a freshly created table entry. */
  const PRESENT_WRITABLE: nat := 0x3

  lemma PresentWritable()
    ensures PRESENT_WRITABLE == Or(PRESENT, WRITABLE) && ValidFlags(PRESENT_WRITABLE)
    ensures Contains(PRESENT_WRITABLE, PRESENT) && Contains(PRESENT_WRITABLE, WRITABLE)
    ensures !Contains(PRESENT_WRITABLE, HUGE_PAGE)
  {
    Pow2Table();
    ContainsFlag(PRESENT_WRITABLE, 7);
    assert !Bit(3, 7) by {
      assert Bit(3, 7) == Bit(1, 6) == Bit(0, 5);
      BitOfZero(5);
    }
    assert And(1, 2) == 0;
    OrDisjoint(1, 2);
    assert And(3, ALL_FLAGS) == 3 by {
      assert And(1, ALL_FLAGS / 2) == 2 * And(0, ALL_FLAGS / 4) + 1;
    }
  }

  /** One step down the hierarchy: the child table reached, the memory and
      allocator afterwards, and whether the table was created. */
  datatype Descent = Descent(table: Frame, mem: Memory, alloc: FrameAllocators.FrameSource, created: bool)

  /** `next_table_create`: the child table at slot `i` of table `f`; when
      there is none, a frame from the allocator becomes a new, zeroed child
      table entered with `PRESENT | WRITABLE`. */
  function NextTableCreate(mem: Memory, f: Frame, i: nat, alloc: FrameAllocators.FrameSource): (r: Result<Descent, string>)
    requires i < Pages.ENTRY_COUNT && FrameAllocators.Valid(alloc)
    ensures NextTable(mem, f, i).Some? ==> r == Ok(Descent(NextTable(mem, f, i).value, mem, alloc, false))
    ensures NextTable(mem, f, i).None? && Contains(Flags(TableAt(mem, f)[i]), HUGE_PAGE) ==> r.Err?
    ensures NextTable(mem, f, i).None? && FrameAllocators.Allocate(alloc).0.None? ==> r.Err?
    ensures r.Ok? ==> FrameAllocators.Valid(r.value.alloc) && NextTable(r.value.mem, f, i) == Some(r.value.table)
    ensures r.Ok? ==> r.value.alloc.Tiny? == alloc.Tiny?
    ensures r.Ok? ==> (r.value.created <==> NextTable(mem, f, i).None?)
    ensures r.Ok? && r.value.created ==>
              && NextTable(mem, f, i).None?
              && FrameAllocators.Allocate(alloc) == (Some(r.value.table), r.value.alloc)
              && r.value.table != f
              && (forall j :: 0 <= j < Pages.ENTRY_COUNT ==> TableAt(r.value.mem, r.value.table)[j] == UNUSED)
              && (forall g, j :: 0 <= j < Pages.ENTRY_COUNT && g != r.value.table && (g != f || j != i) ==>
                    TableAt(r.value.mem, g)[j] == TableAt(mem, g)[j])
  {
    match NextTable(mem, f, i)
    case Some(t) => Ok(Descent(t, mem, alloc, false))
    case None =>
      if Contains(Flags(TableAt(mem, f)[i]), HUGE_PAGE) then
        Err("mapping code does not support huge pages")
      else
        var (frame, alloc') := FrameAllocators.Allocate(alloc);
        match frame
        case None => Err("no frames available")
        case Some(t) =>
          PresentWritable();
          match Set(t, PRESENT_WRITABLE)
          case Err(msg) => Err(msg)
          case Ok(e) =>
            var m := ZeroFrame(WriteEntry(mem, f, i, e), t);
            match NextTable(m, f, i)
            case None => Err("called `Option::unwrap()` on a `None` value")
            case Some(t') => Ok(Descent(t', m, alloc', true))
  }

  /** The outcome of `map_to`: memory and allocator afterwards, together
      with the level 3, 2 and 1 tables the walk went through and which of
      them it created. */
  datatype Mapped = Mapped(mem: Memory, alloc: FrameAllocators.FrameSource,
                           p3: Frame, p2: Frame, p1: Frame,
                           created3: bool, created2: bool, created1: bool)

  /** A slot `map_to` may have written: one of the four slots on the page's
      path, or any slot of a table it created. */
  predicate Touched(m: Mapped, root: Frame, p: Pages.Page, g: Frame, j: nat)
  {
    || (g == root && j == Pages.P4Index(p))
    || (g == m.p3 && j == Pages.P3Index(p))
    || (g == m.p2 && j == Pages.P2Index(p))
    || (g == m.p1 && j == Pages.P1Index(p))
    || (m.created3 && g == m.p3)
    || (m.created2 && g == m.p2)
    || (m.created1 && g == m.p1)
  }

  /** `flags | PRESENT` is a flag value that contains `PRESENT`. */
  lemma WithPresent(flags: nat)
    requires ValidFlags(flags)
    ensures ValidFlags(Or(flags, PRESENT)) && Contains(Or(flags, PRESENT), PRESENT)
  {
    PresentWritable();
    UnionValid(flags, PRESENT);
    Pow2Table();
    ContainsFlag(Or(flags, PRESENT), 0);
    ContainsFlag(PRESENT, 0);
  }

  /** `Mapper::map_to`: create the missing tables on the page's path, check
      that the level 1 slot is unused and enter `frame` there with the
      given flags plus `PRESENT`. */
  function MapTo(mem: Memory, root: Frame, p: Pages.Page, frame: Frame, flags: nat,
                 alloc: FrameAllocators.FrameSource): (r: Result<Mapped, string>)
    requires ValidFlags(flags) && FrameAllocators.Valid(alloc)
    ensures frame.number >= MAX_FRAMES ==> r.Err?
    ensures r.Ok? ==> FrameAllocators.Valid(r.value.alloc) && r.value.alloc.Tiny? == alloc.Tiny?
  {
    match NextTableCreate(mem, root, Pages.P4Index(p), alloc)
    case Err(e) => Err(e)
    case Ok(s3) =>
      match NextTableCreate(s3.mem, s3.table, Pages.P3Index(p), s3.alloc)
      case Err(e) => Err(e)
      case Ok(s2) =>
        match NextTableCreate(s2.mem, s2.table, Pages.P2Index(p), s2.alloc)
        case Err(e) => Err(e)
        case Ok(s1) =>
          if !IsUnused(TableAt(s1.mem, s1.table)[Pages.P1Index(p)]) then
            Err("assertion failed: p1[page.p1_index()].is_unused()")
          else
            WithPresent(flags);
            match Set(frame, Or(flags, PRESENT))
            case Err(e) => Err(e)
            case Ok(e) =>
              Ok(Mapped(WriteEntry(s1.mem, s1.table, Pages.P1Index(p), e), s1.alloc,
                        s3.table, s2.table, s1.table, s3.created, s2.created, s1.created))
  }

  /** The intermediate states of a successful `map_to`. */
  lemma MapToSteps(mem: Memory, root: Frame, p: Pages.Page, frame: Frame, flags: nat,
                   alloc: FrameAllocators.FrameSource)
    returns (s3: Descent, s2: Descent, s1: Descent, e: Entry)
    requires ValidFlags(flags) && FrameAllocators.Valid(alloc)
    requires MapTo(mem, root, p, frame, flags, alloc).Ok?
    ensures NextTableCreate(mem, root, Pages.P4Index(p), alloc) == Ok(s3)
    ensures FrameAllocators.Valid(s3.alloc)
    ensures NextTableCreate(s3.mem, s3.table, Pages.P3Index(p), s3.alloc) == Ok(s2)
    ensures FrameAllocators.Valid(s2.alloc)
    ensures NextTableCreate(s2.mem, s2.table, Pages.P2Index(p), s2.alloc) == Ok(s1)
    ensures IsUnused(TableAt(s1.mem, s1.table)[Pages.P1Index(p)])
    ensures ValidFlags(Or(flags, PRESENT)) && Contains(Or(flags, PRESENT), PRESENT)
    ensures Set(frame, Or(flags, PRESENT)) == Ok(e)
    ensures MapTo(mem, root, p, frame, flags, alloc).value ==
            Mapped(WriteEntry(s1.mem, s1.table, Pages.P1Index(p), e), s1.alloc,
                   s3.table, s2.table, s1.table, s3.created, s2.created, s1.created)
  {
    WithPresent(flags);
    s3 := NextTableCreate(mem, root, Pages.P4Index(p), alloc).value;
    s2 := NextTableCreate(s3.mem, s3.table, Pages.P3Index(p), s3.alloc).value;
    s1 := NextTableCreate(s2.mem, s2.table, Pages.P2Index(p), s2.alloc).value;
    e := Set(frame, Or(flags, PRESENT)).value;
  }

  /** One `next_table_create` keeps every slot except the one it fills and
      those of the table it creates. */
  lemma StepKeeps(mem: Memory, f: Frame, i: nat, alloc: FrameAllocators.FrameSource, s: Descent,
                  g: Frame, j: nat)
    requires i < Pages.ENTRY_COUNT && FrameAllocators.Valid(alloc) && j < Pages.ENTRY_COUNT
    requires NextTableCreate(mem, f, i, alloc) == Ok(s)
    requires (g != f || j != i) && !(s.created && g == s.table)
    ensures TableAt(s.mem, g)[j] == TableAt(mem, g)[j]
  {
  }

  /** `map_to` writes only the slots on the page's path and the tables it
      creates; it leaves the level 1 slot holding `frame` with the given
      flags plus `PRESENT`; and it creates a table only where the path had
      none. */
  lemma MapToWrites(mem: Memory, root: Frame, p: Pages.Page, frame: Frame, flags: nat,
                    alloc: FrameAllocators.FrameSource)
    requires ValidFlags(flags) && FrameAllocators.Valid(alloc)
    ensures var r := MapTo(mem, root, p, frame, flags, alloc);
            r.Ok? ==>
              && Flags(TableAt(r.value.mem, r.value.p1)[Pages.P1Index(p)]) == Or(flags, PRESENT)
              && PointedFrame(TableAt(r.value.mem, r.value.p1)[Pages.P1Index(p)]) == Some(frame)
              && (forall g, j :: 0 <= j < Pages.ENTRY_COUNT && !Touched(r.value, root, p, g, j) ==>
                    TableAt(r.value.mem, g)[j] == TableAt(mem, g)[j])
              && (!r.value.created3 ==> NextTable(mem, root, Pages.P4Index(p)) == Some(r.value.p3))
              && (r.value.created3 ==> NextTable(mem, root, Pages.P4Index(p)).None? && r.value.p3 != root)
  {
    if MapTo(mem, root, p, frame, flags, alloc).Ok? {
      var s3, s2, s1, e := MapToSteps(mem, root, p, frame, flags, alloc);
      WritesAlongPath(mem, root, p, frame, flags, alloc, s3, s2, s1, e);
    }
  }

  /** `MapToWrites` for given intermediate states. */
  lemma WritesAlongPath(mem: Memory, root: Frame, p: Pages.Page, frame: Frame, flags: nat,
                        alloc: FrameAllocators.FrameSource, s3: Descent, s2: Descent, s1: Descent,
                        e: Entry)
    requires ValidFlags(flags) && FrameAllocators.Valid(alloc)
    requires NextTableCreate(mem, root, Pages.P4Index(p), alloc) == Ok(s3)
    requires FrameAllocators.Valid(s3.alloc)
    requires NextTableCreate(s3.mem, s3.table, Pages.P3Index(p), s3.alloc) == Ok(s2)
    requires FrameAllocators.Valid(s2.alloc)
    requires NextTableCreate(s2.mem, s2.table, Pages.P2Index(p), s2.alloc) == Ok(s1)
    requires ValidFlags(Or(flags, PRESENT)) && Contains(Or(flags, PRESENT), PRESENT)
    requires Set(frame, Or(flags, PRESENT)) == Ok(e)
    ensures var m := Mapped(WriteEntry(s1.mem, s1.table, Pages.P1Index(p), e), s1.alloc,
                            s3.table, s2.table, s1.table, s3.created, s2.created, s1.created);
            && Flags(TableAt(m.mem, m.p1)[Pages.P1Index(p)]) == Or(flags, PRESENT)
            && PointedFrame(TableAt(m.mem, m.p1)[Pages.P1Index(p)]) == Some(frame)
            && (forall g, j :: 0 <= j < Pages.ENTRY_COUNT && !Touched(m, root, p, g, j) ==>
                  TableAt(m.mem, g)[j] == TableAt(mem, g)[j])
            && (!m.created3 ==> NextTable(mem, root, Pages.P4Index(p)) == Some(m.p3))
            && (m.created3 ==> NextTable(mem, root, Pages.P4Index(p)).None? && m.p3 != root)
  {
    WritesKeepOthers(mem, root, p, alloc, s3, s2, s1, e);
  }

  /** The final write and the three descents keep every slot off the
      path. */
  lemma WritesKeepOthers(mem: Memory, root: Frame, p: Pages.Page, alloc: FrameAllocators.FrameSource,
                         s3: Descent, s2: Descent, s1: Descent, e: Entry)
    requires FrameAllocators.Valid(alloc)
    requires NextTableCreate(mem, root, Pages.P4Index(p), alloc) == Ok(s3)
    requires FrameAllocators.Valid(s3.alloc)
    requires NextTableCreate(s3.mem, s3.table, Pages.P3Index(p), s3.alloc) == Ok(s2)
    requires FrameAllocators.Valid(s2.alloc)
    requires NextTableCreate(s2.mem, s2.table, Pages.P2Index(p), s2.alloc) == Ok(s1)
    ensures var m := Mapped(WriteEntry(s1.mem, s1.table, Pages.P1Index(p), e), s1.alloc,
                            s3.table, s2.table, s1.table, s3.created, s2.created, s1.created);
            forall g, j :: 0 <= j < Pages.ENTRY_COUNT && !Touched(m, root, p, g, j) ==>
              TableAt(m.mem, g)[j] == TableAt(mem, g)[j]
  {
    var m := Mapped(WriteEntry(s1.mem, s1.table, Pages.P1Index(p), e), s1.alloc,
                    s3.table, s2.table, s1.table, s3.created, s2.created, s1.created);
    forall g, j | 0 <= j < Pages.ENTRY_COUNT && !Touched(m, root, p, g, j)
      ensures TableAt(m.mem, g)[j] == TableAt(mem, g)[j]
    {
      PathKeeps(mem, root, p, alloc, s3, s2, s1, g, j);
    }
  }

  /** The three descents keep every slot they neither fill nor create. */
  lemma PathKeeps(mem: Memory, root: Frame, p: Pages.Page, alloc: FrameAllocators.FrameSource,
                  s3: Descent, s2: Descent, s1: Descent, g: Frame, j: nat)
    requires FrameAllocators.Valid(alloc) && j < Pages.ENTRY_COUNT
    requires NextTableCreate(mem, root, Pages.P4Index(p), alloc) == Ok(s3)
    requires FrameAllocators.Valid(s3.alloc)
    requires NextTableCreate(s3.mem, s3.table, Pages.P3Index(p), s3.alloc) == Ok(s2)
    requires FrameAllocators.Valid(s2.alloc)
    requires NextTableCreate(s2.mem, s2.table, Pages.P2Index(p), s2.alloc) == Ok(s1)
    requires g != root || j != Pages.P4Index(p)
    requires g != s3.table || j != Pages.P3Index(p)
    requires g != s2.table || j != Pages.P2Index(p)
    requires !(s3.created && g == s3.table) && !(s2.created && g == s2.table)
    requires !(s1.created && g == s1.table)
    ensures TableAt(s1.mem, g)[j] == TableAt(mem, g)[j]
  {
    StepKeeps(s2.mem, s2.table, Pages.P2Index(p), s2.alloc, s1, g, j);
    StepKeeps(s3.mem, s3.table, Pages.P3Index(p), s3.alloc, s2, g, j);
    StepKeeps(mem, root, Pages.P4Index(p), alloc, s3, g, j);
  }

  /** The allocator handed out no frame that was already a table on the
      page's path: a created level 2 table is not the level 4 table, and a
      created level 1 table is neither the level 4 nor the level 3 table.
      (The other coincidences make `map_to` abort.) */
  predicate FreshTables(root: Frame, m: Mapped)
  {
    (m.created2 ==> m.p2 != root) && (m.created1 ==> m.p1 != root && m.p1 != m.p3)
  }

  lemma LeadsToTableUsed(e: Entry)
    requires LeadsToTable(e)
    ensures !IsUnused(e)
  {
    UnusedIsEmpty();
  }

  /** A step keeps a slot that leads to a table, unless it turns that
      slot's own frame into a new table. */
  lemma StepKeepsTable(mem: Memory, f: Frame, i: nat, alloc: FrameAllocators.FrameSource, s: Descent,
                       g: Frame, j: nat)
    requires i < Pages.ENTRY_COUNT && FrameAllocators.Valid(alloc) && j < Pages.ENTRY_COUNT
    requires NextTableCreate(mem, f, i, alloc) == Ok(s)
    requires LeadsToTable(TableAt(mem, g)[j]) && (s.created ==> s.table != g)
    ensures TableAt(s.mem, g)[j] == TableAt(mem, g)[j]
  {
    if s.created {
      StepKeeps(mem, f, i, alloc, s, g, j);
    }
  }

  /** The path `map_to` built is intact at the end. */
  lemma PathIntact(mem: Memory, root: Frame, p: Pages.Page, alloc: FrameAllocators.FrameSource,
                   s3: Descent, s2: Descent, s1: Descent, e: Entry)
    requires FrameAllocators.Valid(alloc) && FrameAllocators.Valid(s3.alloc) && FrameAllocators.Valid(s2.alloc)
    requires NextTableCreate(mem, root, Pages.P4Index(p), alloc) == Ok(s3)
    requires NextTableCreate(s3.mem, s3.table, Pages.P3Index(p), s3.alloc) == Ok(s2)
    requires NextTableCreate(s2.mem, s2.table, Pages.P2Index(p), s2.alloc) == Ok(s1)
    requires IsUnused(TableAt(s1.mem, s1.table)[Pages.P1Index(p)])
    requires (s2.created ==> s2.table != root) && (s1.created ==> s1.table != root && s1.table != s3.table)
    ensures DirectPath(WriteEntry(s1.mem, s1.table, Pages.P1Index(p), e), root, p) == PointedFrame(e)
  {
    var i4, i3, i2 := Pages.P4Index(p), Pages.P3Index(p), Pages.P2Index(p);
    PathLinks(mem, root, p, alloc, s3, s2, s1);
    LeadsToTableUsed(TableAt(s1.mem, root)[i4]);
    LeadsToTableUsed(TableAt(s1.mem, s3.table)[i3]);
    LeadsToTableUsed(TableAt(s1.mem, s2.table)[i2]);
  }

  /** After the three descents each level links to the next. */
  lemma PathLinks(mem: Memory, root: Frame, p: Pages.Page, alloc: FrameAllocators.FrameSource,
                  s3: Descent, s2: Descent, s1: Descent)
    requires FrameAllocators.Valid(alloc) && FrameAllocators.Valid(s3.alloc) && FrameAllocators.Valid(s2.alloc)
    requires NextTableCreate(mem, root, Pages.P4Index(p), alloc) == Ok(s3)
    requires NextTableCreate(s3.mem, s3.table, Pages.P3Index(p), s3.alloc) == Ok(s2)
    requires NextTableCreate(s2.mem, s2.table, Pages.P2Index(p), s2.alloc) == Ok(s1)
    requires (s2.created ==> s2.table != root) && (s1.created ==> s1.table != root && s1.table != s3.table)
    ensures NextTable(s1.mem, root, Pages.P4Index(p)) == Some(s3.table)
    ensures NextTable(s1.mem, s3.table, Pages.P3Index(p)) == Some(s2.table)
    ensures NextTable(s1.mem, s2.table, Pages.P2Index(p)) == Some(s1.table)
  {
    var i4, i3, i2 := Pages.P4Index(p), Pages.P3Index(p), Pages.P2Index(p);
    StepKeepsTable(s3.mem, s3.table, i3, s3.alloc, s2, root, i4);
    StepKeepsTable(s2.mem, s2.table, i2, s2.alloc, s1, root, i4);
    StepKeepsTable(s2.mem, s2.table, i2, s2.alloc, s1, s3.table, i3);
  }

  /** The round trip of `map_to` and `translate_page`: once `map_to`
      returns, the page translates to the frame it was mapped to. */
  lemma MapToTranslate(mem: Memory, root: Frame, p: Pages.Page, frame: Frame, flags: nat,
                       alloc: FrameAllocators.FrameSource)
    requires ValidFlags(flags) && FrameAllocators.Valid(alloc)
    requires MapTo(mem, root, p, frame, flags, alloc).Ok?
    requires FreshTables(root, MapTo(mem, root, p, frame, flags, alloc).value)
    ensures TranslatePage(MapTo(mem, root, p, frame, flags, alloc).value.mem, root, p) == Ok(Some(frame))
  {
    var s3, s2, s1, e := MapToSteps(mem, root, p, frame, flags, alloc);
    PathIntact(mem, root, p, alloc, s3, s2, s1, e);
  }

  /** `map_to` never replaces a mapping: on a page that already translates
      (or whose huge-page entry makes `translate_page` abort) it aborts. */
  lemma MapToRefusesMapped(mem: Memory, root: Frame, p: Pages.Page, frame: Frame, flags: nat,
                           alloc: FrameAllocators.FrameSource)
    requires ValidFlags(flags) && FrameAllocators.Valid(alloc)
    requires TranslatePage(mem, root, p) != Ok(None)
    ensures MapTo(mem, root, p, frame, flags, alloc).Err?
  {
    if DirectPath(mem, root, p).Some? {
      MapToRefusesDirect(mem, root, p, frame, flags, alloc);
    } else {
      MapToRefusesHuge(mem, root, p, frame, flags, alloc);
    }
  }

  /** A page mapped through the four levels has a used level-1 slot. */
  lemma MapToRefusesDirect(mem: Memory, root: Frame, p: Pages.Page, frame: Frame, flags: nat,
                           alloc: FrameAllocators.FrameSource)
    requires ValidFlags(flags) && FrameAllocators.Valid(alloc)
    requires DirectPath(mem, root, p).Some?
    ensures MapTo(mem, root, p, frame, flags, alloc).Err?
  {
    var i4, i3, i2, i1 := Pages.P4Index(p), Pages.P3Index(p), Pages.P2Index(p), Pages.P1Index(p);
    var f3 := NextTable(mem, root, i4).value;
    var f2 := NextTable(mem, f3, i3).value;
    var f1 := NextTable(mem, f2, i2).value;
    assert Bit(TableAt(mem, f1)[i1].value, 0);
    BitOfZero(0);
  }

  /** A page under a huge-page entry makes the descent abort. */
  lemma MapToRefusesHuge(mem: Memory, root: Frame, p: Pages.Page, frame: Frame, flags: nat,
                         alloc: FrameAllocators.FrameSource)
    requires ValidFlags(flags) && FrameAllocators.Valid(alloc)
    requires TranslatePage(mem, root, p) != Ok(None) && DirectPath(mem, root, p).None?
    ensures MapTo(mem, root, p, frame, flags, alloc).Err?
  {
    var i4, i3, i2 := Pages.P4Index(p), Pages.P3Index(p), Pages.P2Index(p);
    var f3 := NextTable(mem, root, i4).value;
    if HugeLeaf(TableAt(mem, f3)[i3]) {
      assert NextTable(mem, f3, i3).None?;
    } else {
      var f2 := NextTable(mem, f3, i3).value;
      assert HugeLeaf(TableAt(mem, f2)[i2]);
      assert NextTable(mem, f2, i2).None?;
    }
  }

  /** The table slots `translate_page` reads for page `p`. */
  function ReadSlots(mem: Memory, root: Frame, p: Pages.Page): (s: set<(Frame, nat)>)
    ensures forall x :: x in s ==> x.1 < Pages.ENTRY_COUNT
    ensures forall x :: x in s ==>
              x.1 == Pages.P4Index(p) || x.1 == Pages.P3Index(p) ||
              x.1 == Pages.P2Index(p) || x.1 == Pages.P1Index(p)
    ensures (root, Pages.P4Index(p)) in s
  {
    var i4, i3, i2, i1 := Pages.P4Index(p), Pages.P3Index(p), Pages.P2Index(p), Pages.P1Index(p);
    {(root, i4)} +
    match NextTable(mem, root, i4)
    case None => {}
    case Some(f3) =>
      {(f3, i3)} +
      match NextTable(mem, f3, i3)
      case None => {}
      case Some(f2) =>
        {(f2, i2)} +
        match NextTable(mem, f2, i2)
        case None => {}
        case Some(f1) => {(f1, i1)}
  }

  /** `translate_page` depends on nothing but the slots it reads: two
      memories that agree there translate the page alike. */
  lemma ReadSlotsDetermine(mem: Memory, mem': Memory, root: Frame, p: Pages.Page)
    requires forall x :: x in ReadSlots(mem, root, p) ==> TableAt(mem', x.0)[x.1] == TableAt(mem, x.0)[x.1]
    ensures TranslatePage(mem', root, p) == TranslatePage(mem, root, p)
    ensures ReadSlots(mem', root, p) == ReadSlots(mem, root, p)
  {
    var i4, i3, i2, i1 := Pages.P4Index(p), Pages.P3Index(p), Pages.P2Index(p), Pages.P1Index(p);
    assert (root, i4) in ReadSlots(mem, root, p);
    match NextTable(mem, root, i4)
    case None =>
    case Some(f3) =>
      assert (f3, i3) in ReadSlots(mem, root, p);
      match NextTable(mem, f3, i3)
      case None =>
      case Some(f2) =>
        assert (f2, i2) in ReadSlots(mem, root, p);
        match NextTable(mem, f2, i2)
        case None =>
        case Some(f1) =>
          assert (f1, i1) in ReadSlots(mem, root, p);
  }

  /** `map_to` leaves the translation of every page alone whose slots it
      did not touch. */
  lemma MapToKeepsOthers(mem: Memory, root: Frame, p: Pages.Page, frame: Frame, flags: nat,
                         alloc: FrameAllocators.FrameSource, q: Pages.Page)
    requires ValidFlags(flags) && FrameAllocators.Valid(alloc)
    requires MapTo(mem, root, p, frame, flags, alloc).Ok?
    requires forall x :: x in ReadSlots(mem, root, q) ==>
               !Touched(MapTo(mem, root, p, frame, flags, alloc).value, root, p, x.0, x.1)
    ensures TranslatePage(MapTo(mem, root, p, frame, flags, alloc).value.mem, root, q)
            == TranslatePage(mem, root, q)
  {
    MapToWrites(mem, root, p, frame, flags, alloc);
    ReadSlotsDetermine(mem, MapTo(mem, root, p, frame, flags, alloc).value.mem, root, q);
  }

  /** `Mapper::map`: map the page to a frame taken from the allocator. */
  function Map(mem: Memory, root: Frame, p: Pages.Page, flags: nat,
               alloc: FrameAllocators.FrameSource): (r: Result<Mapped, string>)
    requires ValidFlags(flags) && FrameAllocators.Valid(alloc)
    ensures FrameAllocators.Allocate(alloc).0.None? ==> r == Err("out of memory")
    ensures r.Ok? ==> FrameAllocators.Valid(r.value.alloc)
  {
    var (f, alloc') := FrameAllocators.Allocate(alloc);
    match f
    case None => Err("out of memory")
    case Some(frame) => MapTo(mem, root, p, frame, flags, alloc')
  }

  /** After `map` the page translates to the frame the allocator handed
      out first. */
  lemma MapTranslate(mem: Memory, root: Frame, p: Pages.Page, flags: nat,
                     alloc: FrameAllocators.FrameSource)
    requires ValidFlags(flags) && FrameAllocators.Valid(alloc)
    requires Map(mem, root, p, flags, alloc).Ok?
    requires FreshTables(root, Map(mem, root, p, flags, alloc).value)
    ensures TranslatePage(Map(mem, root, p, flags, alloc).value.mem, root, p)
            == Ok(FrameAllocators.Allocate(alloc).0)
  {
    var (f, alloc') := FrameAllocators.Allocate(alloc);
    MapToTranslate(mem, root, p, f.value, flags, alloc');
  }

  /** `Mapper::identity_map`: map the page at the frame's own address to
      the frame. The frame's start address is computed with overflow
      checking and must be canonical. */
  function IdentityMap(mem: Memory, root: Frame, frame: Frame, flags: nat,
                       alloc: FrameAllocators.FrameSource): (r: Result<Mapped, string>)
    requires ValidFlags(flags) && FrameAllocators.Valid(alloc)
    ensures StartAddress(frame) >= TWO_64 ==> r.Err?
    ensures StartAddress(frame) < TWO_64 && !Pages.Canonical(StartAddress(frame)) ==> r.Err?
    ensures r.Ok? ==> FrameAllocators.Valid(r.value.alloc)
  {
    var start := StartAddress(frame);
    if start >= TWO_64 then Err(MUL_OVERFLOW)
    else
      match Pages.ContainingAddress(start)
      case Err(e) => Err(e)
      case Ok(page) => MapTo(mem, root, page, frame, flags, alloc)
  }

  /** After `identity_map` the frame's start address translates to itself. */
  lemma IdentityMapTranslate(mem: Memory, root: Frame, frame: Frame, flags: nat,
                             alloc: FrameAllocators.FrameSource)
    requires ValidFlags(flags) && FrameAllocators.Valid(alloc)
    requires IdentityMap(mem, root, frame, flags, alloc).Ok?
    requires FreshTables(root, IdentityMap(mem, root, frame, flags, alloc).value)
    ensures StartAddress(frame) < TWO_64
    ensures Translate(IdentityMap(mem, root, frame, flags, alloc).value.mem, root, StartAddress(frame))
            == Ok(Some(StartAddress(frame)))
  {
    var start := StartAddress(frame);
    var page := FramePage(frame);
    MapToTranslate(mem, root, page, frame, flags, alloc);
    TranslateFramePage(MapTo(mem, root, page, frame, flags, alloc).value.mem, root, frame);
  }

  /** The page at the same number as a frame whose start address is a
      canonical `u64`: `identity_map` maps the frame there. */
  function FramePage(frame: Frame): (p: Pages.Page)
    requires StartAddress(frame) < TWO_64 && Pages.Canonical(StartAddress(frame))
    ensures p.number == frame.number
    ensures Pages.ContainingAddress(StartAddress(frame)) == Ok(p)
  {
    DivModOf(frame.number, PAGE_SIZE, 0);
    Pages.Page(frame.number)
  }

  /** When the page at a frame's number translates to that frame, the
      frame's start address translates to itself. */
  lemma TranslateFramePage(mem: Memory, root: Frame, frame: Frame)
    requires StartAddress(frame) < TWO_64 && Pages.Canonical(StartAddress(frame))
    requires TranslatePage(mem, root, FramePage(frame)) == Ok(Some(frame))
    ensures Translate(mem, root, StartAddress(frame)) == Ok(Some(StartAddress(frame)))
  {
    DivModOf(frame.number, PAGE_SIZE, 0);
  }

  /** The level 1 table on the page's path, when levels 4, 3 and 2 all lead
      to tables (`next_table_mut` three times). */
  function P1Table(mem: Memory, root: Frame, p: Pages.Page): Option<Frame>
  {
    match NextTable(mem, root, Pages.P4Index(p))
    case None => None
    case Some(f3) =>
      match NextTable(mem, f3, Pages.P3Index(p))
      case None => None
      case Some(f2) => NextTable(mem, f2, Pages.P2Index(p))
  }

  /** `Mapper::unmap`: the page must translate; its level 1 entry is
      cleared. A page mapped by a huge entry aborts. The allocator argument
      is unused by the source and left out. */
  function Unmap(mem: Memory, root: Frame, p: Pages.Page): (r: Result<Memory, string>)
    ensures r.Ok? ==> Pages.StartAddress(p) < TWO_64 && TranslatePage(mem, root, p).Ok? &&
                      TranslatePage(mem, root, p).value.Some?
    ensures r.Ok? ==> TranslatePage(r.value, root, p) == Ok(None)
  {
    var start := Pages.StartAddress(p);
    if start >= TWO_64 then Err(MUL_OVERFLOW)
    else
      match Translate(mem, root, start)
      case Err(e) => Err(e)
      case Ok(None) => Err("assertion failed: self.translate(page.start_address()).is_some()")
      case Ok(Some(_)) =>
        match P1Table(mem, root, p)
        case None => Err("mapping code does not support huge pages")
        case Some(f1) =>
          UnmapClears(mem, root, p, start, f1);
          Ok(WriteEntry(mem, f1, Pages.P1Index(p), UNUSED))
  }

  /** Clearing the level 1 slot leaves the page untranslated, even when that
      slot is also one of the slots above it on the path (as in the
      recursive window). */
  lemma UnmapClears(mem: Memory, root: Frame, p: Pages.Page, start: nat, f1: Frame)
    requires start == Pages.StartAddress(p) && start < TWO_64
    requires Translate(mem, root, start).Ok? && Translate(mem, root, start).value.Some?
    requires P1Table(mem, root, p) == Some(f1)
    ensures TranslatePage(mem, root, p).Ok? && TranslatePage(mem, root, p).value.Some?
    ensures TranslatePage(WriteEntry(mem, f1, Pages.P1Index(p), UNUSED), root, p) == Ok(None)
  {
    DivModOf(p.number, PAGE_SIZE, 0);
    assert Pages.ContainingAddress(start) == Ok(p);
    var m := WriteEntry(mem, f1, Pages.P1Index(p), UNUSED);
    var i4, i3, i2, i1 := Pages.P4Index(p), Pages.P3Index(p), Pages.P2Index(p), Pages.P1Index(p);
    UnusedIsEmpty();
    LeadsToUnused();
    var f3 := NextTable(mem, root, i4).value;
    var f2 := NextTable(mem, f3, i3).value;
    if (f1, i1) == (root, i4) {
      assert NextTable(m, root, i4).None?;
    } else if (f1, i1) == (f3, i3) {
      assert NextTable(m, root, i4) == Some(f3);
      assert !HugeLeaf(TableAt(m, f3)[i3]);
      assert NextTable(m, f3, i3).None?;
    } else if (f1, i1) == (f2, i2) {
      assert NextTable(m, root, i4) == Some(f3);
      assert NextTable(m, f3, i3) == Some(f2);
      assert !HugeLeaf(TableAt(m, f3)[i3]);
      assert !HugeLeaf(TableAt(m, f2)[i2]);
    } else {
      assert DirectPath(m, root, p).None?;
      assert !HugeLeaf(TableAt(m, f3)[i3]);
      assert !HugeLeaf(TableAt(m, f2)[i2]);
    }
  }

  lemma LeadsToUnused()
    ensures !LeadsToTable(UNUSED) && PointedFrame(UNUSED).None?
  {
    UnusedIsEmpty();
  }

  /** `unmap` changes the translation of no page that does not read the
      cleared slot. */
  lemma UnmapKeepsOthers(mem: Memory, root: Frame, p: Pages.Page, q: Pages.Page)
    requires Unmap(mem, root, p).Ok?
    ensures P1Table(mem, root, p).Some?
    ensures (P1Table(mem, root, p).value, Pages.P1Index(p)) !in ReadSlots(mem, root, q) ==>
              TranslatePage(Unmap(mem, root, p).value, root, q) == TranslatePage(mem, root, q)
  {
    var f1 := P1Table(mem, root, p).value;
    if (f1, Pages.P1Index(p)) !in ReadSlots(mem, root, q) {
      ReadSlotsDetermine(mem, Unmap(mem, root, p).value, root, q);
    }
  }

  /** What a successful `unmap` writes: the level 1 slot of the page, set
      to unused. */
  lemma UnmapWrite(mem: Memory, root: Frame, p: Pages.Page)
    requires Unmap(mem, root, p).Ok?
    ensures P1Table(mem, root, p).Some?
    ensures Unmap(mem, root, p).value == WriteEntry(mem, P1Table(mem, root, p).value, Pages.P1Index(p), UNUSED)
  {
  }

  /** A page with a 4 KiB mapping at a canonical address can be unmapped. */
  lemma UnmapDirect(m: Memory, root: Frame, p: Pages.Page)
    requires Pages.StartAddress(p) < TWO_64 && Pages.Canonical(Pages.StartAddress(p))
    requires DirectPath(m, root, p).Some?
    ensures Unmap(m, root, p).Ok?
  {
    Pages.StartAddressRoundTrip(p);
  }

  /** `unmap` undoes `map_to`: a page just mapped (at a canonical address)
      can be unmapped, and then translates to nothing again. */
  lemma MapToThenUnmap(mem: Memory, root: Frame, p: Pages.Page, frame: Frame, flags: nat,
                       alloc: FrameAllocators.FrameSource)
    requires ValidFlags(flags) && FrameAllocators.Valid(alloc)
    requires Pages.StartAddress(p) < TWO_64 && Pages.Canonical(Pages.StartAddress(p))
    requires MapTo(mem, root, p, frame, flags, alloc).Ok?
    requires FreshTables(root, MapTo(mem, root, p, frame, flags, alloc).value)
    ensures var m := MapTo(mem, root, p, frame, flags, alloc).value.mem;
            Unmap(m, root, p).Ok? && TranslatePage(Unmap(m, root, p).value, root, p) == Ok(None)
  {
    var s3, s2, s1, e := MapToSteps(mem, root, p, frame, flags, alloc);
    PathIntact(mem, root, p, alloc, s3, s2, s1, e);
    UnmapDirect(MapTo(mem, root, p, frame, flags, alloc).value.mem, root, p);
  }
}
