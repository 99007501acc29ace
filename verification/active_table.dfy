/** The active and inactive page tables of v1/src/memory/paging/mod.rs:
    `ActivePageTable::with`, which lets the mapper edit an inactive table
    through the recursive slot of the active one, `switch`, which loads
    CR3, and `InactivePageTable::new`.

    A machine is physical memory plus the CR3 register. Writes the source
    makes through a raw virtual address (the `P4` window, the temporary
    page) go wherever the processor's walk of that address leads; the
    translation caches are not modelled, so every walk reads memory as it
    is. */
module ActivePageTables {
  import opened Base
  import opened Frames
  import opened Entries
  import opened Tables
  import Pages
  import PageWalk
  import FrameAllocators
  import Mapper
  import TemporaryPages

  /** Physical memory and the CR3 register (the physical address of the
      active level 4 table). */
  datatype Machine = Machine(mem: Memory, cr3: u64)

  /** `InactivePageTable { p4_frame }`. */
  datatype InactivePageTable = InactivePageTable(p4Frame: Frame)

  /** `Frame::containing_address(cr3_read())`. */
  function ActiveFrame(m: Machine): Frame
  {
    Frames.ContainingAddress(m.cr3)
  }

  /** The recursive entry of the active table is in place, as the boot code
      leaves it; the mapper's `P4` window depends on it. */
  predicate ActiveRecursive(m: Machine)
  {
    PageWalk.Recursive(m.mem, ActiveFrame(m))
  }

  /** Store `e` in slot `i` of the table the processor finds at virtual
      address `v`; an address that does not translate faults. */
  function WriteVirtual(mem: Memory, cr3: Frame, v: u64, i: nat, e: Entry): (r: Result<Memory, string>)
    requires i < Pages.ENTRY_COUNT
    ensures PageWalk.Walk(mem, cr3, v).None? <==> r.Err?
    ensures r.Ok? ==> r.value == WriteEntry(mem, Frames.ContainingAddress(PageWalk.Walk(mem, cr3, v).value), i, e)
  {
    match PageWalk.Walk(mem, cr3, v)
    case None => Err("page fault")
    case Some(pa) => Ok(WriteEntry(mem, Frames.ContainingAddress(pa), i, e))
  }

  /** `Table::zero` on the table at virtual address `v`. */
  function ZeroVirtual(mem: Memory, cr3: Frame, v: u64): (r: Result<Memory, string>)
    ensures PageWalk.Walk(mem, cr3, v).None? <==> r.Err?
    ensures r.Ok? ==> r.value == ZeroFrame(mem, Frames.ContainingAddress(PageWalk.Walk(mem, cr3, v).value))
  {
    match PageWalk.Walk(mem, cr3, v)
    case None => Err("page fault")
    case Some(pa) => Ok(ZeroFrame(mem, Frames.ContainingAddress(pa)))
  }

  /** The mapper calls a closure passed to `with` can make. */
  datatype MapperOp =
    | MapToOp(page: Pages.Page, frame: Frame, flags: nat)
    | MapOp(page: Pages.Page, flags: nat)
    | IdentityMapOp(frame: Frame, flags: nat)
    | UnmapOp(page: Pages.Page)

  predicate OpValid(op: MapperOp)
  {
    !op.UnmapOp? ==> ValidFlags(op.flags)
  }

  predicate OpsValid(ops: seq<MapperOp>)
  {
    forall k :: 0 <= k < |ops| ==> OpValid(ops[k])
  }

  function RunOp(mem: Memory, root: Frame, op: MapperOp, alloc: FrameAllocators.FrameSource)
    : (r: Result<(Memory, FrameAllocators.FrameSource), string>)
    requires OpValid(op) && FrameAllocators.Valid(alloc)
    ensures r.Ok? ==> FrameAllocators.Valid(r.value.1)
  {
    var m := match op
      case MapToOp(page, frame, flags) => Mapper.MapTo(mem, root, page, frame, flags, alloc)
      case MapOp(page, flags) => Mapper.Map(mem, root, page, flags, alloc)
      case IdentityMapOp(frame, flags) => Mapper.IdentityMap(mem, root, frame, flags, alloc)
      case UnmapOp(page) =>
        match Mapper.Unmap(mem, root, page)
        case Err(e) => Err(e)
        case Ok(mem') => Ok(Mapper.Mapped(mem', alloc, root, root, root, false, false, false));
    match m
    case Err(e) => Err(e)
    case Ok(mapped) => Ok((mapped.mem, mapped.alloc))
  }

  /** The closure's calls, in order; the first abort ends the run. */
  function RunOps(mem: Memory, root: Frame, ops: seq<MapperOp>, alloc: FrameAllocators.FrameSource)
    : (r: Result<(Memory, FrameAllocators.FrameSource), string>)
    requires OpsValid(ops) && FrameAllocators.Valid(alloc)
    ensures r.Ok? ==> FrameAllocators.Valid(r.value.1)
    ensures ops == [] ==> r == Ok((mem, alloc))
    ensures |ops| == 1 ==> r == RunOp(mem, root, ops[0], alloc)
    decreases |ops|
  {
    if ops == [] then Ok((mem, alloc))
    else
      match RunOp(mem, root, ops[0], alloc)
      case Err(e) => Err(e)
      case Ok((mem', alloc')) => RunOps(mem', root, ops[1..], alloc')
  }

  /** A closure's calls split anywhere: running `a + b` is running `a` and
      then `b` on what it leaves, and an abort in `a` ends the whole run. */
  lemma {:induction false} RunOpsAppend(mem: Memory, root: Frame, a: seq<MapperOp>, b: seq<MapperOp>,
                                        alloc: FrameAllocators.FrameSource)
    requires OpsValid(a) && OpsValid(b) && FrameAllocators.Valid(alloc)
    ensures OpsValid(a + b)
    ensures RunOps(mem, root, a + b, alloc) ==
              match RunOps(mem, root, a, alloc)
              case Err(e) => Err(e)
              case Ok((mem', alloc')) => RunOps(mem', root, b, alloc')
    decreases |a|
  {
    assert OpsValid(a + b) by {
      forall k | 0 <= k < |a + b| ensures OpValid((a + b)[k]) {
        if k < |a| { assert (a + b)[k] == a[k]; } else { assert (a + b)[k] == b[k - |a|]; }
      }
    }
    if a != [] {
      assert (a + b)[0] == a[0];
      assert (a + b)[1..] == a[1..] + b;
      assert OpsValid(a[1..]) by {
        forall k | 0 <= k < |a[1..]| ensures OpValid(a[1..][k]) { assert a[1..][k] == a[k + 1]; }
      }
      match RunOp(mem, root, a[0], alloc)
      case Err(e) =>
      case Ok((mem', alloc')) =>
        RunOpsAppend(mem', root, a[1..], b, alloc');
    } else {
      assert a + b == b;
    }
  }

  /** Memory and temporary page once `with` has redirected slot 511. */
  datatype Entered = Entered(mem: Memory, backup: Frame, mapped: TemporaryPages.TempMapped)

  /** `with`, lines before the closure: map the active level 4 table at the
      temporary page, then point slot 511 of it (through `P4`) at the
      inactive table. */
  function Enter(m: Machine, table: InactivePageTable, tp: TemporaryPages.TemporaryPage): (r: Result<Entered, string>)
    requires TemporaryPages.Valid(tp)
    ensures r.Ok? ==> r.value.backup == ActiveFrame(m) && TemporaryPages.Valid(r.value.mapped.temp)
    ensures r.Ok? ==> r.value.mapped.temp.page == tp.page
    ensures table.p4Frame.number >= MAX_FRAMES ==> r.Err?
  {
    var backup := ActiveFrame(m);
    match TemporaryPages.Map(tp, backup, m.mem, ActiveFrame(m))
    case Err(e) => Err(e)
    case Ok(tm) =>
      Mapper.PresentWritable();
      match Set(table.p4Frame, Mapper.PRESENT_WRITABLE)
      case Err(e) => Err(e)
      case Ok(e) =>
        match WriteVirtual(tm.mem, ActiveFrame(m), P4, 511, e)
        case Err(err) => Err(err)
        case Ok(mem') => Ok(Entered(mem', backup, tm))
  }

  /** `with`, lines after the closure: restore slot 511 of the active table
      through the temporary page, then unmap the temporary page. */
  function Leave(mem: Memory, root: Frame, en: Entered): (r: Result<Memory, string>)
    ensures r.Ok? ==> Mapper.TranslatePage(r.value, root, en.mapped.temp.page) == Ok(None)
  {
    Mapper.PresentWritable();
    match Set(en.backup, Mapper.PRESENT_WRITABLE)
    case Err(e) => Err(e)
    case Ok(e) =>
      match WriteVirtual(mem, root, en.mapped.address, 511, e)
      case Err(err) => Err(err)
      case Ok(mem') => TemporaryPages.Unmap(en.mapped.temp, mem', root)
  }

  /** What `with` has done when its closure returns: the entered state and
      the memory and allocator the closure left. */
  function Body(m: Machine, table: InactivePageTable, tp: TemporaryPages.TemporaryPage,
                ops: seq<MapperOp>, alloc: FrameAllocators.FrameSource)
    : (r: Result<(Entered, Memory, FrameAllocators.FrameSource), string>)
    requires TemporaryPages.Valid(tp) && OpsValid(ops) && FrameAllocators.Valid(alloc)
    ensures r.Ok? ==> FrameAllocators.Valid(r.value.2) && r.value.0.mapped.temp.page == tp.page
    ensures r.Ok? ==> Enter(m, table, tp) == Ok(r.value.0)
  {
    match Enter(m, table, tp)
    case Err(e) => Err(e)
    case Ok(en) =>
      match RunOps(en.mem, table.p4Frame, ops, alloc)
      case Err(e) => Err(e)
      case Ok((mem', alloc')) => Ok((en, mem', alloc'))
  }

  /** `ActivePageTable::with`: run the closure's mapper calls on `table`,
      then restore the active table. CR3 is never written. */
  function With(m: Machine, table: InactivePageTable, tp: TemporaryPages.TemporaryPage,
                ops: seq<MapperOp>, alloc: FrameAllocators.FrameSource)
    : (r: Result<(Machine, TemporaryPages.TemporaryPage, FrameAllocators.FrameSource), string>)
    requires TemporaryPages.Valid(tp) && OpsValid(ops) && FrameAllocators.Valid(alloc)
    ensures r.Ok? ==> r.value.0.cr3 == m.cr3
    ensures r.Ok? ==> TemporaryPages.Valid(r.value.1) && r.value.1.page == tp.page
    ensures r.Ok? ==> FrameAllocators.Valid(r.value.2)
  {
    match Body(m, table, tp, ops, alloc)
    case Err(e) => Err(e)
    case Ok((en, mem', alloc')) =>
      match Leave(mem', ActiveFrame(m), en)
      case Err(e) => Err(e)
      case Ok(mem'') => Ok((Machine(mem'', m.cr3), en.mapped.temp, alloc'))
  }

  /** A page none of whose table indices is the recursive slot. */
  predicate AvoidsWindow(p: Pages.Page)
  {
    Pages.P4Index(p) != 511 && Pages.P3Index(p) != 511 &&
    Pages.P2Index(p) != 511 && Pages.P1Index(p) != 511
  }

  /** The temporary page `remap_the_kernel` uses avoids the window. */
  lemma CafeBabeAvoidsWindow()
    ensures AvoidsWindow(Pages.Page(0xcafebabe))
    ensures Pages.StartAddress(Pages.Page(0xcafebabe)) < TWO_64
    ensures Pages.Canonical(Pages.StartAddress(Pages.Page(0xcafebabe)))
  {
  }

  /** Slot 511 of any table is not among the slots `translate_page` reads
      for a page that avoids the window. */
  lemma WindowSlotUnread(mem: Memory, root: Frame, p: Pages.Page, f: Frame)
    requires AvoidsWindow(p)
    ensures (f, 511) !in Mapper.ReadSlots(mem, root, p)
  {
  }

  /** A page mapped to `frame` by a 4 KiB or huge entry: the processor
      finds `frame` at the page's start address. */
  lemma PageWalkFrame(mem: Memory, root: Frame, p: Pages.Page, frame: Frame)
    requires Pages.StartAddress(p) < TWO_64 && Pages.Canonical(Pages.StartAddress(p))
    requires Mapper.TranslatePage(mem, root, p) == Ok(Some(frame))
    ensures PageWalk.Walk(mem, root, Pages.StartAddress(p)) == Some(StartAddress(frame))
    ensures Frames.ContainingAddress(StartAddress(frame)) == frame
  {
    Pages.StartAddressRoundTrip(p);
    DivModOf(p.number, PAGE_SIZE, 0);
    Mapper.TranslateMatchesWalk(mem, root, Pages.StartAddress(p));
    ContainingStartRoundTrip(frame);
  }

  /** `set(frame, PRESENT | WRITABLE)` links to `frame`. */
  lemma LinkEntry(f: Frame)
    requires f.number < MAX_FRAMES
    ensures ValidFlags(Mapper.PRESENT_WRITABLE) && Set(f, Mapper.PRESENT_WRITABLE).Ok?
    ensures LeadsToTable(Set(f, Mapper.PRESENT_WRITABLE).value)
    ensures PointedFrame(Set(f, Mapper.PRESENT_WRITABLE).value) == Some(f)
    ensures Flags(Set(f, Mapper.PRESENT_WRITABLE).value) == Mapper.PRESENT_WRITABLE
  {
    Mapper.PresentWritable();
  }

  /** Like `ReadSlotsDetermine`, for the 4 KiB path alone. */
  lemma DirectPathDetermine(mem: Memory, mem': Memory, root: Frame, p: Pages.Page)
    requires forall x :: x in Mapper.ReadSlots(mem, root, p) ==> TableAt(mem', x.0)[x.1] == TableAt(mem, x.0)[x.1]
    ensures Mapper.DirectPath(mem', root, p) == Mapper.DirectPath(mem, root, p)
  {
    var i4, i3, i2, i1 := Pages.P4Index(p), Pages.P3Index(p), Pages.P2Index(p), Pages.P1Index(p);
    assert (root, i4) in Mapper.ReadSlots(mem, root, p);
    match NextTable(mem, root, i4)
    case None =>
    case Some(f3) =>
      assert (f3, i3) in Mapper.ReadSlots(mem, root, p);
      match NextTable(mem, f3, i3)
      case None =>
      case Some(f2) =>
        assert (f2, i2) in Mapper.ReadSlots(mem, root, p);
        match NextTable(mem, f2, i2)
        case None =>
        case Some(f1) =>
          assert (f1, i1) in Mapper.ReadSlots(mem, root, p);
  }

  /** Writing slot 511 of any table changes neither the translation nor
      the 4 KiB path of a page that avoids the window. */
  lemma Slot511Invisible(mem: Memory, root: Frame, p: Pages.Page, f: Frame, e: Entry)
    requires AvoidsWindow(p)
    ensures Mapper.TranslatePage(WriteEntry(mem, f, 511, e), root, p) == Mapper.TranslatePage(mem, root, p)
    ensures Mapper.DirectPath(WriteEntry(mem, f, 511, e), root, p) == Mapper.DirectPath(mem, root, p)
  {
    WindowSlotUnread(mem, root, p, f);
    Mapper.ReadSlotsDetermine(mem, WriteEntry(mem, f, 511, e), root, p);
    DirectPathDetermine(mem, WriteEntry(mem, f, 511, e), root, p);
  }

  /** The memory `TemporaryPage::map` leaves: slot 511 of the root is as
      before, and the page's 4 KiB path reaches `frame`. */
  lemma TempMapShape(t: TemporaryPages.TemporaryPage, frame: Frame, mem: Memory, root: Frame)
    requires TemporaryPages.Valid(t) && AvoidsWindow(t.page)
    requires TemporaryPages.Map(t, frame, mem, root).Ok?
    requires Mapper.FreshTables(root, TemporaryPages.Map(t, frame, mem, root).value.mapping)
    ensures var tm := TemporaryPages.Map(t, frame, mem, root).value;
            TableAt(tm.mem, root)[511] == TableAt(mem, root)[511] &&
            Mapper.DirectPath(tm.mem, root, t.page) == Some(frame)
  {
    TemporaryPages.WritableValid();
    var alloc := FrameAllocators.Tiny(t.allocator);
    var s3, s2, s1, e := Mapper.MapToSteps(mem, root, t.page, frame, WRITABLE, alloc);
    Mapper.MapToWrites(mem, root, t.page, frame, WRITABLE, alloc);
    Mapper.PathIntact(mem, root, t.page, alloc, s3, s2, s1, e);
    var m := Mapper.MapTo(mem, root, t.page, frame, WRITABLE, alloc).value;
    assert !Mapper.Touched(m, root, t.page, root, 511);
  }

  /** During the `with` body slot 511 of the active table points, present
      and writable, at the inactive table, so the mapper's recursive
      addresses reach the inactive table's hierarchy; the temporary page
      still maps the active table. CR3 has not been written. */
  lemma EnterRedirects(m: Machine, table: InactivePageTable, tp: TemporaryPages.TemporaryPage)
    requires TemporaryPages.Valid(tp) && ActiveRecursive(m) && AvoidsWindow(tp.page)
    requires Enter(m, table, tp).Ok?
    requires Mapper.FreshTables(ActiveFrame(m), Enter(m, table, tp).value.mapped.mapping)
    ensures var en, root := Enter(m, table, tp).value, ActiveFrame(m);
            && NextTable(en.mem, root, 511) == Some(table.p4Frame)
            && Flags(TableAt(en.mem, root)[511]) == Mapper.PRESENT_WRITABLE
            && Mapper.DirectPath(en.mem, root, tp.page) == Some(root)
            && Mapper.TranslatePage(en.mem, root, tp.page) == Ok(Some(root))
    ensures var en, root := Enter(m, table, tp).value, ActiveFrame(m);
            PageWalk.Recursive(en.mem, table.p4Frame) ==>
              && PageWalk.Walk(en.mem, root, P4) == Some(StartAddress(table.p4Frame))
              && (forall v: u64 :: (v / PageWalk.TWO_39) % 512 == 511 ==>
                    PageWalk.Walk(en.mem, root, v) == PageWalk.Walk(en.mem, table.p4Frame, v))
  {
    var root := ActiveFrame(m);
    var tm := TemporaryPages.Map(tp, root, m.mem, root).value;
    TempMapShape(tp, root, m.mem, root);
    TemporaryPages.MapTranslates(tp, root, m.mem, root);
    assert PageWalk.Recursive(tm.mem, root);
    PageWalk.WindowLevel4(tm.mem, root);
    ContainingStartRoundTrip(root);
    LinkEntry(table.p4Frame);
    var e := Set(table.p4Frame, Mapper.PRESENT_WRITABLE).value;
    var en := Enter(m, table, tp).value;
    assert en.mem == WriteEntry(tm.mem, root, 511, e);
    Slot511Invisible(tm.mem, root, tp.page, root, e);
    if PageWalk.Recursive(en.mem, table.p4Frame) {
      P4Window(en.mem, table.p4Frame);
      PageWalk.WindowRedirect(en.mem, root, table.p4Frame, P4);
      forall v: u64 | (v / PageWalk.TWO_39) % 512 == 511
        ensures PageWalk.Walk(en.mem, root, v) == PageWalk.Walk(en.mem, table.p4Frame, v)
      {
        PageWalk.WindowRedirect(en.mem, root, table.p4Frame, v);
      }
    }
  }

  /** `P4` lies in the window of slot 511 and maps a recursive table onto
      itself. */
  lemma P4Window(mem: Memory, f: Frame)
    requires PageWalk.Recursive(mem, f)
    ensures (P4 / PageWalk.TWO_39) % 512 == 511
    ensures PageWalk.Walk(mem, f, P4) == Some(StartAddress(f))
  {
    PageWalk.WindowLevel4(mem, f);
  }

  /** After the closure, provided it left the temporary page's 4 KiB
      mapping of the active table in place, `with` restores slot 511 of the
      active table to the active table itself, present and writable, and
      unmaps the temporary page. */
  lemma LeaveRestores(mem: Memory, root: Frame, en: Entered)
    requires AvoidsWindow(en.mapped.temp.page) && en.backup == root
    requires en.mapped.address == Pages.StartAddress(en.mapped.temp.page)
    requires Pages.Canonical(en.mapped.address)
    requires Mapper.DirectPath(mem, root, en.mapped.temp.page) == Some(root)
    ensures Leave(mem, root, en).Ok?
    ensures NextTable(Leave(mem, root, en).value, root, 511) == Some(root)
    ensures Flags(TableAt(Leave(mem, root, en).value, root)[511]) == Mapper.PRESENT_WRITABLE
    ensures Mapper.TranslatePage(Leave(mem, root, en).value, root, en.mapped.temp.page) == Ok(None)
  {
    LeaveRelinks(mem, root, en);
    var mem' := WriteEntry(mem, root, 511, Set(root, Mapper.PRESENT_WRITABLE).value);
    UnmapKeepsLink(mem', root, en.mapped.temp.page);
  }

  /** The second step of `Leave`: unmapping the temporary page, whose P1
      table is the root itself, clears a slot other than 511 and so keeps
      the recursive link. */
  lemma UnmapKeepsLink(mem: Memory, root: Frame, p: Pages.Page)
    requires AvoidsWindow(p)
    requires Pages.StartAddress(p) < TWO_64 && Pages.Canonical(Pages.StartAddress(p))
    requires Mapper.DirectPath(mem, root, p) == Some(root)
    requires NextTable(mem, root, 511) == Some(root)
    requires Flags(TableAt(mem, root)[511]) == Mapper.PRESENT_WRITABLE
    ensures Mapper.Unmap(mem, root, p).Ok?
    ensures NextTable(Mapper.Unmap(mem, root, p).value, root, 511) == Some(root)
    ensures Flags(TableAt(Mapper.Unmap(mem, root, p).value, root)[511]) == Mapper.PRESENT_WRITABLE
  {
    Mapper.UnmapDirect(mem, root, p);
    var f1 := Mapper.P1Table(mem, root, p).value;
    assert Mapper.Unmap(mem, root, p) == Ok(WriteEntry(mem, f1, Pages.P1Index(p), UNUSED));
  }

  /** The first step of `Leave`: the write of the saved root back into
      slot 511 goes through the recursive window to the root itself, and
      leaves the temporary page's walk as it was. */
  lemma LeaveRelinks(mem: Memory, root: Frame, en: Entered)
    requires AvoidsWindow(en.mapped.temp.page) && en.backup == root
    requires en.mapped.address == Pages.StartAddress(en.mapped.temp.page)
    requires Pages.Canonical(en.mapped.address)
    requires Mapper.DirectPath(mem, root, en.mapped.temp.page) == Some(root)
    ensures Set(root, Mapper.PRESENT_WRITABLE).Ok?
    ensures var mem' := WriteEntry(mem, root, 511, Set(root, Mapper.PRESENT_WRITABLE).value);
            && Leave(mem, root, en) == TemporaryPages.Unmap(en.mapped.temp, mem', root)
            && Mapper.DirectPath(mem', root, en.mapped.temp.page) == Some(root)
            && NextTable(mem', root, 511) == Some(root)
            && Flags(TableAt(mem', root)[511]) == Mapper.PRESENT_WRITABLE
  {
    var p := en.mapped.temp.page;
    assert Mapper.TranslatePage(mem, root, p) == Ok(Some(root));
    PageWalkFrame(mem, root, p, root);
    LinkEntry(root);
    var e := Set(root, Mapper.PRESENT_WRITABLE).value;
    var mem' := WriteEntry(mem, root, 511, e);
    assert WriteVirtual(mem, root, en.mapped.address, 511, e) == Ok(mem');
    Slot511Invisible(mem, root, p, root, e);
  }

  /** The whole of `with`: when entering succeeds on a machine whose active
      table is recursive, and the closure leaves the temporary page's
      mapping alone, `with` completes, CR3 is unchanged, slot 511 of the
      active table is back to the active table and the temporary page is
      unmapped. */
  lemma WithRestores(m: Machine, table: InactivePageTable, tp: TemporaryPages.TemporaryPage,
                     ops: seq<MapperOp>, alloc: FrameAllocators.FrameSource)
    requires TemporaryPages.Valid(tp) && OpsValid(ops) && FrameAllocators.Valid(alloc)
    requires ActiveRecursive(m) && AvoidsWindow(tp.page) && Pages.StartAddress(tp.page) < TWO_64 &&
             Pages.Canonical(Pages.StartAddress(tp.page))
    requires Body(m, table, tp, ops, alloc).Ok?
    requires Mapper.FreshTables(ActiveFrame(m), Body(m, table, tp, ops, alloc).value.0.mapped.mapping)
    requires Mapper.DirectPath(Body(m, table, tp, ops, alloc).value.1, ActiveFrame(m), tp.page)
             == Some(ActiveFrame(m))
    ensures var r := With(m, table, tp, ops, alloc);
            && r.Ok?
            && r.value.0.cr3 == m.cr3
            && ActiveRecursive(r.value.0)
            && Flags(TableAt(r.value.0.mem, ActiveFrame(m))[511]) == Mapper.PRESENT_WRITABLE
            && Mapper.TranslatePage(r.value.0.mem, ActiveFrame(m), tp.page) == Ok(None)
  {
    var b := Body(m, table, tp, ops, alloc).value;
    var en := b.0;
    LeaveRestores(b.1, ActiveFrame(m), en);
  }

  /** `ActivePageTable::switch`: load the new table's start address into
      CR3 and hand back the previously active table. */
  function Switch(m: Machine, next: InactivePageTable): (r: Result<(Machine, InactivePageTable), string>)
    ensures StartAddress(next.p4Frame) >= TWO_64 <==> r.Err?
    ensures r.Ok? ==> r.value.0.mem == m.mem && ActiveFrame(r.value.0) == next.p4Frame
    ensures r.Ok? ==> r.value.1.p4Frame == ActiveFrame(m)
  {
    var previous := InactivePageTable(ActiveFrame(m));
    var address := StartAddress(next.p4Frame);
    if address >= TWO_64 then Err(MUL_OVERFLOW)
    else
      ContainingStartRoundTrip(next.p4Frame);
      Ok((Machine(m.mem, address), previous))
  }

  /** Switching back to the table `switch` returned makes the original table
      active again, with memory untouched. */
  lemma SwitchBack(m: Machine, next: InactivePageTable)
    requires Switch(m, next).Ok?
    ensures var (m', previous) := Switch(m, next).value;
            && Switch(m', previous).Ok?
            && Switch(m', previous).value.0.mem == m.mem
            && ActiveFrame(Switch(m', previous).value.0) == ActiveFrame(m)
            && Switch(m', previous).value.1 == next
  {
    var (m', previous) := Switch(m, next).value;
    assert m.cr3 / PAGE_SIZE * PAGE_SIZE <= m.cr3;
  }

  /** `InactivePageTable::new`: map `frame` at the temporary page, zero it,
      make its slot 511 point at itself, and unmap the temporary page. */
  function InactiveNew(frame: Frame, m: Machine, tp: TemporaryPages.TemporaryPage)
    : (r: Result<(InactivePageTable, Machine, TemporaryPages.TemporaryPage), string>)
    requires TemporaryPages.Valid(tp)
    ensures r.Ok? ==> r.value.0.p4Frame == frame && r.value.1.cr3 == m.cr3
    ensures r.Ok? ==> TemporaryPages.Valid(r.value.2) && r.value.2.page == tp.page
    ensures r.Ok? ==> Mapper.TranslatePage(r.value.1.mem, ActiveFrame(m), tp.page) == Ok(None)
    ensures frame.number >= MAX_FRAMES ==> r.Err?
  {
    var root := ActiveFrame(m);
    match TemporaryPages.Map(tp, frame, m.mem, root)
    case Err(e) => Err(e)
    case Ok(tm) =>
      match ZeroVirtual(tm.mem, root, tm.address)
      case Err(e) => Err(e)
      case Ok(zeroed) =>
        Mapper.PresentWritable();
        match Set(frame, Mapper.PRESENT_WRITABLE)
        case Err(e) => Err(e)
        case Ok(e) =>
          match WriteVirtual(zeroed, root, tm.address, 511, e)
          case Err(err) => Err(err)
          case Ok(linked) =>
            match TemporaryPages.Unmap(tm.temp, linked, root)
            case Err(err) => Err(err)
            case Ok(mem') => Ok((InactivePageTable(frame), Machine(mem', m.cr3), tm.temp))
  }

  /** The table `InactivePageTable::new` builds is empty except for slot
      511, which links it to itself present and writable, so it is
      recursive. */
  lemma InactiveNewShape(frame: Frame, m: Machine, tp: TemporaryPages.TemporaryPage)
    requires TemporaryPages.Valid(tp) && AvoidsWindow(tp.page)
    requires Pages.StartAddress(tp.page) < TWO_64 && Pages.Canonical(Pages.StartAddress(tp.page))
    requires InactiveNew(frame, m, tp).Ok?
    requires Mapper.FreshTables(ActiveFrame(m), TemporaryPages.Map(tp, frame, m.mem, ActiveFrame(m)).value.mapping)
    ensures var mem := InactiveNew(frame, m, tp).value.1.mem;
            && (forall j :: 0 <= j < Pages.ENTRY_COUNT && j != 511 ==> IsUnused(TableAt(mem, frame)[j]))
            && PageWalk.Recursive(mem, frame)
            && Flags(TableAt(mem, frame)[511]) == Mapper.PRESENT_WRITABLE
  {
    var zeroed, f1 := InactiveNewSteps(frame, m, tp);
    LinkEntry(frame);
    SelfLinked(zeroed, frame, Set(frame, Mapper.PRESENT_WRITABLE).value, f1, Pages.P1Index(tp.page));
  }

  /** The writes `InactivePageTable::new` makes, in physical terms: the
      frame is zeroed, its slot 511 is set, and one level 1 slot of the
      temporary page's path is cleared. */
  lemma InactiveNewSteps(frame: Frame, m: Machine, tp: TemporaryPages.TemporaryPage)
    returns (zeroed: Memory, f1: Frame)
    requires TemporaryPages.Valid(tp)
    requires Pages.StartAddress(tp.page) < TWO_64 && Pages.Canonical(Pages.StartAddress(tp.page))
    requires InactiveNew(frame, m, tp).Ok?
    requires Mapper.FreshTables(ActiveFrame(m), TemporaryPages.Map(tp, frame, m.mem, ActiveFrame(m)).value.mapping)
    ensures forall j :: 0 <= j < Pages.ENTRY_COUNT ==> TableAt(zeroed, frame)[j] == UNUSED
    ensures ValidFlags(Mapper.PRESENT_WRITABLE) && Set(frame, Mapper.PRESENT_WRITABLE).Ok?
    ensures InactiveNew(frame, m, tp).value.1.mem ==
            WriteEntry(WriteEntry(zeroed, frame, 511, Set(frame, Mapper.PRESENT_WRITABLE).value),
                       f1, Pages.P1Index(tp.page), UNUSED)
  {
    var root := ActiveFrame(m);
    var tm := TemporaryPages.Map(tp, frame, m.mem, root).value;
    var linked;
    zeroed, linked := InactiveLinked(frame, m, tp);
    Mapper.UnmapWrite(linked, root, tp.page);
    f1 := Mapper.P1Table(linked, root, tp.page).value;
  }

  /** The first writes of `InactivePageTable::new`: the frame mapped at the
      temporary page is zeroed through it, then its slot 511 is set. */
  lemma InactiveLinked(frame: Frame, m: Machine, tp: TemporaryPages.TemporaryPage)
    returns (zeroed: Memory, linked: Memory)
    requires TemporaryPages.Valid(tp)
    requires Pages.StartAddress(tp.page) < TWO_64 && Pages.Canonical(Pages.StartAddress(tp.page))
    requires InactiveNew(frame, m, tp).Ok?
    requires Mapper.FreshTables(ActiveFrame(m), TemporaryPages.Map(tp, frame, m.mem, ActiveFrame(m)).value.mapping)
    ensures forall j :: 0 <= j < Pages.ENTRY_COUNT ==> TableAt(zeroed, frame)[j] == UNUSED
    ensures ValidFlags(Mapper.PRESENT_WRITABLE) && Set(frame, Mapper.PRESENT_WRITABLE).Ok?
    ensures linked == WriteEntry(zeroed, frame, 511, Set(frame, Mapper.PRESENT_WRITABLE).value)
    ensures var tm := TemporaryPages.Map(tp, frame, m.mem, ActiveFrame(m)).value;
            && ZeroVirtual(tm.mem, ActiveFrame(m), tm.address) == Ok(zeroed)
            && WriteVirtual(zeroed, ActiveFrame(m), tm.address, 511,
                            Set(frame, Mapper.PRESENT_WRITABLE).value) == Ok(linked)
            && TemporaryPages.Unmap(tm.temp, linked, ActiveFrame(m)).Ok?
  {
    var root := ActiveFrame(m);
    var tm := TemporaryPages.Map(tp, frame, m.mem, root).value;
    TemporaryPages.MapTranslates(tp, frame, m.mem, root);
    PageWalkFrame(tm.mem, root, tp.page, frame);
    zeroed := ZeroVirtual(tm.mem, root, tm.address).value;
    assert zeroed == ZeroFrame(tm.mem, frame);
    LinkEntry(frame);
    var e := Set(frame, Mapper.PRESENT_WRITABLE).value;
    linked := WriteVirtual(zeroed, root, tm.address, 511, e).value;
    PageWalk.ZeroedWalk(tm.mem, root, tm.address, frame);
    assert linked == WriteEntry(zeroed, frame, 511, e);
  }

  /** A zeroed table whose slot 511 is then linked to itself, with one
      other slot cleared afterwards, is recursive and otherwise empty. */
  lemma SelfLinked(zeroed: Memory, frame: Frame, e: Entry, f1: Frame, i1: nat)
    requires forall j :: 0 <= j < Pages.ENTRY_COUNT ==> TableAt(zeroed, frame)[j] == UNUSED
    requires LeadsToTable(e) && PointedFrame(e) == Some(frame) && i1 < Pages.ENTRY_COUNT && i1 != 511
    ensures var mem := WriteEntry(WriteEntry(zeroed, frame, 511, e), f1, i1, UNUSED);
            && (forall j :: 0 <= j < Pages.ENTRY_COUNT && j != 511 ==> IsUnused(TableAt(mem, frame)[j]))
            && TableAt(mem, frame)[511] == e
            && PageWalk.Recursive(mem, frame)
  {
    UnusedIsEmpty();
  }
}
