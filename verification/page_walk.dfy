/** The processor's side of paging: the x86-64 four-level translation of a
    virtual address through the tables in physical memory (Intel SDM
    volume 3A, section 4.5), with a 52-bit physical address width and
    EFER.NXE set. It is written from the raw entry bits only, as an
    independent reference for the kernel's `translate`, and it shows why
    the kernel may treat the recursively mapped virtual address of a table
    as that table's physical frame. */
module PageWalk {
  import opened Base
  import opened Bits
  import opened Frames
  import opened Entries
  import opened Tables
  import Pages

  const TWO_21: nat := 0x20_0000
  const TWO_30: nat := 0x4000_0000
  const TWO_39: nat := 0x80_0000_0000
  const TWO_52: nat := 0x10_0000_0000_0000

  /** Raw 64-bit value of slot `i` of the table in frame `f`. */
  function RawEntry(mem: Memory, f: Frame, i: nat): nat
    requires i < Pages.ENTRY_COUNT
  {
    TableAt(mem, f)[i].value
  }

  /** Bits 12..51 of an entry: the frame it names. */
  function AddressField(e: nat): nat
  {
    (e / PAGE_SIZE) % MAX_FRAMES
  }

  /** The entry at which the walk stops: level 3 for a 1 GiB page, level 2
      for a 2 MiB page, level 1 for a 4 KiB page. */
  datatype Leaf = Leaf(level: nat, entry: nat)

  /** Follow the tables from `cr3`: an entry without bit 0 (present) stops
      the walk; bit 7 (page size) ends it early at levels 3 and 2 and is
      reserved at level 4; at level 1 bit 7 is the PAT bit and is not
      looked at. */
  function Lookup(mem: Memory, cr3: Frame, v: nat): (r: Option<Leaf>)
    ensures r.Some? ==> 1 <= r.value.level <= 3 && Bit(r.value.entry, 0)
  {
    var e4 := RawEntry(mem, cr3, (v / TWO_39) % 512);
    if !Bit(e4, 0) || Bit(e4, 7) then None
    else
      var e3 := RawEntry(mem, Frame(AddressField(e4)), (v / TWO_30) % 512);
      if !Bit(e3, 0) then None
      else if Bit(e3, 7) then Some(Leaf(3, e3))
      else
        var e2 := RawEntry(mem, Frame(AddressField(e3)), (v / TWO_21) % 512);
        if !Bit(e2, 0) then None
        else if Bit(e2, 7) then Some(Leaf(2, e2))
        else
          var e1 := RawEntry(mem, Frame(AddressField(e2)), (v / PAGE_SIZE) % 512);
          if !Bit(e1, 0) then None else Some(Leaf(1, e1))
  }

  /** Size in bytes of the page a leaf at `level` maps. */
  function PageBytes(level: nat): nat
  {
    if level == 3 then TWO_30 else if level == 2 then TWO_21 else PAGE_SIZE
  }

  /** Size in frames of the page a leaf at `level` maps. */
  function PageFrames(level: nat): nat
  {
    if level == 3 then Pages.TWO_18 else if level == 2 then 512 else 1
  }

  /** In a huge-page entry bit 12 selects the memory type (PAT); the
      address bits between it and the page size are reserved and must be
      zero, otherwise the access faults. */
  predicate ReservedBitsSet(l: Leaf)
  {
    l.level > 1 && (AddressField(l.entry) % PageFrames(l.level)) / 2 != 0
  }

  predicate PatBit(l: Leaf)
  {
    l.level > 1 && AddressField(l.entry) % 2 == 1
  }

  /** The physical address `v` reaches, or `None` where the access faults
      (non-canonical address, missing entry, reserved bit). */
  function Walk(mem: Memory, cr3: Frame, v: u64): (r: Option<nat>)
    ensures r.Some? ==> r.value < TWO_52
  {
    if !Pages.Canonical(v) then None
    else match Lookup(mem, cr3, v)
      case None => None
      case Some(l) =>
        if ReservedBitsSet(l) then None
        else
          var base := AddressField(l.entry) / PageFrames(l.level);
          PhysBound(AddressField(l.entry), l.level, v % PageBytes(l.level));
          Some(base * PageBytes(l.level) + v % PageBytes(l.level))
  }

  /** A walk stays below the 52-bit physical address width. */
  lemma PhysBound(a: nat, level: nat, off: nat)
    requires a < MAX_FRAMES && 1 <= level <= 3 && off < PageBytes(level)
    ensures (a / PageFrames(level)) * PageBytes(level) + off < TWO_52
  {
    var pf, pb := PageFrames(level), PageBytes(level);
    var b := MAX_FRAMES / pf;
    assert b * pf == MAX_FRAMES && b * pb == TWO_52;
    var q := a / pf;
    assert q * pf <= a;
    if q >= b {
      MulMono(b, q, pf);
    }
    MulBelow(q, b, pb);
  }

  /** The table indices the processor takes from `v` are those the kernel
      takes from the page containing `v`. */
  lemma WalkIndices(v: nat)
    ensures (v / TWO_39) % 512 == Pages.P4Index(Pages.Page(v / PAGE_SIZE))
    ensures (v / TWO_30) % 512 == Pages.P3Index(Pages.Page(v / PAGE_SIZE))
    ensures (v / TWO_21) % 512 == Pages.P2Index(Pages.Page(v / PAGE_SIZE))
    ensures (v / PAGE_SIZE) % 512 == Pages.P1Index(Pages.Page(v / PAGE_SIZE))
  {
    DivDiv(v, PAGE_SIZE, Pages.TWO_27);
    DivDiv(v, PAGE_SIZE, Pages.TWO_18);
    DivDiv(v, PAGE_SIZE, 512);
  }

  const SIGN_EXTENSION: nat := 0xffff_0000_0000_0000

  /** The higher-half virtual address whose four table indices are
      `i4 .. i1` (for `i4 >= 256`, bits 48..63 copy bit 47). */
  function HigherHalfAddress(i4: nat, i3: nat, i2: nat, i1: nat): nat
  {
    SIGN_EXTENSION + Pages.Compose(i4, i3, i2, i1) * PAGE_SIZE
  }

  predicate IndexRange(i4: nat, i3: nat, i2: nat, i1: nat)
  {
    i4 < 512 && i3 < 512 && i2 < 512 && i1 < 512
  }

  /** A higher-half address is canonical, page aligned and carries the four
      indices it was built from, for the kernel and for the processor. */
  lemma HigherHalfIndices(i4: nat, i3: nat, i2: nat, i1: nat)
    requires IndexRange(i4, i3, i2, i1) && 256 <= i4
    ensures var v := HigherHalfAddress(i4, i3, i2, i1);
            v < TWO_64 && Pages.Canonical(v) && v % PAGE_SIZE == 0
    ensures var v := HigherHalfAddress(i4, i3, i2, i1);
            var p := Pages.Page(v / PAGE_SIZE);
            Pages.P4Index(p) == i4 && Pages.P3Index(p) == i3 &&
            Pages.P2Index(p) == i2 && Pages.P1Index(p) == i1
    ensures var v := HigherHalfAddress(i4, i3, i2, i1);
            (v / TWO_39) % 512 == i4 && (v / TWO_30) % 512 == i3 &&
            (v / TWO_21) % 512 == i2 && (v / PAGE_SIZE) % 512 == i1
  {
    var c := Pages.Compose(i4, i3, i2, i1);
    Pages.ComposeIndices(i4, i3, i2, i1);
    var x := 0xffff;
    var v := HigherHalfAddress(i4, i3, i2, i1);
    assert v == (x * Pages.TWO_36 + c) * PAGE_SIZE;
    DivModOf(x * Pages.TWO_36 + c, PAGE_SIZE, 0);
    var n := v / PAGE_SIZE;
    assert n == x * Pages.TWO_36 + c;
    assert c >= 256 * Pages.TWO_27;
    assert x * Pages.TWO_36 == (x * 512) * Pages.TWO_27;
    DivAddMul(x * 512, Pages.TWO_27, c);
    DivAddMul(x, 512, c / Pages.TWO_27);
    assert x * Pages.TWO_36 == (x * 512 * 512) * Pages.TWO_18;
    DivAddMul(x * 512 * 512, Pages.TWO_18, c);
    DivAddMul(x * 512, 512, c / Pages.TWO_18);
    assert x * Pages.TWO_36 == (x * 512 * 512 * 512) * Pages.TWO_9;
    DivAddMul(x * 512 * 512 * 512, Pages.TWO_9, c);
    DivAddMul(x * 512 * 512, 512, c / Pages.TWO_9);
    DivAddMul(x * 512 * 512 * 512, 512, c);
    WalkIndices(v);
  }

  /** `next_table_address` on the window: shifting a higher-half address
      whose first index is 511 by nine bits drops that index and appends
      the new one, so the 64-bit wrap-around keeps the result in the
      window. */
  lemma WindowStep(i3: nat, i2: nat, i1: nat, i: nat)
    requires IndexRange(511, i3, i2, i1) && i < 512
    ensures (HigherHalfAddress(511, i3, i2, i1) * 512) % TWO_64 + i * PAGE_SIZE
            == HigherHalfAddress(i3, i2, i1, i)
  {
    var d := (i3 * 512 + i2) * 512 + i1;
    assert d < Pages.TWO_27;
    assert Pages.Compose(511, i3, i2, i1) == 511 * Pages.TWO_27 + d;
    assert Pages.Compose(i3, i2, i1, i) == d * 512 + i;
    var v := HigherHalfAddress(511, i3, i2, i1);
    assert v * 512 == 0x1ff * TWO_64 + (SIGN_EXTENSION + d * TWO_21);
    assert d * TWO_21 < Pages.TWO_27 * TWO_21 by {
      MulBelow(d, Pages.TWO_27, TWO_21);
    }
    DivModOf(0x1ff, TWO_64, SIGN_EXTENSION + d * TWO_21);
  }

  /** The kernel's `P4` is the window address with all four indices 511. */
  lemma P4InWindow()
    ensures P4 == HigherHalfAddress(511, 511, 511, 511)
  {
  }

  /** Raw-bit reading of `NextTable`. */
  lemma NextTableRaw(mem: Memory, f: Frame, i: nat)
    requires i < Pages.ENTRY_COUNT
    ensures NextTable(mem, f, i).Some? <==>
              Bit(RawEntry(mem, f, i), 0) && !Bit(RawEntry(mem, f, i), 7)
    ensures NextTable(mem, f, i).Some? ==>
              NextTable(mem, f, i).value.number == AddressField(RawEntry(mem, f, i))
  {
    LeadsToTableBits(TableAt(mem, f)[i]);
  }

  /** The recursive entry: slot 511 of the active level 4 table leads back
      to that table. */
  predicate Recursive(mem: Memory, root: Frame)
  {
    NextTable(mem, root, 511) == Some(root)
  }

  /** Under the recursive entry the processor maps `P4` onto the level 4
      table itself. */
  lemma WindowLevel4(mem: Memory, root: Frame)
    requires Recursive(mem, root)
    ensures Walk(mem, root, P4) == Some(StartAddress(root))
  {
    HigherHalfIndices(511, 511, 511, 511);
    NextTableRaw(mem, root, 511);
  }

  /** ... the address of level 3 table `a` onto the frame slot `a` of the
      level 4 table names, */
  lemma WindowLevel3(mem: Memory, root: Frame, a: nat, f3: Frame)
    requires Recursive(mem, root) && a < 512
    requires NextTable(mem, root, a) == Some(f3)
    ensures Walk(mem, root, HigherHalfAddress(511, 511, 511, a)) == Some(StartAddress(f3))
  {
    var v := HigherHalfAddress(511, 511, 511, a);
    HigherHalfIndices(511, 511, 511, a);
    NextTableRaw(mem, root, 511);
    NextTableRaw(mem, root, a);
    assert Lookup(mem, root, v) == Some(Leaf(1, RawEntry(mem, root, a)));
    WalkFourKiB(mem, root, v, RawEntry(mem, root, a));
  }

  /** ... the address of level 2 table `(a, b)` onto its frame, */
  lemma WindowLevel2(mem: Memory, root: Frame, a: nat, b: nat, f3: Frame, f2: Frame)
    requires Recursive(mem, root) && a < 512 && b < 512
    requires NextTable(mem, root, a) == Some(f3) && NextTable(mem, f3, b) == Some(f2)
    ensures Walk(mem, root, HigherHalfAddress(511, 511, a, b)) == Some(StartAddress(f2))
  {
    var v := HigherHalfAddress(511, 511, a, b);
    HigherHalfIndices(511, 511, a, b);
    NextTableRaw(mem, root, 511);
    NextTableRaw(mem, root, a);
    NextTableRaw(mem, f3, b);
    assert Lookup(mem, root, v) == Some(Leaf(1, RawEntry(mem, f3, b)));
    WalkFourKiB(mem, root, v, RawEntry(mem, f3, b));
  }

  /** ... and the address of level 1 table `(a, b, c)` onto its frame. */
  lemma WindowLevel1(mem: Memory, root: Frame, a: nat, b: nat, c: nat,
                     f3: Frame, f2: Frame, f1: Frame)
    requires Recursive(mem, root) && a < 512 && b < 512 && c < 512
    requires NextTable(mem, root, a) == Some(f3) && NextTable(mem, f3, b) == Some(f2)
    requires NextTable(mem, f2, c) == Some(f1)
    ensures Walk(mem, root, HigherHalfAddress(511, a, b, c)) == Some(StartAddress(f1))
  {
    var v := HigherHalfAddress(511, a, b, c);
    HigherHalfIndices(511, a, b, c);
    NextTableRaw(mem, root, 511);
    NextTableRaw(mem, root, a);
    NextTableRaw(mem, f3, b);
    NextTableRaw(mem, f2, c);
    assert Lookup(mem, root, v) == Some(Leaf(1, RawEntry(mem, f2, c)));
    WalkFourKiB(mem, root, v, RawEntry(mem, f2, c));
  }

  /** A page-aligned address that ends at a 4 KiB leaf reaches the start
      of the frame the leaf names. */
  lemma WalkFourKiB(mem: Memory, root: Frame, v: u64, e: nat)
    requires Pages.Canonical(v) && v % PAGE_SIZE == 0
    requires Lookup(mem, root, v) == Some(Leaf(1, e))
    ensures Walk(mem, root, v) == Some(StartAddress(Frame(AddressField(e))))
  {
  }

  /** The table addresses `next_table_address` produces while descending
      from `P4` are exactly the window addresses above. */
  lemma WindowChain(level: Level, i3: nat, i2: nat, i1: nat, t: Table, i: nat)
    requires level != Level1 && IndexRange(511, i3, i2, i1) && i < 512
    requires LeadsToTable(t[i])
    ensures HigherHalfAddress(511, i3, i2, i1) < TWO_64
    ensures NextTableAddress(level, HigherHalfAddress(511, i3, i2, i1), t, i)
            == Some(HigherHalfAddress(i3, i2, i1, i))
  {
    HigherHalfIndices(511, i3, i2, i1);
    LeadsToTableBits(t[i]);
    WindowStep(i3, i2, i1, i);
  }

  /** With slot 511 of `c` leading to `i` and slot 511 of `i` leading back
      to `i`, every window address (first index 511) is translated from `c`
      exactly as from `i`: the recursive window of `c` shows the tables of
      `i`. */
  lemma WindowRedirect(mem: Memory, c: Frame, i: Frame, v: u64)
    requires NextTable(mem, c, 511) == Some(i) && Recursive(mem, i)
    requires (v / TWO_39) % 512 == 511
    ensures Lookup(mem, c, v) == Lookup(mem, i, v)
    ensures Walk(mem, c, v) == Walk(mem, i, v)
  {
    NextTableRaw(mem, c, 511);
    NextTableRaw(mem, i, 511);
  }

  /** A walk that still succeeds after frame `g` was zeroed did not pass
      through `g`, and so ends where it ended before. */
  lemma ZeroedWalk(mem: Memory, cr3: Frame, v: u64, g: Frame)
    requires Lookup(ZeroFrame(mem, g), cr3, v).Some?
    ensures Lookup(ZeroFrame(mem, g), cr3, v) == Lookup(mem, cr3, v)
    ensures Walk(ZeroFrame(mem, g), cr3, v) == Walk(mem, cr3, v)
  {
    BitOfZero(0);
    UnusedIsEmpty();
  }
}
