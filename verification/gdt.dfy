/** The global descriptor table of v1/src/structures/gdt.rs: the two kinds
    of descriptor the kernel builds (its 64-bit code segment and the
    descriptor of its task state segment), and the eight-slot table that
    hands out selectors for them. */
module Gdts {
  import opened Base
  import opened Bits
  import opened BitFields
  import Segmentation

  /** `GdtDescriptorFlags`. */
  const CONFORMING: nat := 0x400_0000_0000
  const EXECUTABLE: nat := 0x800_0000_0000
  const USER_SEGMENT: nat := 0x1000_0000_0000
  const PRESENT: nat := 0x8000_0000_0000
  const LONG_MODE: nat := 0x20_0000_0000_0000

  /** Each flag is the single bit its declaration shifts in. */
  lemma FlagBits()
    ensures CONFORMING == Pow2(42) && EXECUTABLE == Pow2(43) && USER_SEGMENT == Pow2(44)
    ensures PRESENT == Pow2(47) && LONG_MODE == Pow2(53)
  {
    Pow2Table();
    assert Pow2(44) == 16 * Pow2(40);
    assert Pow2(47) == 8 * Pow2(44);
    assert Pow2(53) == 2 * Pow2(52);
  }

  datatype GdtDescriptor = UserSegment(value: u64) | SystemSegment(low: u64, high: u64)

  /** `kernel_code_segment`: the or of USER_SEGMENT, PRESENT, EXECUTABLE
      and LONG_MODE. */
  function KernelCodeSegment(): (r: GdtDescriptor)
    ensures r.UserSegment?
  {
    FlagBits();
    WordWidth();
    Pow2Mono(53, 64);
    OrBelow(USER_SEGMENT, PRESENT, 64);
    OrBelow(Or(USER_SEGMENT, PRESENT), EXECUTABLE, 64);
    OrBelow(Or(Or(USER_SEGMENT, PRESENT), EXECUTABLE), LONG_MODE, 64);
    UserSegment(Or(Or(Or(USER_SEGMENT, PRESENT), EXECUTABLE), LONG_MODE))
  }

  /** The kernel code segment has bits 43, 44, 47 and 53 set and no
      other. */
  lemma KernelCodeBits(i: nat)
    ensures Bit(KernelCodeSegment().value, i) <==> (i == 43 || i == 44 || i == 47 || i == 53)
  {
    FlagBits();
    OrBit(Or(Or(USER_SEGMENT, PRESENT), EXECUTABLE), LONG_MODE, i);
    OrBit(Or(USER_SEGMENT, PRESENT), EXECUTABLE, i);
    OrBit(USER_SEGMENT, PRESENT, i);
    BitOfPow2(44, i);
    BitOfPow2(47, i);
    BitOfPow2(43, i);
    BitOfPow2(53, i);
  }

  /** `size_of::<TaskStateSegment>()` for the packed layout of
      v1/src/structures/tss.rs: a u32, three u64, a u64, seven u64, a u64
      and two u16. */
  const TSS_SIZE: nat := 4 + 3 * 8 + 8 + 7 * 8 + 8 + 2 + 2

  /** System-segment type 0b1001: an available 64-bit TSS. */
  const AVAILABLE_TSS: nat := 9

  /** `set_bits` on a `u64`, for a range inside the word.  The crate also
      asserts that the value fits in the range; every caller here writes a
      value that does (`TssFieldsFit`, `GetBitsFits`). */
  function SetField(v: u64, lo: nat, hi: nat, x: nat): (r: u64)
    requires lo <= hi <= 64
    ensures r == SetBits(v, lo, hi, x)
  {
    WordWidth();
    SetBitsBelow(v, lo, hi, x, 64);
    SetBits(v, lo, hi, x)
  }

  /** `tss_segment(tss)` for a TSS at address `ptr`, in the order the
      fields are written. */
  function TssSegment(ptr: u64): (r: GdtDescriptor)
    ensures r.SystemSegment?
  {
    var low := SetField(PRESENT, 16, 40, GetBits(ptr, 0, 24));
    var low := SetField(low, 56, 64, GetBits(ptr, 24, 32));
    var low := SetField(low, 0, 16, TSS_SIZE - 1);
    var low := SetField(low, 40, 44, AVAILABLE_TSS);
    var high := SetField(0, 0, 32, GetBits(ptr, 32, 64));
    SystemSegment(low, high)
  }

  /** The limit and the type the descriptor stores fit their fields. */
  lemma TssFieldsFit()
    ensures Fits(TSS_SIZE - 1, 16) && Fits(AVAILABLE_TSS, 4)
  {
    Pow2Table();
    FitsBelow(TSS_SIZE - 1, 16);
    FitsBelow(AVAILABLE_TSS, 4);
  }

  const TWO_24: nat := 0x100_0000

  /** How the processor reads a 64-bit TSS descriptor: the base address
      spread over bits 16 to 39 and 56 to 63 of the low word and the low
      32 bits of the high word, the limit in bits 0 to 15 and the type in
      bits 40 to 43. */
  function TssBase(d: GdtDescriptor): nat
    requires d.SystemSegment?
  {
    GetBits(d.low, 16, 40) + GetBits(d.low, 56, 64) * TWO_24 + GetBits(d.high, 0, 32) * TWO_32
  }

  function TssLimit(d: GdtDescriptor): nat
    requires d.SystemSegment?
  {
    GetBits(d.low, 0, 16)
  }

  function TssType(d: GdtDescriptor): nat
    requires d.SystemSegment?
  {
    GetBits(d.low, 40, 44)
  }

  /** The TSS descriptor describes the TSS: its base is the TSS address,
      its limit the TSS size less one, its type an available 64-bit TSS,
      and the high word holds nothing but the top of the address. */
  lemma TssSegmentFields(ptr: u64)
    ensures TssBase(TssSegment(ptr)) == ptr
    ensures TssLimit(TssSegment(ptr)) == TSS_SIZE - 1
    ensures TssType(TssSegment(ptr)) == AVAILABLE_TSS
    ensures TssSegment(ptr).high < TWO_32
  {
    var d := TssSegment(ptr);
    var b0, b1, b2 := GetBits(ptr, 0, 24), GetBits(ptr, 24, 32), GetBits(ptr, 32, 64);
    var l1 := SetBits(PRESENT, 16, 40, b0);
    var l2 := SetBits(l1, 56, 64, b1);
    var l3 := SetBits(l2, 0, 16, TSS_SIZE - 1);
    assert d.low == SetBits(l3, 40, 44, AVAILABLE_TSS);
    TssFieldsFit();
    LowFields(ptr, PRESENT, l1, l2, l3, d.low, TSS_SIZE - 1, AVAILABLE_TSS);
    HighField(ptr, d.high);
    BaseOfPieces(ptr, d);
  }

  /** A descriptor whose three base fields hold the three pieces of `ptr`
      has base `ptr`. */
  lemma BaseOfPieces(ptr: u64, d: GdtDescriptor)
    requires d.SystemSegment?
    requires GetBits(d.low, 16, 40) == GetBits(ptr, 0, 24)
    requires GetBits(d.low, 56, 64) == GetBits(ptr, 24, 32)
    requires GetBits(d.high, 0, 32) == GetBits(ptr, 32, 64)
    ensures TssBase(d) == ptr
  {
    PtrPieces(ptr);
  }

  /** The high word is the top half of the address written into a zero
      word: that half itself. */
  lemma HighField(ptr: nat, high: nat)
    requires high == SetBits(0, 0, 32, GetBits(ptr, 32, 64))
    ensures high == GetBits(ptr, 32, 64) && high < TWO_32
    ensures GetBits(high, 0, 32) == GetBits(ptr, 32, 64)
  {
    var x := GetBits(ptr, 32, 64);
    GetBitsFits(ptr, 32, 64, 32);
    GetSetSame(0, 0, 32, x, 32);
    HighBelow(x, high);
    GetBitsWhole(high, 32);
  }

  lemma HighBelow(x: nat, high: nat)
    requires high == SetBits(0, 0, 32, x)
    ensures Fits(high, 32) && high < TWO_32
  {
    Pow2Table();
    SetBitsBelow(0, 0, 32, x, 32);
    FitsBelow(high, 32);
  }

  /** The fields of the low word after its four writes: each write's range
      survives the later writes, which touch other ranges. */
  lemma LowFields(ptr: u64, l0: nat, l1: nat, l2: nat, l3: nat, low: nat, limit: nat, kind: nat)
    requires Fits(limit, 16) && Fits(kind, 4)
    requires l1 == SetBits(l0, 16, 40, GetBits(ptr, 0, 24))
    requires l2 == SetBits(l1, 56, 64, GetBits(ptr, 24, 32))
    requires l3 == SetBits(l2, 0, 16, limit)
    requires low == SetBits(l3, 40, 44, kind)
    ensures GetBits(low, 16, 40) == GetBits(ptr, 0, 24)
    ensures GetBits(low, 56, 64) == GetBits(ptr, 24, 32)
    ensures GetBits(low, 0, 16) == limit
    ensures GetBits(low, 40, 44) == kind
  {
    GetSetOther(l3, 40, 44, kind, 16, 40);
    GetSetOther(l3, 40, 44, kind, 56, 64);
    GetSetOther(l3, 40, 44, kind, 0, 16);
    GetSetSame(l3, 40, 44, kind, 4);
    GetSetSame(l2, 0, 16, limit, 16);
    EarlierFields(ptr, l0, l1, l2);
    GetSetOther(l2, 0, 16, limit, 16, 40);
    GetSetOther(l2, 0, 16, limit, 56, 64);
  }

  lemma EarlierFields(ptr: u64, l0: nat, l1: nat, l2: nat)
    requires l1 == SetBits(l0, 16, 40, GetBits(ptr, 0, 24))
    requires l2 == SetBits(l1, 56, 64, GetBits(ptr, 24, 32))
    ensures GetBits(l2, 16, 40) == GetBits(ptr, 0, 24)
    ensures GetBits(l2, 56, 64) == GetBits(ptr, 24, 32)
  {
    GetSetOther(l1, 56, 64, GetBits(ptr, 24, 32), 16, 40);
    WritePiece(l0, l1, 16, 40, ptr, 0, 24);
    WritePiece(l1, l2, 56, 64, ptr, 24, 32);
  }

  /** A range of one word written into a range of the same width of
      another reads back unchanged. */
  lemma WritePiece(v: nat, r: nat, lo: nat, hi: nat, p: nat, lo2: nat, hi2: nat)
    requires lo <= hi && lo2 <= hi2 && hi2 - lo2 == hi - lo
    requires r == SetBits(v, lo, hi, GetBits(p, lo2, hi2))
    ensures GetBits(r, lo, hi) == GetBits(p, lo2, hi2)
  {
    GetBitsFits(p, lo2, hi2, hi - lo);
    GetSetSame(v, lo, hi, GetBits(p, lo2, hi2), hi - lo);
  }

  /** A word of `w` bits is its ranges `0..a`, `a..b` and `b..w` put back
      together. */
  lemma ThreePieces(v: nat, a: nat, b: nat, w: nat)
    requires a <= b <= w && Fits(v, w)
    ensures GetBits(v, 0, a) + GetBits(v, a, b) * Pow2(a) + GetBits(v, b, w) * Pow2(b) == v
  {
    GetBitsJoin(v, 0, a, b, a);
    GetBitsJoin(v, 0, b, w, b);
    GetBitsWhole(v, w);
  }

  /** An address is its bits 0 to 23, 24 to 31 and 32 to 63 put back
      together. */
  lemma PtrPieces(ptr: u64)
    ensures GetBits(ptr, 0, 24) + GetBits(ptr, 24, 32) * TWO_24 + GetBits(ptr, 32, 64) * TWO_32 == ptr
  {
    WordWidth();
    FitsBelow(ptr, 64);
    ThreePieces(ptr, 24, 32, 64);
    Pow2Table();
    assert Pow2(24) == TWO_24 by {
      Pow2Add(16, 8);
    }
  }

  /** Bits 44 to 55 of the TSS descriptor's low word are the segment
      attributes besides the type: only PRESENT (bit 47) is set. */
  lemma TssAttributes(ptr: u64, i: nat)
    requires 44 <= i < 56
    ensures Bit(TssSegment(ptr).low, i) <==> i == 47
  {
    var b0, b1 := GetBits(ptr, 0, 24), GetBits(ptr, 24, 32);
    var l1 := SetBits(PRESENT, 16, 40, b0);
    var l2 := SetBits(l1, 56, 64, b1);
    var l3 := SetBits(l2, 0, 16, TSS_SIZE - 1);
    SetBitsBit(l3, 40, 44, AVAILABLE_TSS, i);
    SetBitsBit(l2, 0, 16, TSS_SIZE - 1, i);
    SetBitsBit(l1, 56, 64, b1, i);
    SetBitsBit(PRESENT, 16, 40, b0, i);
    FlagBits();
    BitOfPow2(47, i);
  }

  /** Number of slots of the table. */
  const GDT_SLOTS: nat := 8

  /** `Gdt`: the descriptor words and the next free slot. */
  datatype Gdt = Gdt(table: seq<u64>, nextFree: nat)

  /** Slot 0 is the null descriptor, which the processor requires and the
      table never hands out. */
  predicate Valid(g: Gdt)
  {
    |g.table| == GDT_SLOTS && 1 <= g.nextFree <= GDT_SLOTS && g.table[0] == 0
  }

  /** `Gdt::new`. */
  function New(): (g: Gdt)
    ensures Valid(g) && g.nextFree == 1
    ensures forall i | 0 <= i < |g.table| :: g.table[i] == 0
  {
    Gdt(seq(GDT_SLOTS, _ => 0), 1)
  }

  const GDT_FULL := "GDT full"

  /** `push`: the index written, or the panic of a full table. */
  function Push(g: Gdt, value: u64): (r: Result<(Gdt, nat), string>)
    requires |g.table| == GDT_SLOTS
    ensures r.Err? <==> g.nextFree >= GDT_SLOTS
    ensures r.Err? ==> r.error == GDT_FULL
    ensures r.Ok? ==> var (g', index) := r.value;
              index == g.nextFree && g'.nextFree == index + 1 && |g'.table| == GDT_SLOTS &&
              g'.table[index] == value &&
              forall j | 0 <= j < GDT_SLOTS && j != index :: g'.table[j] == g.table[j]
  {
    if g.nextFree < GDT_SLOTS then
      var index := g.nextFree;
      Ok((Gdt(g.table[index := value], index + 1), index))
    else
      Err(GDT_FULL)
  }

  /** A push keeps the table valid: it never writes the null slot. */
  lemma PushKeepsValid(g: Gdt, value: u64)
    requires Valid(g) && Push(g, value).Ok?
    ensures Valid(Push(g, value).value.0)
  {
  }

  /** Successive pushes of `values`, as `add_entry` calls make them. */
  function PushAll(g: Gdt, values: seq<u64>): Result<Gdt, string>
    requires |g.table| == GDT_SLOTS
    decreases |values|
  {
    if |values| == 0 then Ok(g)
    else match Push(g, values[0])
      case Err(e) => Err(e)
      case Ok((g', _)) => PushAll(g', values[1..])
  }

  /** Pushes succeed exactly while the table has room, and lay the values
      out in order from the first free slot, leaving the other slots as
      they were. */
  lemma {:induction false} PushAllSpec(g: Gdt, values: seq<u64>)
    requires Valid(g)
    ensures PushAll(g, values).Ok? <==> g.nextFree + |values| <= GDT_SLOTS
    ensures PushAll(g, values).Ok? ==>
              var g' := PushAll(g, values).value;
              Valid(g') && g'.nextFree == g.nextFree + |values| &&
              g'.table == g.table[..g.nextFree] + values + g.table[g.nextFree + |values|..]
    decreases |values|
  {
    if |values| > 0 && g.nextFree < GDT_SLOTS {
      var (g1, _) := Push(g, values[0]).value;
      PushAllSpec(g1, values[1..]);
      if PushAll(g, values).Ok? {
        var n := g.nextFree;
        var g' := PushAll(g1, values[1..]).value;
        assert g1.table[..n + 1] == g.table[..n] + [values[0]];
        assert g1.table[n + |values|..] == g.table[n + |values|..];
        assert [values[0]] + values[1..] == values;
      }
    }
  }

  /** A new table takes seven descriptor words, after the null
      descriptor. */
  lemma NewHoldsSeven(values: seq<u64>)
    ensures PushAll(New(), values).Ok? <==> |values| <= GDT_SLOTS - 1
    ensures PushAll(New(), values).Ok? ==>
              Valid(PushAll(New(), values).value) &&
              PushAll(New(), values).value.table[0] == 0 &&
              PushAll(New(), values).value.table[1..1 + |values|] == values
  {
    PushAllSpec(New(), values);
  }

  /** The descriptor words of an entry, in slot order. */
  function Words(entry: GdtDescriptor): seq<u64>
  {
    match entry
    case UserSegment(value) => [value]
    case SystemSegment(low, high) => [low, high]
  }

  /** `add_entry`: the descriptor is pushed word by word, and the selector
      names its first slot with requested privilege level 0. */
  function AddEntry(g: Gdt, entry: GdtDescriptor): (r: Result<(Gdt, u16), string>)
    requires |g.table| == GDT_SLOTS
    ensures r.Err? ==> r.error == GDT_FULL
  {
    var pushed :=
      match entry
      case UserSegment(value) => Push(g, value)
      case SystemSegment(low, high) =>
        match Push(g, low)
        case Err(e) => Err(e)
        case Ok((g1, index)) =>
          match Push(g1, high)
          case Err(e) => Err(e)
          case Ok((g2, _)) => Ok((g2, index));
    match pushed
    case Err(e) => Err(e)
    case Ok((g', index)) => Ok((g', Segmentation.RawNew(index, 0)))
  }

  /** The selector `add_entry` returns for a slot names that slot, with
      requested privilege level 0. */
  lemma SelectorOfSlot(index: nat)
    requires index < GDT_SLOTS
    ensures Segmentation.Index(Segmentation.SegmentSelector(Segmentation.RawNew(index, 0))) == index
    ensures Segmentation.Rpl(Segmentation.SegmentSelector(Segmentation.RawNew(index, 0))) == Segmentation.Ring0
  {
    var selector := Segmentation.RawNew(index, 0);
    assert selector == index * 8;
    assert selector % 4 == 0;
    assert Segmentation.LevelValue(Segmentation.Rpl(Segmentation.SegmentSelector(selector))) == 0;
  }

  /** `add_entry` is the pushes of the entry's words: it succeeds exactly
      when they fit, a user segment takes one slot and a system segment
      two, and the selector's index is the first of them with RPL 0. */
  lemma AddEntrySpec(g: Gdt, entry: GdtDescriptor)
    requires Valid(g)
    ensures AddEntry(g, entry).Ok? <==> g.nextFree + |Words(entry)| <= GDT_SLOTS
    ensures AddEntry(g, entry).Ok? ==>
              var (g', selector) := AddEntry(g, entry).value;
              PushAll(g, Words(entry)) == Ok(g') &&
              Segmentation.Index(Segmentation.SegmentSelector(selector)) == g.nextFree &&
              Segmentation.Rpl(Segmentation.SegmentSelector(selector)) == Segmentation.Ring0
  {
    PushAllSpec(g, Words(entry));
    AddEntryPushes(g, entry);
    if g.nextFree < GDT_SLOTS {
      SelectorOfSlot(g.nextFree);
    }
  }

  /** `add_entry` agrees with pushing the entry's words one by one, and its
      selector is built from the first slot written. */
  lemma AddEntryPushes(g: Gdt, entry: GdtDescriptor)
    requires |g.table| == GDT_SLOTS
    ensures AddEntry(g, entry).Ok? <==> PushAll(g, Words(entry)).Ok?
    ensures AddEntry(g, entry).Ok? ==>
              AddEntry(g, entry).value.0 == PushAll(g, Words(entry)).value &&
              AddEntry(g, entry).value.1 == Segmentation.RawNew(g.nextFree, 0)
  {
    match entry
    case UserSegment(value) =>
      if Push(g, value).Ok? {
        var g1 := Push(g, value).value.0;
        assert [value][1..] == [];
        assert PushAll(g, [value]) == PushAll(g1, []);
      }
    case SystemSegment(low, high) =>
      assert [low, high][1..] == [high];
      if Push(g, low).Ok? {
        var g1 := Push(g, low).value.0;
        assert PushAll(g, [low, high]) == PushAll(g1, [high]);
        if Push(g1, high).Ok? {
          var g2 := Push(g1, high).value.0;
          assert [high][1..] == [];
          assert PushAll(g1, [high]) == PushAll(g2, []);
        }
      }
  }
}
