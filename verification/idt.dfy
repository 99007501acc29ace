/** The interrupt descriptor table of v1/src/structures/idt.rs: 256 gate
    descriptors, each holding a handler address split over three fields,
    the code-segment selector to run it in, and an options word whose bits
    9 to 11 give the gate type, bit 15 the present flag and bits 0 to 2 the
    interrupt-stack-table index. */
module Idts {
  import opened Base
  import opened Bits
  import opened BitFields
  import Segmentation
  import VirtAddrs
  import Pages

  /** `EntryOptions`. */
  datatype EntryOptions = EntryOptions(cs: Segmentation.SegmentSelector, bits: u16)

  /** Options bits of a 64-bit interrupt gate that is not present. */
  const MINIMAL_BITS: u16 := 0xE00

  /** The present flag of the options word. */
  const PRESENT_BIT: nat := 15

  /** Bits 9 to 11 are set in the minimal options, and no other bit. */
  lemma MinimalBit(i: nat)
    ensures Bit(MINIMAL_BITS, i) <==> 9 <= i < 12
  {
    Pow2Table();
    assert MINIMAL_BITS == 7 * Pow2(9);
    BitOfMulPow2(7, 9, i);
    if i >= 12 {
      BitAbove(7, 3, i - 9);
    }
  }

  /** `EntryOptions::minimal`: a null selector and the minimal bits. */
  function Minimal(): (o: EntryOptions)
    ensures o.cs.value == 0
    ensures forall i: nat :: Bit(o.bits, i) <==> 9 <= i < 12
  {
    forall i: nat ensures Bit(MINIMAL_BITS, i) <==> 9 <= i < 12 {
      MinimalBit(i);
    }
    EntryOptions(Segmentation.SegmentSelector(0), MINIMAL_BITS)
  }

  /** `Entry`: the handler address is `pointerLow` (bits 0 to 15),
      `pointerMiddle` (bits 16 to 31) and `pointerHigh` (bits 32 to 63). */
  datatype Entry = Entry(pointerLow: u16, options: EntryOptions, pointerMiddle: u16,
                         pointerHigh: u32, reserved: u32)

  /** Whether the processor may use the gate. */
  predicate Present(e: Entry)
  {
    Bit(e.options.bits, PRESENT_BIT)
  }

  /** The handler address the processor reads from the three pointer
      fields. */
  function HandlerAddress(e: Entry): (r: nat)
    ensures r < TWO_64
  {
    e.pointerLow + e.pointerMiddle * TWO_16 + e.pointerHigh * TWO_32
  }

  /** `Entry::missing`: zero pointers, minimal options, nothing reserved. */
  function Missing(): (e: Entry)
    ensures !Present(e) && HandlerAddress(e) == 0 && e.reserved == 0
    ensures e.options == Minimal()
  {
    MinimalBit(PRESENT_BIT);
    Entry(0, Minimal(), 0, 0, 0)
  }

  /** Bit 15 set in the minimal options: a present 64-bit interrupt
      gate. */
  function PresentBits(): (r: u16)
    ensures forall i: nat :: Bit(r, i) <==> (9 <= i < 12 || i == PRESENT_BIT)
  {
    OptionsWidths();
    SetBitBelow(MINIMAL_BITS, PRESENT_BIT, true, 16);
    var r := SetBit(MINIMAL_BITS, PRESENT_BIT, true);
    forall i: nat ensures Bit(r, i) <==> (9 <= i < 12 || i == PRESENT_BIT) {
      SetBitBit(MINIMAL_BITS, PRESENT_BIT, true, i);
      MinimalBit(i);
    }
    r
  }

  /** `set_handler_fn(handler)` with `cs` the value of the CS register
      (read by `cs_get_reg`): the handler's address becomes a `VirtAddr`,
      which aborts on a non-canonical address, and is split into the three
      pointer fields by truncating casts; the options are reset to minimal,
      given the selector and made present.  The reserved field keeps its
      value. */
  function SetHandlerFn(e: Entry, handler: u64, cs: Segmentation.SegmentSelector): (r: Result<Entry, string>)
    ensures r.Err? <==> !Pages.Canonical(handler)
    ensures r.Err? ==> r.error == VirtAddrs.NOT_SIGN_EXTENDED
    ensures r.Ok? ==> HandlerAddress(r.value) == handler
    ensures r.Ok? ==> Present(r.value) && r.value.options.cs == cs
    ensures r.Ok? ==> forall i: nat :: Bit(r.value.options.bits, i) <==> (9 <= i < 12 || i == PRESENT_BIT)
    ensures r.Ok? ==> r.value.reserved == e.reserved
  {
    match VirtAddrs.NewV1(handler)
    case Err(msg) => Err(msg)
    case Ok(v) =>
      var addr := v.value;
      AddressPieces(addr);
      Ok(Entry(addr % TWO_16, EntryOptions(cs, PresentBits()), (addr / TWO_16) % TWO_16,
               (addr / TWO_32) % TWO_32, e.reserved))
  }

  /** `addr as u16`, `(addr >> 16) as u16` and `(addr >> 32) as u32` put
      back together give `addr`. */
  lemma AddressPieces(addr: u64)
    ensures addr % TWO_16 + ((addr / TWO_16) % TWO_16) * TWO_16 + ((addr / TWO_32) % TWO_32) * TWO_32 == addr
  {
    DivDiv(addr, TWO_16, TWO_16);
    assert addr / TWO_32 < TWO_32;
    SmallMod(addr / TWO_32, TWO_32);
  }

  /** The three pointer fields are the only encoding of their address: an
      entry's fields are the casts of the address it holds. */
  lemma PointerFieldsOfAddress(e: Entry)
    ensures e.pointerLow == HandlerAddress(e) % TWO_16
    ensures e.pointerMiddle == (HandlerAddress(e) / TWO_16) % TWO_16
    ensures e.pointerHigh == HandlerAddress(e) / TWO_32
  {
    var low := e.pointerLow + e.pointerMiddle * TWO_16;
    DivModOf(e.pointerHigh, TWO_32, low);
    DivModOf(e.pointerMiddle, TWO_16, e.pointerLow);
    assert HandlerAddress(e) == e.pointerHigh * TWO_32 + low;
    DivDiv(HandlerAddress(e), TWO_16, TWO_16);
  }

  /** Installing a handler in an entry whose address already points at it
      changes only the options. */
  lemma SetHandlerFnKeepsAddressFields(e: Entry, cs: Segmentation.SegmentSelector)
    requires Pages.Canonical(HandlerAddress(e))
    ensures SetHandlerFn(e, HandlerAddress(e), cs).Ok?
    ensures var e' := SetHandlerFn(e, HandlerAddress(e), cs).value;
            e'.pointerLow == e.pointerLow && e'.pointerMiddle == e.pointerMiddle &&
            e'.pointerHigh == e.pointerHigh && e'.reserved == e.reserved
  {
    PointerFieldsOfAddress(e);
    PointerFieldsOfAddress(SetHandlerFn(e, HandlerAddress(e), cs).value);
  }

  /** `set_stack_index(index)`: `index + 1` on `u16`, which aborts a debug
      build for index 0xFFFF, written into bits 0 to 2 by `set_bits`, which
      aborts when it does not fit in three bits. */
  function SetStackIndex(o: EntryOptions, index: u16): (r: Result<EntryOptions, string>)
    ensures r.Err? <==> index >= 7
    ensures r.Err? ==> r.error == if index == 0xFFFF then ADD_OVERFLOW else DOES_NOT_FIT
    ensures r.Ok? ==> r.value.cs == o.cs
    ensures r.Ok? ==> r.value.bits % 8 == index + 1 && r.value.bits / 8 == o.bits / 8
  {
    if index + 1 >= TWO_16 then Err(ADD_OVERFLOW)
    else if index + 1 >= 8 then Err(DOES_NOT_FIT)
    else
      OptionsWidths();
      SetBitsBelow(o.bits, 0, 3, index + 1, 16);
      SetLowBitsDivMod(o.bits, index + 1, 3);
      Ok(EntryOptions(o.cs, SetBits(o.bits, 0, 3, index + 1)))
  }

  /** The widths of the options word and of its stack-index field. */
  lemma OptionsWidths()
    ensures Pow2(3) == 8 && Pow2(16) == TWO_16
  {
    Pow2Table();
  }

  /** The stack index leaves every bit from 3 up as it was, in particular
      the gate type and the present flag, and the hardware reads back the
      index plus one from bits 0 to 2. */
  lemma SetStackIndexBits(o: EntryOptions, index: u16, i: nat)
    requires index < 7
    ensures GetBits(SetStackIndex(o, index).value.bits, 0, 3) == index + 1
    ensures i >= 3 ==> Bit(SetStackIndex(o, index).value.bits, i) == Bit(o.bits, i)
  {
    var bits := SetStackIndex(o, index).value.bits;
    SetBitsBit(o.bits, 0, 3, index + 1, i);
    GetBitsLow(bits, 3);
    OptionsWidths();
  }

  /** Number of vectors. */
  const IDT_ENTRIES: nat := 256

  /** Vectors of the exceptions the kernel installs handlers for, in the
      field order of `InterruptDescriptorTable`. */
  const BREAKPOINT: nat := 3
  const DOUBLE_FAULT: nat := 8
  const PAGE_FAULT: nat := 14

  /** `InterruptDescriptorTable`: its named fields are vectors 0 to 31,
      `interrupts` vectors 32 to 255. */
  datatype Idt = Idt(entries: seq<Entry>)

  /** `InterruptDescriptorTable::new`: every vector missing. */
  function NewIdt(): (t: Idt)
    ensures |t.entries| == IDT_ENTRIES
    ensures forall i | 0 <= i < |t.entries| :: t.entries[i] == Missing()
  {
    Idt(seq(IDT_ENTRIES, _ => Missing()))
  }

  /** No vector of a new table is present or has a handler. */
  lemma NewIdtNothingPresent(i: nat)
    requires i < IDT_ENTRIES
    ensures !Present(NewIdt().entries[i]) && HandlerAddress(NewIdt().entries[i]) == 0
  {
    var e := NewIdt().entries[i];
    assert e == Missing();
  }

  /** `idt.<field>.set_handler_fn(handler)` for the entry of `vector`:
      only that entry changes. */
  function SetVectorHandler(t: Idt, vector: nat, handler: u64, cs: Segmentation.SegmentSelector): (r: Result<Idt, string>)
    requires vector < |t.entries|
    ensures r.Err? <==> !Pages.Canonical(handler)
    ensures r.Ok? ==> |r.value.entries| == |t.entries|
    ensures r.Ok? ==> Present(r.value.entries[vector]) && HandlerAddress(r.value.entries[vector]) == handler
    ensures r.Ok? ==> forall j | 0 <= j < |t.entries| && j != vector :: r.value.entries[j] == t.entries[j]
  {
    match SetHandlerFn(t.entries[vector], handler, cs)
    case Err(msg) => Err(msg)
    case Ok(e) => Ok(Idt(t.entries[vector := e]))
  }
}
