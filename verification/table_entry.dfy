/** Page-table entries and their flags (v1/src/memory/paging/table_entry.rs). */
module Entries {
  import opened Base
  import opened Bits
  import opened Frames
  import ElfSections

  const PRESENT: nat := 0x1
  const WRITABLE: nat := 0x2
  const USER_ACCESSIBLE: nat := 0x4
  const WRITE_THROUGH: nat := 0x8
  const NO_CACHE: nat := 0x10
  const ACCESSED: nat := 0x20
  const DIRTY: nat := 0x40
  const HUGE_PAGE: nat := 0x80
  const GLOBAL: nat := 0x100
  const NO_EXECUTE: nat := 0x8000_0000_0000_0000

  /** The union of the named flags: bits 0 to 8 and bit 63. */
  const ALL_FLAGS: nat := 0x8000_0000_0000_01ff

  /** Bits 12 to 51: the physical address of the frame an entry points to. */
  const ADDRESS_MASK: nat := 0x000f_ffff_ffff_f000
  /** `!ADDRESS_MASK`: the flag bits 0 to 11 and 52 to 63. */
  const NOT_ADDRESS_MASK: nat := 0xfff0_0000_0000_0fff

  /** Frame numbers whose start address fits under `ADDRESS_MASK`. */
  const MAX_FRAMES: nat := 0x100_0000_0000

  /** A flags value built only from named flags, which `bitflags` guarantees
      for every `EntryFlags` value. */
  predicate ValidFlags(f: nat)
  {
    And(f, ALL_FLAGS) == f
  }

  /** `flags.contains(flag)`. */
  predicate Contains(flags: nat, flag: nat)
  {
    And(flags, flag) == flag
  }

  /** A page-table entry: one raw 64-bit word. */
  datatype Entry = Entry(value: u64)

  const UNUSED: Entry := Entry(0)

  predicate IsUnused(e: Entry)
  {
    e.value == 0
  }

  /** `from_bits_truncate`: the named flag bits of the entry. */
  function Flags(e: Entry): (f: nat)
    ensures ValidFlags(f)
    ensures forall i :: Bit(f, i) <==> Bit(e.value, i) && (i < 9 || i == 63)
  {
    var f := And(e.value, ALL_FLAGS);
    FlagsBits(e.value, f);
    f
  }

  lemma FlagsBits(v: nat, f: nat)
    requires f == And(v, ALL_FLAGS)
    ensures ValidFlags(f)
    ensures forall i :: Bit(f, i) <==> Bit(v, i) && (i < 9 || i == 63)
  {
    forall i: nat
      ensures Bit(f, i) <==> Bit(v, i) && (i < 9 || i == 63)
    {
      AndBit(v, ALL_FLAGS, i);
      AllFlagsBit(i);
    }
    AndComm(v, ALL_FLAGS);
    AndAtMost(ALL_FLAGS, v);
    AndAtMost(f, ALL_FLAGS);
    AllFlagsBelow();
    forall i | 0 <= i < 64
      ensures Bit(And(f, ALL_FLAGS), i) == Bit(f, i)
    {
      AndBit(f, ALL_FLAGS, i);
      AllFlagsBit(i);
    }
    BitsEqual(And(f, ALL_FLAGS), f, 64);
  }

  lemma AllFlagsBelow()
    ensures ALL_FLAGS < Pow2(64)
  {
    Pow2Table();
  }

  /** `ALL_FLAGS` has exactly bits 0 to 8 and bit 63. */
  lemma AllFlagsBit(i: nat)
    ensures Bit(ALL_FLAGS, i) == (i < 9 || i == 63)
  {
    Pow2Table();
    Pow2Add(54, 9);
    assert ALL_FLAGS == Pow2(54) * Pow2(9) + (Pow2(9) - 1);
    BitOfConcat(Pow2(54), Pow2(9) - 1, 9, i);
    LowMask(9, i);
    if i >= 9 {
      BitOfPow2(54, i - 9);
    }
  }

  /** A valid flags value has no bit outside bits 0 to 8 and 63. */
  lemma ValidFlagsBit(f: nat, i: nat)
    requires ValidFlags(f) && Bit(f, i)
    ensures i < 9 || i == 63
  {
    AndBit(f, ALL_FLAGS, i);
    AllFlagsBit(i);
  }

  /** `contains` of a single named flag tests its bit. */
  lemma ContainsFlag(flags: nat, k: nat)
    ensures Contains(flags, Pow2(k)) <==> Bit(flags, k)
  {
    AndPow2(flags, k);
  }

  /** `flags | other` of two flag values is a flag value holding both. */
  lemma UnionValid(a: nat, b: nat)
    requires ValidFlags(a) && ValidFlags(b)
    ensures ValidFlags(Or(a, b))
    ensures forall i :: Bit(Or(a, b), i) <==> Bit(a, i) || Bit(b, i)
  {
    AllFlagsBelow();
    AndComm(a, ALL_FLAGS);
    AndAtMost(ALL_FLAGS, a);
    AndComm(b, ALL_FLAGS);
    AndAtMost(ALL_FLAGS, b);
    Pow2Table();
    OrBelow(a, b, 64);
    AndAtMost(Or(a, b), ALL_FLAGS);
    forall i: nat
      ensures Bit(Or(a, b), i) <==> Bit(a, i) || Bit(b, i)
    {
      OrBit(a, b, i);
    }
    forall i | 0 <= i < 64
      ensures Bit(And(Or(a, b), ALL_FLAGS), i) == Bit(Or(a, b), i)
    {
      AndBit(Or(a, b), ALL_FLAGS, i);
      AllFlagsBit(i);
      if Bit(a, i) {
        ValidFlagsBit(a, i);
      }
      if Bit(b, i) {
        ValidFlagsBit(b, i);
      }
    }
    BitsEqual(And(Or(a, b), ALL_FLAGS), Or(a, b), 64);
  }

  /** `from_elf_section_flags`: a kernel section is mapped present when it
      is allocated, writable when it is writable, and not executable unless
      it is executable; no other flag is set. */
  function FromElfSectionFlags(h: ElfSections.SectionHeader): (f: nat)
    ensures ValidFlags(f)
    ensures forall i :: Bit(f, i) <==> (i == 0 && Bit(h.flags, 1)) || (i == 1 && Bit(h.flags, 0))
                                       || (i == 63 && !Bit(h.flags, 2))
  {
    var sf := ElfSections.Flags(h);
    ElfSections.ContainsNamed(h);
    Pow2Table();
    EmptyFlags();
    var f0 := 0;
    var f1 := if ElfSections.Contains(sf, ElfSections.ALLOCATED) then AddFlag(f0, 0); Or(f0, PRESENT) else f0;
    var f2 := if ElfSections.Contains(sf, ElfSections.WRITABLE) then AddFlag(f1, 1); Or(f1, WRITABLE) else f1;
    var f3 := if !ElfSections.Contains(sf, ElfSections.EXECUTABLE) then AddFlag(f2, 63); Or(f2, NO_EXECUTE) else f2;
    f3
  }

  /** The empty flags value. */
  lemma EmptyFlags()
    ensures ValidFlags(0)
    ensures forall i :: !Bit(0, i)
  {
    AndAtMost(0, ALL_FLAGS);
    forall i: nat
      ensures !Bit(0, i)
    {
      BitOfZero(i);
    }
  }

  /** `flags |= flag` for the named flag in bit `k`. */
  lemma AddFlag(acc: nat, k: nat)
    requires ValidFlags(acc) && (k < 9 || k == 63)
    ensures ValidFlags(Or(acc, Pow2(k)))
    ensures forall i :: Bit(Or(acc, Pow2(k)), i) <==> Bit(acc, i) || i == k
  {
    AndComm(Pow2(k), ALL_FLAGS);
    AndPow2(ALL_FLAGS, k);
    AllFlagsBit(k);
    UnionValid(acc, Pow2(k));
    forall i: nat
      ensures Bit(Pow2(k), i) == (i == k)
    {
      BitOfPow2(k, i);
    }
  }

  /** `pointed_frame`: the frame in bits 12 to 51 when the entry is present. */
  function PointedFrame(e: Entry): (r: Option<Frame>)
    ensures r.None? <==> !Bit(e.value, 0)
    ensures r.Some? ==> r.value.number == (e.value / 0x1000) % MAX_FRAMES
  {
    ContainsFlag(Flags(e), 0);
    Pow2Table();
    if Contains(Flags(e), PRESENT) then
      MaskedAddress(e.value);
      Some(ContainingAddress(And(e.value, ADDRESS_MASK)))
    else
      None
  }

  /** `v & ADDRESS_MASK` is the frame number in bits 12 to 51, scaled back
      to an address. */
  lemma MaskedAddress(v: u64)
    ensures And(v, ADDRESS_MASK) == ((v / 0x1000) % MAX_FRAMES) * PAGE_SIZE
    ensures ContainingAddress(And(v, ADDRESS_MASK)).number == (v / 0x1000) % MAX_FRAMES
  {
    Pow2Table();
    var n := (v / Pow2(12)) % Pow2(40);
    Pow2Add(40, 12);
    assert n * Pow2(12) < Pow2(64) by {
      assert n < Pow2(40);
      MulBelow(n, Pow2(40), Pow2(12));
    }
    AndComm(v, ADDRESS_MASK);
    AndAtMost(ADDRESS_MASK, v);
    forall i | 0 <= i < 64
      ensures Bit(And(v, ADDRESS_MASK), i) == Bit(n * Pow2(12), i)
    {
      MaskedBit(v, i);
    }
    BitsEqual(And(v, ADDRESS_MASK), n * Pow2(12), 64);
    DivModOf(n, PAGE_SIZE, 0);
  }

  lemma AddressMaskBits()
    ensures ADDRESS_MASK == Pow2(52) - Pow2(12)
  {
    Pow2Table();
  }

  /** Bit `i` of `v & ADDRESS_MASK` is bit `i` of the frame number field
      shifted back into place. */
  lemma MaskedBit(v: nat, i: nat)
    ensures Bit(And(v, ADDRESS_MASK), i) == Bit(((v / Pow2(12)) % Pow2(40)) * Pow2(12), i)
  {
    AddressMaskBits();
    BitOfMask(12, 52, i);
    FieldBit(v, ADDRESS_MASK, 12, 40, i, Pow2(12), Pow2(40));
  }

  /** Masking with a word whose bits are exactly `k` to `k + w - 1` keeps
      the `w`-bit field at `k` in place.  (`p` and `pw` stand for `2^k` and
      `2^w`.) */
  lemma FieldBit(v: nat, mask: nat, k: nat, w: nat, i: nat, p: nat, pw: nat)
    requires p == Pow2(k) && pw == Pow2(w)
    requires Bit(mask, i) == (k <= i < k + w)
    ensures Bit(And(v, mask), i) == Bit(((v / p) % pw) * p, i)
  {
    var q: nat := Shr(v, k);
    ShrIsDiv(v, k);
    AndBit(v, mask, i);
    BitOfMulPow2(q % pw, k, i);
    if k <= i {
      var j: nat := i - k;
      BitOfModPow2(q, w, j);
      BitOfDivPow2(v, k, j);
    }
  }

  lemma MulBelow(n: nat, m: nat, k: nat)
    requires n < m
    ensures n * k <= m * k - k
  {
    MulMono(n, m - 1, k);
    MulPred(m, k);
    assert k * n == n * k && k * (m - 1) == (m - 1) * k;
  }

  /** `set`: store `frame`'s start address and `flags`.  Aborts when the start
      address overflows or has bits outside `ADDRESS_MASK`, which happens
      exactly for frame numbers from 2^40 on. */
  function Set(frame: Frame, flags: nat): (r: Result<Entry, string>)
    requires ValidFlags(flags)
    ensures r.Ok? <==> frame.number < MAX_FRAMES
    ensures r.Ok? ==> Flags(r.value) == flags
    ensures r.Ok? ==> (PointedFrame(r.value) == if Contains(flags, PRESENT) then Some(frame) else None)
  {
    var address := StartAddress(frame);
    if address >= TWO_64 then
      Err(MUL_OVERFLOW)
    else
      AddressCheck(frame);
      if And(address, NOT_ADDRESS_MASK) != 0 then
        Err("assertion failed: frame.start_address() & !ADDRESS_MASK == 0")
      else
        SetRoundTrip(frame, flags);
        Ok(Entry(Or(address, flags)))
  }

  /** `!ADDRESS_MASK` as a 64-bit complement. */
  lemma NotAddressMask()
    ensures ADDRESS_MASK < Pow2(64) && NOT_ADDRESS_MASK == Not(ADDRESS_MASK, 64)
  {
    Pow2Table();
  }

  /** The check in `set` passes exactly for frame numbers below 2^40. */
  lemma AddressCheck(frame: Frame)
    requires StartAddress(frame) < TWO_64
    ensures (And(StartAddress(frame), NOT_ADDRESS_MASK) == 0) <==> frame.number < MAX_FRAMES
  {
    NotAddressMask();
    Pow2Table();
    var a := StartAddress(frame);
    var n := frame.number;
    assert a == n * Pow2(12);
    forall i: nat
      ensures Bit(NOT_ADDRESS_MASK, i) == (i < 12 || 52 <= i < 64)
      ensures Bit(a, i) == (12 <= i && Bit(n, i - 12))
    {
      NotBit(ADDRESS_MASK, 64, i);
      BitOfMask(12, 52, i);
      BitOfMulPow2(n, 12, i);
    }
    if n < MAX_FRAMES {
      forall i | 0 <= i < 64
        ensures !(Bit(a, i) && Bit(NOT_ADDRESS_MASK, i))
      {
        if 52 <= i {
          BitAbove(n, 40, i - 12);
        }
      }
      DisjointAnd(a, NOT_ADDRESS_MASK, 64);
    } else if And(a, NOT_ADDRESS_MASK) == 0 {
      assert n < Pow2(52) by {
        Pow2Add(52, 12);
      }
      forall i | 40 <= i < 52
        ensures !Bit(n, i)
      {
        AndZeroDisjoint(a, NOT_ADDRESS_MASK, i + 12);
      }
      BitsBelow(n, 40, 52);
      assert false;
    }
  }

  /** Reading back what `set` stored gives the flags and, when present, the
      frame. */
  lemma SetRoundTrip(frame: Frame, flags: nat)
    requires ValidFlags(flags) && frame.number < MAX_FRAMES
    ensures StartAddress(frame) < TWO_64
    ensures Or(StartAddress(frame), flags) < TWO_64
    ensures Flags(Entry(Or(StartAddress(frame), flags))) == flags
    ensures PointedFrame(Entry(Or(StartAddress(frame), flags)))
            == if Contains(flags, PRESENT) then Some(frame) else None
  {
    Pow2Table();
    var n := frame.number;
    var a := StartAddress(frame);
    assert a == n * Pow2(12);
    Pow2Add(40, 12);
    MulBelow(n, Pow2(40), Pow2(12));
    AllFlagsBelow();
    AndComm(flags, ALL_FLAGS);
    AndAtMost(ALL_FLAGS, flags);
    OrBelow(a, flags, 64);
    var v := Or(a, flags);
    forall i: nat
      ensures Bit(a, i) == (12 <= i < 52 && Bit(n, i - 12))
    {
      BitOfMulPow2(n, 12, i);
      if i >= 52 {
        BitAbove(n, 40, i - 12);
      }
    }
    // Flags: the address contributes no named flag bit.
    var f := Flags(Entry(v));
    forall i | 0 <= i < 64
      ensures Bit(f, i) == Bit(flags, i)
    {
      OrBit(a, flags, i);
      if Bit(flags, i) {
        ValidFlagsBit(flags, i);
      }
    }
    AndComm(v, ALL_FLAGS);
    AndAtMost(ALL_FLAGS, v);
    BitsEqual(f, flags, 64);
    // Address: the flags contribute no bit under ADDRESS_MASK.
    MaskedAddress(v);
    forall i | 0 <= i < 64
      ensures Bit(And(v, ADDRESS_MASK), i) == Bit(a, i)
    {
      AndBit(v, ADDRESS_MASK, i);
      BitOfMask(12, 52, i);
      OrBit(a, flags, i);
      if Bit(flags, i) {
        ValidFlagsBit(flags, i);
      }
    }
    AndComm(v, ADDRESS_MASK);
    AndAtMost(ADDRESS_MASK, v);
    BitsEqual(And(v, ADDRESS_MASK), a, 64);
    ContainingStartRoundTrip(frame);
    ContainsFlag(f, 0);
  }

  /** An unused entry points nowhere and has no flags. */
  lemma UnusedIsEmpty()
    ensures IsUnused(UNUSED)
    ensures PointedFrame(UNUSED).None?
    ensures Flags(UNUSED) == 0
  {
    assert !Bit(0, 0);
  }
}
