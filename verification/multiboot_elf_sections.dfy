/** The ELF-sections tag of the boot information
    (v1/src/multiboot/elf_sections.rs, section 3.6.7 of the Multiboot2
    Specification, version 2.0): the kernel's section header table, read
    one `entry_size`-byte header at a time in the 32-bit (40-byte) or
    64-bit (64-byte) layout of the ELF specification. */
module ElfSections {
  import opened Base
  import opened Bits
  import opened Bytes

  /** `typ`, `size`, `number_of_sections`, `entry_size` and `shndx`. */
  const METADATA_SIZE: nat := 20

  /** The sizes of an `Elf32_Shdr` and an `Elf64_Shdr`. */
  const ENTRY_SIZE_32: nat := 40
  const ENTRY_SIZE_64: nat := 64

  /** `ElfSectionFlags`. */
  const WRITABLE: nat := 0x1
  const ALLOCATED: nat := 0x2
  const EXECUTABLE: nat := 0x4

  /** The union of the three: what `from_bits_truncate` keeps. */
  const ALL_FLAGS: nat := 0x7

  const UNEXPECTED_ENTRY_SIZE := "Unexpected entry size"

  // ----- Section types -----

  datatype ElfSectionType =
    | Unused | ProgramSection | LinkerSymbolTable | StringTable | RelaRelocation
    | SymbolHashTable | DynamicLinkingTable | Note | Uninitialized | RelRelocation
    | Reserved | DynamicLoaderSymbolTable | EnvironmentSpecific | ProcessorSpecific

  const ENV_FIRST: nat := 0x6000_0000
  const ENV_LAST: nat := 0x6fff_ffff
  const PROC_FIRST: nat := 0x7000_0000
  const PROC_LAST: nat := 0x7fff_ffff

  /** The `#[repr(u32)]` discriminants. */
  function Discriminant(t: ElfSectionType): (v: u32)
    ensures t != EnvironmentSpecific && t != ProcessorSpecific ==> v <= 11
  {
    match t
    case Unused => 0
    case ProgramSection => 1
    case LinkerSymbolTable => 2
    case StringTable => 3
    case RelaRelocation => 4
    case SymbolHashTable => 5
    case DynamicLinkingTable => 6
    case Note => 7
    case Uninitialized => 8
    case RelRelocation => 9
    case Reserved => 10
    case DynamicLoaderSymbolTable => 11
    case EnvironmentSpecific => ENV_FIRST
    case ProcessorSpecific => PROC_FIRST
  }

  /** `ElfSection::section_type` on the raw type: numbers the table does
      not know are read as `Unused`. */
  function SectionTypeOf(typ: u32): (t: ElfSectionType)
    ensures t != Unused <==> (1 <= typ <= 11 || ENV_FIRST <= typ <= PROC_LAST)
  {
    if typ == 0 then Unused
    else if typ == 1 then ProgramSection
    else if typ == 2 then LinkerSymbolTable
    else if typ == 3 then StringTable
    else if typ == 4 then RelaRelocation
    else if typ == 5 then SymbolHashTable
    else if typ == 6 then DynamicLinkingTable
    else if typ == 7 then Note
    else if typ == 8 then Uninitialized
    else if typ == 9 then RelRelocation
    else if typ == 10 then Reserved
    else if typ == 11 then DynamicLoaderSymbolTable
    else if ENV_FIRST <= typ <= ENV_LAST then EnvironmentSpecific
    else if PROC_FIRST <= typ <= PROC_LAST then ProcessorSpecific
    else Unused
  }

  /** Every type is decoded from its discriminant; the numbers 0 to 11 are
      exactly the discriminants of the named types, and each range is
      represented by its first number. */
  lemma SectionTypeRoundTrip(t: ElfSectionType, typ: u32)
    ensures SectionTypeOf(Discriminant(t)) == t
    ensures typ <= 11 ==> Discriminant(SectionTypeOf(typ)) == typ
    ensures ENV_FIRST <= typ <= ENV_LAST ==> Discriminant(SectionTypeOf(typ)) == ENV_FIRST
    ensures PROC_FIRST <= typ <= PROC_LAST ==> Discriminant(SectionTypeOf(typ)) == PROC_FIRST
  {
  }

  // ----- One section header -----

  /** The four fields of a header the kernel reads. */
  datatype SectionHeader = SectionHeader(typ: u32, flags: u64, addr: u64, size: u64)

  predicate KnownEntrySize(entrySize: nat)
  {
    entrySize == ENTRY_SIZE_32 || entrySize == ENTRY_SIZE_64
  }

  /** `ElfSection::get`: the header at `off`, in the layout its entry size
      names; any other entry size panics. The 32-bit layout's fields widen
      to 64 bits. */
  function Get(mem: seq<byte>, off: nat, entrySize: u32): (r: Result<SectionHeader, string>)
    requires KnownEntrySize(entrySize) ==> off + entrySize <= |mem|
    ensures r.Ok? <==> KnownEntrySize(entrySize)
    ensures r.Ok? && entrySize == ENTRY_SIZE_32 ==>
              r.value.flags < TWO_32 && r.value.addr < TWO_32 && r.value.size < TWO_32
  {
    if entrySize == ENTRY_SIZE_32 then
      Ok(SectionHeader(ReadU32(mem, off + 4), ReadU32(mem, off + 8), ReadU32(mem, off + 12),
                       ReadU32(mem, off + 20)))
    else if entrySize == ENTRY_SIZE_64 then
      Ok(SectionHeader(ReadU32(mem, off + 4), ReadU64(mem, off + 8), ReadU64(mem, off + 16),
                       ReadU64(mem, off + 32)))
    else Err(UNEXPECTED_ENTRY_SIZE)
  }

  /** `ElfSection`: where its header is and how large headers are. */
  datatype ElfSection = ElfSection(offset: nat, entrySize: u32)

  predicate Readable(mem: seq<byte>, s: ElfSection)
  {
    KnownEntrySize(s.entrySize) ==> s.offset + s.entrySize <= |mem|
  }

  /** `ElfSection::section_type`. */
  function SectionType(mem: seq<byte>, s: ElfSection): (r: Result<ElfSectionType, string>)
    requires Readable(mem, s)
    ensures r.Ok? <==> KnownEntrySize(s.entrySize)
    ensures r.Ok? ==> r.value == SectionTypeOf(Get(mem, s.offset, s.entrySize).value.typ)
  {
    match Get(mem, s.offset, s.entrySize)
    case Err(e) => Err(e)
    case Ok(h) => Ok(SectionTypeOf(h.typ))
  }

  /** `ElfSection::end_address`: `addr + size`, which panics on overflow
      in a debug build. */
  function EndAddress(h: SectionHeader): (r: Result<u64, string>)
    ensures r.Ok? <==> h.addr + h.size < TWO_64
    ensures r.Ok? ==> r.value - h.size == h.addr && r.value >= h.addr
  {
    if h.addr + h.size >= TWO_64 then Err(ADD_OVERFLOW) else Ok(h.addr + h.size)
  }

  /** `ElfSection::flags`: `from_bits_truncate` keeps the three named
      bits. */
  function Flags(h: SectionHeader): (f: nat)
    ensures f == h.flags % 8
    ensures forall i :: Bit(f, i) <==> i < 3 && Bit(h.flags, i)
  {
    FlagsTruncate(h.flags);
    And(h.flags, ALL_FLAGS)
  }

  lemma FlagsTruncate(v: u64)
    ensures And(v, ALL_FLAGS) == v % 8
    ensures forall i :: Bit(And(v, ALL_FLAGS), i) <==> i < 3 && Bit(v, i)
  {
    Pow2Table();
    AndLowMask(v, 3, 64);
    forall i: nat
      ensures Bit(And(v, ALL_FLAGS), i) <==> i < 3 && Bit(v, i)
    {
      AndBit(v, Pow2(3) - 1, i);
      LowMask(3, i);
    }
  }

  /** `flags.contains(flag)`. */
  predicate Contains(flags: nat, flag: nat)
  {
    And(flags, flag) == flag
  }

  /** A named flag is contained exactly when its bit of the raw flags is
      set. */
  lemma ContainsNamed(h: SectionHeader)
    ensures Contains(Flags(h), WRITABLE) <==> Bit(h.flags, 0)
    ensures Contains(Flags(h), ALLOCATED) <==> Bit(h.flags, 1)
    ensures Contains(Flags(h), EXECUTABLE) <==> Bit(h.flags, 2)
  {
    Pow2Table();
    AndPow2(Flags(h), 0);
    AndPow2(Flags(h), 1);
    AndPow2(Flags(h), 2);
  }

  /** `ElfSection::is_allocated`. */
  function IsAllocated(h: SectionHeader): (b: bool)
    ensures b <==> Bit(h.flags, 1)
  {
    ContainsNamed(h);
    Contains(Flags(h), ALLOCATED)
  }

  // ----- The tag and its iterator -----

  datatype ElfSectionsTag = ElfSectionsTag(typ: u32, size: u32, numberOfSections: u32,
                                           entrySize: u32, shndx: u32, sectionsOffset: nat)

  /** `ElfSectionsTag::dst_size`: the length of the header table. */
  function DstSize(size: u32): (r: Result<nat, string>)
    ensures r.Ok? <==> size >= METADATA_SIZE
    ensures r.Ok? ==> METADATA_SIZE + r.value == size
  {
    if size < METADATA_SIZE then Err("assertion failed: base_tag.size as usize >= METADATA_SIZE")
    else
      var len: nat := size - METADATA_SIZE;
      Ok(len)
  }

  /** `from_base_tag` for the ELF-sections tag at byte offset `off`. */
  function DecodeElfSectionsTag(bytes: seq<byte>, off: nat): (r: Result<ElfSectionsTag, string>)
    requires off + 8 <= |bytes| && off + ReadU32(bytes, off + 4) <= |bytes|
    ensures r.Ok? <==> ReadU32(bytes, off + 4) >= METADATA_SIZE
    ensures r.Ok? ==> r.value.size == ReadU32(bytes, off + 4)
                      && r.value.sectionsOffset == off + METADATA_SIZE
                      && r.value.sectionsOffset + SectionsLen(r.value) <= |bytes|
  {
    var size := ReadU32(bytes, off + 4);
    match DstSize(size)
    case Err(e) => Err(e)
    case Ok(_) =>
      Ok(ElfSectionsTag(ReadU32(bytes, off), size, ReadU32(bytes, off + 8), ReadU32(bytes, off + 12),
                        ReadU32(bytes, off + 16), off + METADATA_SIZE))
  }

  /** The length of the `sections` slice. */
  function SectionsLen(t: ElfSectionsTag): nat
  {
    if t.size >= METADATA_SIZE then t.size - METADATA_SIZE else 0
  }

  /** `ElfSectionIter`: the next header, how many are left to look at, and
      their size. */
  datatype ElfSectionIter = ElfSectionIter(current: nat, remaining: u32, entrySize: u32)

  /** `ElfSectionsTag::sections`. The string-table offset is a `u32`
      product, and taking the address of `sections[0]` panics when the
      table is empty. */
  function Sections(t: ElfSectionsTag): (r: Result<ElfSectionIter, string>)
    ensures r.Ok? <==> t.shndx * t.entrySize < TWO_32 && SectionsLen(t) > 0
    ensures r.Ok? ==> r.value == ElfSectionIter(t.sectionsOffset, t.numberOfSections, t.entrySize)
  {
    if t.shndx * t.entrySize >= TWO_32 then Err(MUL_OVERFLOW)
    else if SectionsLen(t) == 0 then Err("index out of bounds: the len is 0 but the index is 0")
    else Ok(ElfSectionIter(t.sectionsOffset, t.numberOfSections, t.entrySize))
  }

  /** `ElfSectionIter::default`: nothing left. */
  function DefaultIter(): (it: ElfSectionIter)
    ensures forall mem: seq<byte> :: InBounds(mem, it) && Collect(mem, it) == Ok([])
  {
    ElfSectionIter(0, 0, 0)
  }

  /** The headers still to be looked at lie inside the memory, as the boot
      loader promises. */
  predicate InBounds(mem: seq<byte>, it: ElfSectionIter)
  {
    it.current + it.remaining * it.entrySize <= |mem|
  }

  /** `ElfSectionIter::next`: skip `Unused` headers and return the next
      other one; panics on an unknown entry size. */
  function Next(mem: seq<byte>, it: ElfSectionIter): (r: Result<Option<(ElfSection, ElfSectionIter)>, string>)
    requires InBounds(mem, it)
    ensures r.Ok? && r.value.Some? ==>
              var (s, rest) := r.value.value;
              && rest.remaining < it.remaining
              && rest.entrySize == it.entrySize
              && s.entrySize == it.entrySize
              && InBounds(mem, rest)
              && Readable(mem, s)
              && SectionType(mem, s).Ok? && SectionType(mem, s).value != Unused
    ensures it.remaining > 0 && !KnownEntrySize(it.entrySize) ==> r.Err?
    ensures it.remaining == 0 ==> r == Ok(None)
    decreases it.remaining
  {
    if it.remaining == 0 then Ok(None)
    else
      var section := ElfSection(it.current, it.entrySize);
      var rest := ElfSectionIter(it.current + it.entrySize, it.remaining - 1, it.entrySize);
      StepInBounds(mem, it);
      match SectionType(mem, section)
      case Err(e) => Err(e)
      case Ok(t) =>
        if t != Unused then Ok(Some((section, rest)))
        else Next(mem, rest)
  }

  /** Taking one header keeps the rest in bounds. */
  lemma StepInBounds(mem: seq<byte>, it: ElfSectionIter)
    requires InBounds(mem, it) && it.remaining > 0
    ensures it.current + it.entrySize <= |mem|
    ensures InBounds(mem, ElfSectionIter(it.current + it.entrySize, it.remaining - 1, it.entrySize))
  {
    MulPred(it.remaining, it.entrySize);
    MulAtLeast(it.remaining, it.entrySize);
  }

  /** All the sections the iterator yields. */
  function Collect(mem: seq<byte>, it: ElfSectionIter): (r: Result<seq<ElfSection>, string>)
    requires InBounds(mem, it)
    decreases it.remaining
  {
    match Next(mem, it)
    case Err(e) => Err(e)
    case Ok(None) => Ok([])
    case Ok(Some((s, rest))) =>
      match Collect(mem, rest)
      case Err(e) => Err(e)
      case Ok(ss) => Ok([s] + ss)
  }

  /** The headers the iterator looks at: `remaining` of them, `entry_size`
      bytes apart. */
  function Headers(it: ElfSectionIter): (hs: seq<ElfSection>)
    ensures |hs| == it.remaining
    decreases it.remaining
  {
    if it.remaining == 0 then []
    else [ElfSection(it.current, it.entrySize)]
         + Headers(ElfSectionIter(it.current + it.entrySize, it.remaining - 1, it.entrySize))
  }

  /** The headers whose type is not `Unused`, in order. */
  function UsedOnly(mem: seq<byte>, hs: seq<ElfSection>): (r: seq<ElfSection>)
    requires forall k :: 0 <= k < |hs| ==> Readable(mem, hs[k]) && KnownEntrySize(hs[k].entrySize)
    ensures |r| <= |hs|
  {
    if hs == [] then []
    else
      var rest := UsedOnly(mem, hs[1..]);
      if SectionType(mem, hs[0]).value != Unused then [hs[0]] + rest else rest
  }

  lemma {:induction false} HeadersReadable(mem: seq<byte>, it: ElfSectionIter)
    requires InBounds(mem, it) && KnownEntrySize(it.entrySize)
    ensures forall k :: 0 <= k < |Headers(it)| ==>
              Readable(mem, Headers(it)[k]) && KnownEntrySize(Headers(it)[k].entrySize)
    decreases it.remaining
  {
    if it.remaining > 0 {
      var rest := ElfSectionIter(it.current + it.entrySize, it.remaining - 1, it.entrySize);
      StepInBounds(mem, it);
      HeadersReadable(mem, rest);
      var hs := Headers(it);
      assert hs == [ElfSection(it.current, it.entrySize)] + Headers(rest);
      forall k | 0 <= k < |hs|
        ensures Readable(mem, hs[k]) && KnownEntrySize(hs[k].entrySize)
      {
        if k > 0 { assert hs[k] == Headers(rest)[k - 1]; }
      }
    }
  }

  /** With a known entry size the iteration never fails, and it yields
      exactly the headers that are not `Unused`, in table order: at most
      `number_of_sections` of them. */
  lemma {:induction false} CollectIsUsedHeaders(mem: seq<byte>, it: ElfSectionIter)
    requires InBounds(mem, it) && KnownEntrySize(it.entrySize)
    ensures HeadersReadableFact(mem, it)
    ensures Collect(mem, it) == Ok(UsedOnly(mem, Headers(it)))
    ensures |Collect(mem, it).value| <= it.remaining
    decreases it.remaining
  {
    HeadersReadable(mem, it);
    if it.remaining > 0 {
      var rest := ElfSectionIter(it.current + it.entrySize, it.remaining - 1, it.entrySize);
      StepInBounds(mem, it);
      CollectIsUsedHeaders(mem, rest);
      CollectStep(mem, it, rest);
    }
  }

  /** One header of `CollectIsUsedHeaders`: the first header is kept or
      passed over as its type says, in front of what the rest yields. */
  lemma CollectStep(mem: seq<byte>, it: ElfSectionIter, rest: ElfSectionIter)
    requires InBounds(mem, it) && KnownEntrySize(it.entrySize) && it.remaining > 0
    requires rest == ElfSectionIter(it.current + it.entrySize, it.remaining - 1, it.entrySize)
    requires InBounds(mem, rest) && it.current + it.entrySize <= |mem|
    requires HeadersReadableFact(mem, it) && HeadersReadableFact(mem, rest)
    requires Collect(mem, rest) == Ok(UsedOnly(mem, Headers(rest)))
    ensures Collect(mem, it) == Ok(UsedOnly(mem, Headers(it)))
  {
    var hs := Headers(it);
    assert hs[1..] == Headers(rest);
    var s := ElfSection(it.current, it.entrySize);
    assert hs[0] == s;
    if SectionType(mem, s).value == Unused {
      NextSkips(mem, it);
      assert UsedOnly(mem, hs) == UsedOnly(mem, hs[1..]);
    } else {
      assert Next(mem, it) == Ok(Some((s, rest)));
      assert UsedOnly(mem, hs) == [s] + UsedOnly(mem, hs[1..]);
    }
  }

  ghost predicate HeadersReadableFact(mem: seq<byte>, it: ElfSectionIter)
  {
    forall k :: 0 <= k < |Headers(it)| ==>
      Readable(mem, Headers(it)[k]) && KnownEntrySize(Headers(it)[k].entrySize)
  }

  /** An `Unused` header is passed over: the iteration continues with the
      next one. */
  lemma NextSkips(mem: seq<byte>, it: ElfSectionIter)
    requires InBounds(mem, it) && it.remaining > 0 && KnownEntrySize(it.entrySize)
    requires it.current + it.entrySize <= |mem|
    requires SectionType(mem, ElfSection(it.current, it.entrySize)).value == Unused
    ensures var rest := ElfSectionIter(it.current + it.entrySize, it.remaining - 1, it.entrySize);
            InBounds(mem, rest) && Collect(mem, it) == Collect(mem, rest)
  {
    StepInBounds(mem, it);
  }
}
