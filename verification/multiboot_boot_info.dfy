/** The boot information structure as a whole (v1/src/multiboot/mod.rs):
    `load` validates the address, the total size and the End tag, and the
    accessors search the tags by type. The structure is the byte string
    `bytes` found at address `start`; its tags follow the 8-byte header. */
module BootInfos {
  import opened Base
  import opened Bits
  import opened Bytes
  import TagTypes
  import Tags
  import MemoryMaps
  import ElfSections

  /** `size_of::<BootInformationHeader>()`: `total_size` and a reserved
      word. */
  const HEADER_SIZE: nat := 8

  /** `size_of::<EndTag>()`: the End tag is a bare tag header. */
  const END_TAG_SIZE: nat := 8

  const SHNDX_ASSERT := "assertion failed: (t.entry_size * t.shndx) <= t.size"

  /** A tag whose stated size runs past the structure: reading it is
      undefined behaviour in the source, an error here. */
  const TAG_PAST_END := "tag extends past the boot information"

  datatype MbiLoadError = IllegalAddress | IllegalTotalSize(size: u32) | NoEndTag

  /** `BootInformation`: where the structure starts and its bytes. */
  datatype BootInformation = BootInformation(start: u64, bytes: seq<byte>)

  /** `mbi.total_size & 0b111` is the remainder modulo 8. */
  lemma LowBits(total: u32)
    ensures And(total, 7) == total % 8
  {
    Pow2Table();
    AndLowMask(total, 3, 32);
  }

  /** `has_valid_end_tag`: the last 8 bytes of the structure are an End tag
      of size 8. */
  predicate HasValidEndTag(bytes: seq<byte>)
    requires |bytes| >= END_TAG_SIZE
  {
    ReadU32(bytes, |bytes| - END_TAG_SIZE) == 0 && ReadU32(bytes, |bytes| - 4) == END_TAG_SIZE
  }

  /** `BootInformation::load` on the memory `mem` at address `ptr`. The
      caller promises that `mem` holds the whole structure, as the
      function's safety contract demands. */
  function Load(ptr: u64, mem: seq<byte>): (r: Result<BootInformation, MbiLoadError>)
    requires HEADER_SIZE <= |mem| && ReadU32(mem, 0) <= |mem|
    ensures r == Err(IllegalAddress) <==> ptr == 0 || ptr % 8 != 0
    ensures r.Err? && r.error.IllegalTotalSize? <==>
              ptr != 0 && ptr % 8 == 0 && (ReadU32(mem, 0) == 0 || ReadU32(mem, 0) % 8 != 0)
    ensures r.Err? && r.error.IllegalTotalSize? ==> r.error.size == ReadU32(mem, 0)
    ensures r.Ok? ==> r.value.start == ptr && r.value.bytes == mem[..ReadU32(mem, 0)]
    ensures r.Ok? ==> Loaded(r.value)
  {
    var total := ReadU32(mem, 0);
    LowBits(total);
    if ptr == 0 || ptr % 8 != 0 then Err(IllegalAddress)
    else if total == 0 || And(total, 7) != 0 then Err(IllegalTotalSize(total))
    else if !HasValidEndTag(mem[..total]) then Err(NoEndTag)
    else
      PrefixRead(mem, total, 0);
      Ok(BootInformation(ptr, mem[..total]))
  }

  /** A prefix reads as the whole does where both have the word. */
  lemma PrefixRead(mem: seq<byte>, n: nat, i: nat)
    requires i + 4 <= n <= |mem|
    ensures ReadU32(mem[..n], i) == ReadU32(mem, i)
  {
    SameRead(mem[..n], i, mem, i);
  }

  /** What a successful `load` establishes: an aligned, non-null address,
      a non-empty size that is a multiple of 8 and fits in a `u32`, and an
      End tag at the end. */
  predicate Loaded(bi: BootInformation)
  {
    && bi.start != 0 && bi.start % 8 == 0
    && |bi.bytes| >= HEADER_SIZE && |bi.bytes| % 8 == 0 && |bi.bytes| < TWO_32
    && ReadU32(bi.bytes, 0) == |bi.bytes|
    && HasValidEndTag(bi.bytes)
  }

  /** The error `load` reports when the address and size are fine. */
  lemma LoadNoEndTag(ptr: u64, mem: seq<byte>)
    requires HEADER_SIZE <= |mem| && ReadU32(mem, 0) <= |mem|
    requires ptr != 0 && ptr % 8 == 0
    requires ReadU32(mem, 0) != 0 && ReadU32(mem, 0) % 8 == 0
    ensures Load(ptr, mem) == Err(NoEndTag) <==> !HasValidEndTag(mem[..ReadU32(mem, 0)])
    ensures Load(ptr, mem).Ok? <==> HasValidEndTag(mem[..ReadU32(mem, 0)])
  {
    LowBits(ReadU32(mem, 0));
  }

  /** `total_size`. */
  function TotalSize(bi: BootInformation): (n: nat)
    requires Loaded(bi)
    ensures n % 8 == 0 && HEADER_SIZE <= n < TWO_32
  {
    |bi.bytes|
  }

  /** `end_address`: `start_address() + total_size()` as a `usize` sum,
      which panics on overflow in a debug build. */
  function EndAddress(bi: BootInformation): (r: Result<u64, string>)
    ensures r.Ok? <==> bi.start + |bi.bytes| < TWO_64
    ensures r.Ok? ==> r.value - bi.start == |bi.bytes|
  {
    if bi.start + |bi.bytes| >= TWO_64 then Err(ADD_OVERFLOW) else Ok(bi.start + |bi.bytes|)
  }

  /** `tags`: the iterator over the tag area, which follows the header at
      an address that is aligned because the structure's is. */
  function TagsOf(bi: BootInformation): (it: Tags.TagIter)
    requires Loaded(bi)
    ensures Tags.Aligned(it)
    ensures it.mem == bi.bytes[HEADER_SIZE..]
  {
    Tags.IterNew(bi.bytes[HEADER_SIZE..], bi.start + HEADER_SIZE).value
  }

  /** The End tag the check in `load` found is the last header of the tag
      area. */
  lemma EndTagClosesArea(bi: BootInformation)
    requires Loaded(bi)
    ensures var mem := TagsOf(bi).mem;
            |mem| >= Tags.HEADER_SIZE && Tags.IsEnd(Tags.ReadTag(mem, |mem| - Tags.HEADER_SIZE))
            && Tags.ReadTag(mem, |mem| - Tags.HEADER_SIZE).size == END_TAG_SIZE
  {
    var n := |bi.bytes|;
    // With no tags the End tag check would read the header itself, whose
    // first word is the total size 8, not the End tag's type 0.
    assert n > HEADER_SIZE;
    SuffixRead(bi.bytes, HEADER_SIZE, n - END_TAG_SIZE - HEADER_SIZE);
    SuffixRead(bi.bytes, HEADER_SIZE, n - 4 - HEADER_SIZE);
  }

  /** Dropping the first `k` bytes shifts every word read by `k`. */
  lemma SuffixRead(a: seq<byte>, k: nat, i: nat)
    requires k + i + 4 <= |a|
    ensures ReadU32(a[k..], i) == ReadU32(a, k + i)
  {
    assert a[k..][i] == a[k + i] && a[k..][i + 1] == a[k + i + 1];
    assert a[k..][i + 2] == a[k + i + 2] && a[k..][i + 3] == a[k + i + 3];
  }

  /** Equal bytes read as equal words. */
  lemma SameRead(a: seq<byte>, i: nat, b: seq<byte>, j: nat)
    requires i + 4 <= |a| && j + 4 <= |b| && a[i..i + 4] == b[j..j + 4]
    ensures ReadU32(a, i) == ReadU32(b, j)
  {
    assert a[i] == a[i..i + 4][0] && a[i + 1] == a[i..i + 4][1];
    assert a[i + 2] == a[i..i + 4][2] && a[i + 3] == a[i..i + 4][3];
  }

  /** `get_tag::<T>()`: the first tag whose type number is `T::ID`, cast to
      `T`. */
  function GetTag(bi: BootInformation, id: TagTypes.TagType): (r: Result<Option<Tags.Tag>, string>)
    requires Loaded(bi)
    ensures r.Ok? && r.value.Some? ==> TagTypes.EqId(id, r.value.value.typ)
    ensures r == Tags.Find(TagsOf(bi), TagTypes.ToU32(id))
  {
    Tags.FoundTagCasts(TagsOf(bi), id);
    match Tags.Find(TagsOf(bi), TagTypes.ToU32(id))
    case Err(e) => Err(e)
    case Ok(None) => Ok(None)
    case Ok(Some(tag)) =>
      match Tags.CastTag(tag, id)
      case Err(e) => Err(e)
      case Ok(t) => Ok(Some(t))
  }

  /** When the tags can be listed, `get_tag` returns the first listed tag
      of the type, and nothing when no listed tag has it. */
  lemma GetTagIsFirst(bi: BootInformation, id: TagTypes.TagType)
    requires Loaded(bi) && Tags.Collect(TagsOf(bi)).Ok?
    ensures var tags := Tags.Collect(TagsOf(bi)).value;
            var k := Tags.FirstOfType(tags, TagTypes.ToU32(id));
            && (k.None? ==> GetTag(bi, id) == Ok(None))
            && (k.Some? ==> GetTag(bi, id) == Ok(Some(tags[k.value])))
  {
    Tags.FindIsFirst(TagsOf(bi), TagTypes.ToU32(id));
  }

  /** The tag's stated size lies inside the tag area. */
  predicate TagInside(mem: seq<byte>, tag: Tags.Tag)
  {
    tag.offset + Tags.HEADER_SIZE <= |mem| && tag.offset + ReadU32(mem, tag.offset + 4) <= |mem|
  }

  /** The memory map tag `tag` of the tag area `mem`, decoded. */
  function MemoryMapAt(mem: seq<byte>, tag: Tags.Tag): (r: Result<MemoryMaps.MemoryMapTag, string>)
    ensures r.Ok? <==> TagInside(mem, tag) && MemoryMaps.DecodeMemoryMapTag(mem, tag.offset).Ok?
    ensures r.Ok? ==> r == MemoryMaps.DecodeMemoryMapTag(mem, tag.offset)
  {
    if !TagInside(mem, tag) then Err(TAG_PAST_END) else MemoryMaps.DecodeMemoryMapTag(mem, tag.offset)
  }

  /** `memory_map_tag`. */
  function MemoryMapTagOf(bi: BootInformation): (r: Result<Option<MemoryMaps.MemoryMapTag>, string>)
    requires Loaded(bi)
    ensures r.Ok? && r.value.None? <==> GetTag(bi, TagTypes.Mmap) == Ok(None)
    ensures r.Ok? && r.value.Some? ==>
              var g := GetTag(bi, TagTypes.Mmap);
              g.Ok? && g.value.Some? && MemoryMapAt(TagsOf(bi).mem, g.value.value) == Ok(r.value.value)
    ensures var g := GetTag(bi, TagTypes.Mmap);
            g.Ok? && g.value.Some? && MemoryMapAt(TagsOf(bi).mem, g.value.value).Ok? ==>
              r == Ok(Some(MemoryMapAt(TagsOf(bi).mem, g.value.value).value))
    ensures var g := GetTag(bi, TagTypes.Mmap);
            r.Err? <==> g.Err? || (g.value.Some? && MemoryMapAt(TagsOf(bi).mem, g.value.value).Err?)
  {
    var g := GetTag(bi, TagTypes.Mmap);
    match g
    case Err(e) => Err(e)
    case Ok(None) => Ok(None)
    case Ok(Some(tag)) =>
      match MemoryMapAt(TagsOf(bi).mem, tag)
      case Err(e) => Err(e)
      case Ok(t) => Ok(Some(t))
  }

  /** The EFI memory map tag `tag` of the tag area `mem`, decoded. */
  function EfiMemoryMapAt(mem: seq<byte>, tag: Tags.Tag): (r: Result<MemoryMaps.EfiMemoryMapTag, string>)
    ensures r.Ok? <==> TagInside(mem, tag) && ReadU32(mem, tag.offset + 4) >= MemoryMaps.EFI_METADATA_SIZE
    ensures r.Ok? ==> r == MemoryMaps.DecodeEfiMemoryMapTag(mem, tag.offset)
  {
    if !TagInside(mem, tag) then Err(TAG_PAST_END) else MemoryMaps.DecodeEfiMemoryMapTag(mem, tag.offset)
  }

  /** `efi_memory_map_tag`: nothing while the boot services have not been
      exited, since the map may still be in use. */
  function EfiMemoryMapTagOf(bi: BootInformation): (r: Result<Option<MemoryMaps.EfiMemoryMapTag>, string>)
    requires Loaded(bi)
    ensures GetTag(bi, TagTypes.EfiBs).Ok? && GetTag(bi, TagTypes.EfiBs).value.Some? ==> r == Ok(None)
    ensures r.Ok? && r.value.Some? ==>
              && GetTag(bi, TagTypes.EfiBs) == Ok(None)
              && var g := GetTag(bi, TagTypes.EfiMmap);
              g.Ok? && g.value.Some? && EfiMemoryMapAt(TagsOf(bi).mem, g.value.value) == Ok(r.value.value)
    ensures var g := GetTag(bi, TagTypes.EfiMmap);
            GetTag(bi, TagTypes.EfiBs) == Ok(None) && g.Ok? && g.value.Some? &&
            EfiMemoryMapAt(TagsOf(bi).mem, g.value.value).Ok? ==>
              r == Ok(Some(EfiMemoryMapAt(TagsOf(bi).mem, g.value.value).value))
    ensures var bs, g := GetTag(bi, TagTypes.EfiBs), GetTag(bi, TagTypes.EfiMmap);
            r.Err? <==>
              || bs.Err?
              || (bs == Ok(None) && (g.Err? || (g.value.Some? && EfiMemoryMapAt(TagsOf(bi).mem, g.value.value).Err?)))
  {
    var bs := GetTag(bi, TagTypes.EfiBs);
    match bs
    case Err(e) => Err(e)
    case Ok(Some(_)) => Ok(None)
    case Ok(None) =>
      var g := GetTag(bi, TagTypes.EfiMmap);
      match g
      case Err(e) => Err(e)
      case Ok(None) => Ok(None)
      case Ok(Some(tag)) =>
        match EfiMemoryMapAt(TagsOf(bi).mem, tag)
        case Err(e) => Err(e)
        case Ok(t) => Ok(Some(t))
  }

  /** The section iterator of the ELF-sections tag `tag` of the tag area
      `mem`: the tag must decode, the `u32` product `entry_size * shndx`
      must neither overflow nor exceed the tag's size, and the header
      table must not be empty. */
  function ElfSectionsAt(mem: seq<byte>, tag: Tags.Tag): (r: Result<ElfSections.ElfSectionIter, string>)
    ensures r.Ok? <==>
              && TagInside(mem, tag)
              && var d := ElfSections.DecodeElfSectionsTag(mem, tag.offset);
              && d.Ok?
              && d.value.entrySize * d.value.shndx <= d.value.size
              && ElfSections.SectionsLen(d.value) > 0
    ensures r.Ok? ==>
              var t := ElfSections.DecodeElfSectionsTag(mem, tag.offset).value;
              r.value == ElfSections.ElfSectionIter(t.sectionsOffset, t.numberOfSections, t.entrySize)
  {
    if !TagInside(mem, tag) then Err(TAG_PAST_END)
    else
      match ElfSections.DecodeElfSectionsTag(mem, tag.offset)
      case Err(e) => Err(e)
      case Ok(t) =>
        if t.entrySize * t.shndx >= TWO_32 then Err(MUL_OVERFLOW)
        else if t.entrySize * t.shndx > t.size then Err(SHNDX_ASSERT)
        else ElfSections.Sections(t)
  }

  /** `elf_sections`. */
  function ElfSectionsOf(bi: BootInformation): (r: Result<Option<ElfSections.ElfSectionIter>, string>)
    requires Loaded(bi)
    ensures r.Ok? && r.value.None? <==> GetTag(bi, TagTypes.ElfSections) == Ok(None)
    ensures r.Ok? && r.value.Some? ==>
              var g := GetTag(bi, TagTypes.ElfSections);
              g.Ok? && g.value.Some? && ElfSectionsAt(TagsOf(bi).mem, g.value.value) == Ok(r.value.value)
    ensures var g := GetTag(bi, TagTypes.ElfSections);
            g.Ok? && g.value.Some? && ElfSectionsAt(TagsOf(bi).mem, g.value.value).Ok? ==>
              r == Ok(Some(ElfSectionsAt(TagsOf(bi).mem, g.value.value).value))
    ensures var g := GetTag(bi, TagTypes.ElfSections);
            r.Err? <==> g.Err? || (g.value.Some? && ElfSectionsAt(TagsOf(bi).mem, g.value.value).Err?)
  {
    var g := GetTag(bi, TagTypes.ElfSections);
    match g
    case Err(e) => Err(e)
    case Ok(None) => Ok(None)
    case Ok(Some(tag)) =>
      match ElfSectionsAt(TagsOf(bi).mem, tag)
      case Err(e) => Err(e)
      case Ok(it) => Ok(Some(it))
  }
}
