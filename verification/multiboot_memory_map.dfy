/** The memory-map tags of the boot information
    (v1/src/multiboot/memory_map.rs): the legacy memory map of section
    3.6.8 of the Multiboot2 Specification, version 2.0, with its 24-byte
    areas, and the EFI memory map of section 3.6.15, whose descriptors are
    `desc_size` bytes apart. */
module MemoryMaps {
  import opened Base
  import opened Bytes
  import TagTypes

  /** `typ`, `size`, `entry_size` and `entry_version`. */
  const METADATA_SIZE: nat := 16

  /** `size_of::<MemoryArea>()`: two `u64` and two `u32`. */
  const AREA_SIZE: nat := 24

  /** `typ`, `size`, `desc_size` and `desc_version`. */
  const EFI_METADATA_SIZE: nat := 16

  /** `EFIMemoryDesc::VERSION` of the UEFI specification. */
  const EFI_DESC_VERSION: nat := 1

  /** `align_of::<EFIMemoryDesc>()`: its widest field is a `u64`. */
  const EFI_DESC_ALIGN: nat := 8

  const ASSERT_EQ_FAILED := "assertion failed: `(left == right)`"

  // ----- Memory area types -----

  /** Types 1 to 5 of the e820 map, and any other number. */
  datatype MemoryAreaType =
    | Available | Reserved | AcpiAvailable | ReservedHibernate | Defective
    | Custom(c: u32)

  /** `From<MemoryAreaTypeId> for MemoryAreaType`. */
  function AreaTypeFromId(id: u32): (t: MemoryAreaType)
    ensures t.Custom? <==> !(1 <= id <= 5)
    ensures t.Custom? ==> t.c == id
  {
    match id
    case 1 => Available
    case 2 => Reserved
    case 3 => AcpiAvailable
    case 4 => ReservedHibernate
    case 5 => Defective
    case _ => Custom(id)
  }

  /** `From<MemoryAreaType> for MemoryAreaTypeId`. */
  function AreaTypeToId(t: MemoryAreaType): (id: u32)
    ensures t.Custom? ==> id == t.c
    ensures !t.Custom? ==> 1 <= id <= 5
  {
    match t
    case Available => 1
    case Reserved => 2
    case AcpiAvailable => 3
    case ReservedHibernate => 4
    case Defective => 5
    case Custom(c) => c
  }

  /** Every id survives the trip through `MemoryAreaType`; a type survives
      the trip through its id unless it is a `Custom` holding 1 to 5. */
  lemma AreaTypeRoundTrip(id: u32, t: MemoryAreaType)
    ensures AreaTypeToId(AreaTypeFromId(id)) == id
    ensures AreaTypeFromId(AreaTypeToId(t)) == t <==> !(t.Custom? && 1 <= t.c <= 5)
  {
  }

  /** `PartialEq<MemoryAreaType> for MemoryAreaTypeId` and its mirror. */
  predicate EqAreaId(id: u32, t: MemoryAreaType)
  {
    id == AreaTypeToId(t)
  }

  /** The mixed equality compares decoded types, once a `Custom` that names
      a numbered type is read as that type. */
  lemma EqAreaIdMeaning(id: u32, t: MemoryAreaType)
    ensures EqAreaId(id, t) <==> AreaTypeFromId(id) == AreaTypeFromId(AreaTypeToId(t))
  {
    AreaTypeRoundTrip(id, t);
    AreaTypeRoundTrip(AreaTypeToId(t), t);
  }

  // ----- The legacy memory map -----

  datatype MemoryArea = MemoryArea(baseAddr: u64, length: u64, typ: u32, reserved: u32)

  /** The 24 bytes of an area, as the boot loader writes them. */
  function EncodeArea(a: MemoryArea): (bs: seq<byte>)
    ensures |bs| == AREA_SIZE
  {
    ToLittleEndian(a.baseAddr, 8) + ToLittleEndian(a.length, 8)
      + ToLittleEndian(a.typ, 4) + ToLittleEndian(a.reserved, 4)
  }

  /** The area at byte offset `off`. */
  function DecodeArea(bytes: seq<byte>, off: nat): (a: MemoryArea)
    requires off + AREA_SIZE <= |bytes|
    ensures EncodeArea(a) == bytes[off..off + AREA_SIZE]
  {
    var a := MemoryArea(ReadU64(bytes, off), ReadU64(bytes, off + 8),
                        ReadU32(bytes, off + 16), ReadU32(bytes, off + 20));
    ReadU64Encodes(bytes, off);
    ReadU64Encodes(bytes, off + 8);
    ReadU32Encodes(bytes, off + 16);
    ReadU32Encodes(bytes, off + 20);
    SliceJoin(bytes, off, off + 8, off + 16);
    SliceJoin(bytes, off, off + 16, off + 20);
    SliceJoin(bytes, off, off + 20, off + 24);
    a
  }

  /** Encoding is injective: an area is read back from its bytes. */
  lemma DecodeEncodeArea(before: seq<byte>, a: MemoryArea, after: seq<byte>)
    ensures DecodeArea(before + EncodeArea(a) + after, |before|) == a
  {
    var bytes := before + EncodeArea(a) + after;
    var b := DecodeArea(bytes, |before|);
    assert bytes[|before|..|before| + AREA_SIZE] == EncodeArea(a);
    EncodeAreaInjective(a, b);
  }

  lemma EncodeAreaInjective(a: MemoryArea, b: MemoryArea)
    requires EncodeArea(a) == EncodeArea(b)
    ensures a == b
  {
    Pow256Table();
    var ea := EncodeArea(a);
    var eb := EncodeArea(b);
    assert ea[0..8] == ToLittleEndian(a.baseAddr, 8) && eb[0..8] == ToLittleEndian(b.baseAddr, 8);
    assert ea[8..16] == ToLittleEndian(a.length, 8) && eb[8..16] == ToLittleEndian(b.length, 8);
    assert ea[16..20] == ToLittleEndian(a.typ, 4) && eb[16..20] == ToLittleEndian(b.typ, 4);
    assert ea[20..24] == ToLittleEndian(a.reserved, 4) && eb[20..24] == ToLittleEndian(b.reserved, 4);
  }

  /** `MemoryMapTag::dst_size`: the number of areas a tag of `size` bytes
      holds; the header must fit and the rest must be whole areas. */
  function MmapDstSize(size: u32): (r: Result<nat, string>)
    ensures r.Ok? <==> size >= METADATA_SIZE && (size - METADATA_SIZE) % AREA_SIZE == 0
    ensures r.Ok? ==> METADATA_SIZE + r.value * AREA_SIZE == size
  {
    if size < METADATA_SIZE then Err("assertion failed: base_tag.size as usize >= METADATA_SIZE")
    else if (size - METADATA_SIZE) % AREA_SIZE != 0 then Err(ASSERT_EQ_FAILED)
    else
      var count: nat := (size - METADATA_SIZE) / AREA_SIZE;
      Ok(count)
  }

  datatype MemoryMapTag = MemoryMapTag(typ: u32, size: u32, entrySize: u32, entryVersion: u32,
                                       areas: seq<MemoryArea>)

  /** The areas of a map whose first area starts at `off`. */
  function DecodeAreas(bytes: seq<byte>, off: nat, count: nat): (areas: seq<MemoryArea>)
    requires off + count * AREA_SIZE <= |bytes|
    ensures |areas| == count
    decreases count
  {
    if count == 0 then []
    else [DecodeArea(bytes, off)] + DecodeAreas(bytes, off + AREA_SIZE, count - 1)
  }

  /** `from_base_tag` for the memory map: the tag at byte offset `off`,
      whose `size` the boot loader is trusted to keep inside the
      structure. */
  function DecodeMemoryMapTag(bytes: seq<byte>, off: nat): (r: Result<MemoryMapTag, string>)
    requires off + 8 <= |bytes| && off + ReadU32(bytes, off + 4) <= |bytes|
    ensures r.Ok? <==> MmapDstSize(ReadU32(bytes, off + 4)).Ok?
    ensures r.Ok? ==> r.value.typ == ReadU32(bytes, off) && r.value.size == ReadU32(bytes, off + 4)
    ensures r.Ok? ==> METADATA_SIZE + |r.value.areas| * AREA_SIZE == r.value.size
  {
    var size := ReadU32(bytes, off + 4);
    match MmapDstSize(size)
    case Err(e) => Err(e)
    case Ok(count) =>
      Ok(MemoryMapTag(ReadU32(bytes, off), size, ReadU32(bytes, off + 8), ReadU32(bytes, off + 12),
                      DecodeAreas(bytes, off + METADATA_SIZE, count)))
  }

  /** `MemoryMapTag::memory_areas`: only the 24-byte area layout is
      understood. */
  function MemoryAreas(t: MemoryMapTag): (r: Result<seq<MemoryArea>, string>)
    ensures r.Ok? <==> t.entrySize == AREA_SIZE
    ensures r.Ok? ==> r.value == t.areas
  {
    if t.entrySize != AREA_SIZE then Err(ASSERT_EQ_FAILED) else Ok(t.areas)
  }

  function EncodeAreas(areas: seq<MemoryArea>): (bs: seq<byte>)
    ensures |bs| == |areas| * AREA_SIZE
  {
    if areas == [] then [] else EncodeArea(areas[0]) + EncodeAreas(areas[1..])
  }

  /** A memory-map tag as the boot loader writes it. */
  function EncodeMemoryMapTag(entrySize: u32, entryVersion: u32, areas: seq<MemoryArea>): (bs: seq<byte>)
    requires METADATA_SIZE + |areas| * AREA_SIZE < TWO_32
    ensures |bs| == METADATA_SIZE + |areas| * AREA_SIZE
  {
    ToLittleEndian(TagTypes.ToU32(TagTypes.Mmap), 4)
      + ToLittleEndian(METADATA_SIZE + |areas| * AREA_SIZE, 4)
      + ToLittleEndian(entrySize, 4) + ToLittleEndian(entryVersion, 4)
      + EncodeAreas(areas)
  }

  lemma {:induction false} DecodeEncodeAreas(before: seq<byte>, areas: seq<MemoryArea>, after: seq<byte>)
    ensures var bytes := before + EncodeAreas(areas) + after;
            DecodeAreas(bytes, |before|, |areas|) == areas
    decreases |areas|
  {
    var bytes := before + EncodeAreas(areas) + after;
    if areas != [] {
      var rest := EncodeAreas(areas[1..]);
      assert bytes == before + EncodeArea(areas[0]) + (rest + after);
      DecodeEncodeArea(before, areas[0], rest + after);
      assert bytes == (before + EncodeArea(areas[0])) + rest + after;
      DecodeEncodeAreas(before + EncodeArea(areas[0]), areas[1..], after);
      assert [areas[0]] + areas[1..] == areas;
    }
  }

  /** Reading back a written memory-map tag gives its fields and areas,
      and `memory_areas` accepts it when the entry size is 24. */
  lemma DecodeEncodeMemoryMapTag(entrySize: u32, entryVersion: u32, areas: seq<MemoryArea>,
                                 after: seq<byte>)
    requires METADATA_SIZE + |areas| * AREA_SIZE < TWO_32
    ensures var bytes := EncodeMemoryMapTag(entrySize, entryVersion, areas) + after;
            ReadU32(bytes, 4) == METADATA_SIZE + |areas| * AREA_SIZE &&
            DecodeMemoryMapTag(bytes, 0) ==
              Ok(MemoryMapTag(TagTypes.ToU32(TagTypes.Mmap), METADATA_SIZE + |areas| * AREA_SIZE,
                              entrySize, entryVersion, areas)) &&
            (MemoryAreas(DecodeMemoryMapTag(bytes, 0).value) == Ok(areas) <==> entrySize == AREA_SIZE)
  {
    var size := METADATA_SIZE + |areas| * AREA_SIZE;
    var typ := TagTypes.ToU32(TagTypes.Mmap);
    var body := EncodeAreas(areas);
    var header := ToLittleEndian(typ, 4) + ToLittleEndian(size, 4)
                  + ToLittleEndian(entrySize, 4) + ToLittleEndian(entryVersion, 4);
    var bytes := EncodeMemoryMapTag(entrySize, entryVersion, areas) + after;
    assert bytes == header + body + after;
    HeaderReads(typ, size, entrySize, entryVersion, header, body, after);
    assert ReadU32(bytes, 4) == size <= |bytes|;
    DecodeEncodeAreas(header, areas, after);
    assert |header| == METADATA_SIZE;
    assert DecodeAreas(bytes, METADATA_SIZE, |areas|) == areas;
    DstSizeOfCount(|areas|);
    DecodeOfFields(bytes, typ, size, entrySize, entryVersion, areas);
  }

  /** A tag whose header words and areas read back decodes to them. */
  lemma DecodeOfFields(bytes: seq<byte>, typ: u32, size: u32, entrySize: u32, entryVersion: u32,
                       areas: seq<MemoryArea>)
    requires 16 <= size <= |bytes|
    requires ReadU32(bytes, 0) == typ && ReadU32(bytes, 4) == size
    requires ReadU32(bytes, 8) == entrySize && ReadU32(bytes, 12) == entryVersion
    requires MmapDstSize(size) == Ok(|areas|)
    requires DecodeAreas(bytes, METADATA_SIZE, |areas|) == areas
    ensures DecodeMemoryMapTag(bytes, 0) == Ok(MemoryMapTag(typ, size, entrySize, entryVersion, areas))
  {
  }

  /** The four header words of a tag read back in front of its body. */
  lemma HeaderReads(typ: u32, size: u32, entrySize: u32, entryVersion: u32, header: seq<byte>,
                    body: seq<byte>, after: seq<byte>)
    requires header == ToLittleEndian(typ, 4) + ToLittleEndian(size, 4) + ToLittleEndian(entrySize, 4)
                       + ToLittleEndian(entryVersion, 4)
    ensures ReadU32(header + body + after, 0) == typ && ReadU32(header + body + after, 4) == size
    ensures ReadU32(header + body + after, 8) == entrySize
    ensures ReadU32(header + body + after, 12) == entryVersion
  {
    FourU32(typ, size, entrySize, entryVersion, body + after);
    assert header + body + after == header + (body + after);
  }

  /** A size of whole areas gives back their count. */
  lemma DstSizeOfCount(n: nat)
    requires METADATA_SIZE + n * AREA_SIZE < TWO_32
    ensures MmapDstSize(METADATA_SIZE + n * AREA_SIZE) == Ok(n)
  {
    DivModOf(n, AREA_SIZE, 0);
  }

  // ----- The EFI memory map -----

  /** `EFIMemoryMapTag::dst_size`: the byte length of the embedded map. */
  function EfiDstSize(size: u32): (r: Result<nat, string>)
    ensures r.Ok? <==> size >= EFI_METADATA_SIZE
    ensures r.Ok? ==> EFI_METADATA_SIZE + r.value == size
  {
    if size < EFI_METADATA_SIZE then Err("assertion failed: base_tag.size as usize >= EFI_METADATA_SIZE")
    else
      var len: nat := size - EFI_METADATA_SIZE;
      Ok(len)
  }

  datatype EfiMemoryMapTag = EfiMemoryMapTag(typ: u32, size: u32, descSize: u32, descVersion: u32,
                                             memoryMap: seq<byte>)

  /** `from_base_tag` for the EFI memory map at byte offset `off`. */
  function DecodeEfiMemoryMapTag(bytes: seq<byte>, off: nat): (r: Result<EfiMemoryMapTag, string>)
    requires off + 8 <= |bytes| && off + ReadU32(bytes, off + 4) <= |bytes|
    ensures r.Ok? <==> ReadU32(bytes, off + 4) >= EFI_METADATA_SIZE
    ensures r.Ok? ==> EFI_METADATA_SIZE + |r.value.memoryMap| == r.value.size == ReadU32(bytes, off + 4)
    ensures r.Ok? ==> r.value.memoryMap == bytes[off + EFI_METADATA_SIZE..off + r.value.size]
  {
    var size := ReadU32(bytes, off + 4);
    match EfiDstSize(size)
    case Err(e) => Err(e)
    case Ok(len) =>
      Ok(EfiMemoryMapTag(ReadU32(bytes, off), size, ReadU32(bytes, off + 8), ReadU32(bytes, off + 12),
                         bytes[off + EFI_METADATA_SIZE..off + EFI_METADATA_SIZE + len]))
  }

  /** `EFIMemoryAreaIter`: the next index and the number of descriptors. */
  datatype EfiIter = EfiIter(descSize: nat, i: nat, entries: nat)

  /** `EFIMemoryAreaIter::new`: the map must be whole descriptors; a
      `desc_size` of 0 already fails at the remainder. */
  function EfiIterNew(t: EfiMemoryMapTag): (r: Result<EfiIter, string>)
    ensures r.Ok? <==> t.descSize > 0 && |t.memoryMap| % t.descSize == 0
    ensures r.Ok? ==> r.value.i == 0 && r.value.descSize == t.descSize
    ensures r.Ok? ==> r.value.entries * t.descSize == |t.memoryMap|
  {
    if t.descSize == 0 then Err("attempt to calculate the remainder with a divisor of zero")
    else if |t.memoryMap| % t.descSize != 0 then
      Err("memory map length must be a multiple of `desc_size` by definition. The MBI seems to be corrupt.")
    else
      DivModOf(|t.memoryMap| / t.descSize, t.descSize, 0);
      Ok(EfiIter(t.descSize, 0, |t.memoryMap| / t.descSize))
  }

  /** `EFIMemoryMapTag::memory_areas`: only descriptor version 1 is
      understood, and the map at `mapAddress` must be aligned for a
      descriptor. */
  function EfiMemoryAreas(t: EfiMemoryMapTag, mapAddress: nat): (r: Result<EfiIter, string>)
    ensures r.Ok? <==> t.descVersion == EFI_DESC_VERSION && mapAddress % EFI_DESC_ALIGN == 0
                       && EfiIterNew(t).Ok?
    ensures r.Ok? ==> r == EfiIterNew(t)
  {
    if t.descVersion != EFI_DESC_VERSION then Err(ASSERT_EQ_FAILED)
    else if mapAddress % EFI_DESC_ALIGN != 0 then Err(ASSERT_EQ_FAILED)
    else EfiIterNew(t)
  }

  /** `next`: the byte offset in the map of the next descriptor. */
  function EfiNext(it: EfiIter): (r: Option<(nat, EfiIter)>)
    ensures r.Some? <==> it.i < it.entries
    ensures r.Some? ==> r.value.0 == it.i * it.descSize
                        && r.value.1 == it.(i := it.i + 1)
  {
    if it.i >= it.entries then None
    else Some((it.i * it.descSize, it.(i := it.i + 1)))
  }

  /** All the offsets the iterator still yields. */
  function EfiCollect(it: EfiIter): (offs: seq<nat>)
    decreases it.entries - it.i
  {
    match EfiNext(it)
    case None => []
    case Some((off, rest)) => [off] + EfiCollect(rest)
  }

  /** Offsets `desc_size` apart. */
  ghost predicate Spaced(offs: seq<nat>, step: nat)
  {
    forall k :: 0 <= k < |offs| - 1 ==> offs[k + 1] == offs[k] + step
  }

  /** The iterator yields one offset per remaining descriptor, starting at
      the next one, each `desc_size` after the previous. */
  lemma {:induction false} EfiCollectSpaced(it: EfiIter)
    ensures |EfiCollect(it)| == if it.i < it.entries then it.entries - it.i else 0
    ensures |EfiCollect(it)| > 0 ==> EfiCollect(it)[0] == it.i * it.descSize
    ensures Spaced(EfiCollect(it), it.descSize)
    decreases it.entries - it.i
  {
    if it.i < it.entries {
      var rest := it.(i := it.i + 1);
      EfiCollectSpaced(rest);
      var offs, tail := EfiCollect(it), EfiCollect(rest);
      assert offs == [it.i * it.descSize] + tail;
      MulSucc(it.i, it.descSize);
      forall k | 0 <= k < |offs| - 1
        ensures offs[k + 1] == offs[k] + it.descSize
      {
        if k > 0 {
          assert offs[k] == tail[k - 1] && offs[k + 1] == tail[k];
        }
      }
    }
  }

  lemma MulSucc(a: nat, d: nat)
    ensures (a + 1) * d == a * d + d
  {
  }

  /** Every descriptor of a fresh iterator lies inside the map. */
  lemma EfiDescriptorsInside(t: EfiMemoryMapTag)
    requires EfiIterNew(t).Ok?
    ensures var offs := EfiCollect(EfiIterNew(t).value);
            |offs| * t.descSize == |t.memoryMap| &&
            forall k :: 0 <= k < |offs| ==> offs[k] + t.descSize <= |t.memoryMap|
  {
    var it := EfiIterNew(t).value;
    EfiCollectSpaced(it);
    var offs := EfiCollect(it);
    forall k | 0 <= k < |offs|
      ensures offs[k] + t.descSize <= |t.memoryMap|
    {
      SpacedBound(offs, t.descSize, k);
      MulMono(k + 1, |offs|, t.descSize);
    }
  }

  lemma {:induction false} SpacedBound(offs: seq<nat>, step: nat, k: nat)
    requires Spaced(offs, step) && k < |offs| && offs[0] == 0
    ensures offs[k] + step == (k + 1) * step
  {
    if k > 0 {
      SpacedBound(offs, step, k - 1);
    }
  }

  /** `ExactSizeIterator::len` as written: the number of descriptors of
      the whole map, whatever has already been yielded. */
  function EfiLenAsWritten(it: EfiIter): (n: nat)
    ensures n >= |EfiCollect(it)|
  {
    EfiCollectSpaced(it);
    it.entries
  }

  /** Once a descriptor has been taken, the count is wrong: a map of two
      descriptors reports 2 with one left. */
  lemma EfiLenAsWrittenOvercounts()
    ensures var t := EfiMemoryMapTag(17, 16 + 96, 48, 1, seq(96, _ => 0));
            var it := EfiNext(EfiIterNew(t).value).value.1;
            EfiLenAsWritten(it) == 2 && |EfiCollect(it)| == 1
  {
    var t := EfiMemoryMapTag(17, 16 + 96, 48, 1, seq(96, _ => 0));
    var it := EfiNext(EfiIterNew(t).value).value.1;
    EfiCollectSpaced(it);
  }

  /** The count `len` is meant to give: the descriptors not yet yielded. */
  function EfiLen(it: EfiIter): (n: nat)
    ensures n == |EfiCollect(it)|
  {
    EfiCollectSpaced(it);
    if it.i < it.entries then it.entries - it.i else 0
  }

  /** The corrected count agrees with the written one on a fresh iterator
      and drops by one with each descriptor yielded. */
  lemma EfiLenCounts(t: EfiMemoryMapTag)
    requires EfiIterNew(t).Ok?
    ensures EfiLen(EfiIterNew(t).value) == EfiLenAsWritten(EfiIterNew(t).value)
    ensures forall it :: EfiNext(it).Some? ==> EfiLen(EfiNext(it).value.1) + 1 == EfiLen(it)
  {
  }
}
