/** Multiboot2 tag types (v1/src/multiboot/tag_type.rs): the raw `u32` tag
    type of section 3.6 of the Multiboot2 Specification, version 2.0, its
    transparent wrapper `TagTypeId`, and the named enumeration `TagType`. */
module TagTypes {
  import opened Base

  /** The named tag types, numbered 0 to 21 in declaration order, and
      `Custom` for any other number. */
  datatype TagType =
    | End | Cmdline | BootLoaderName | Module | BasicMeminfo | Bootdev | Mmap
    | Vbe | Framebuffer | ElfSections | Apm | Efi32 | Efi64 | Smbios | AcpiV1
    | AcpiV2 | Network | EfiMmap | EfiBs | Efi32Ih | Efi64Ih | LoadBaseAddr
    | Custom(c: u32)

  /** The highest number with a named variant. */
  const LAST_NAMED: nat := 21

  /** `TagTypeId`: the raw value, as stored in a tag header. */
  datatype TagTypeId = TagTypeId(value: u32)

  /** `From<TagType> for u32`. Efi64 is 12 here, as the conversion code
      says, although its doc comment names 21. */
  function ToU32(t: TagType): (v: u32)
    ensures t.Custom? ==> v == t.c
    ensures !t.Custom? ==> v <= LAST_NAMED
  {
    match t
    case End => 0
    case Cmdline => 1
    case BootLoaderName => 2
    case Module => 3
    case BasicMeminfo => 4
    case Bootdev => 5
    case Mmap => 6
    case Vbe => 7
    case Framebuffer => 8
    case ElfSections => 9
    case Apm => 10
    case Efi32 => 11
    case Efi64 => 12
    case Smbios => 13
    case AcpiV1 => 14
    case AcpiV2 => 15
    case Network => 16
    case EfiMmap => 17
    case EfiBs => 18
    case Efi32Ih => 19
    case Efi64Ih => 20
    case LoadBaseAddr => 21
    case Custom(c) => c
  }

  /** `From<u32> for TagType`. */
  function FromU32(v: u32): (t: TagType)
    ensures t.Custom? <==> v > LAST_NAMED
    ensures t.Custom? ==> t.c == v
  {
    match v
    case 0 => End
    case 1 => Cmdline
    case 2 => BootLoaderName
    case 3 => Module
    case 4 => BasicMeminfo
    case 5 => Bootdev
    case 6 => Mmap
    case 7 => Vbe
    case 8 => Framebuffer
    case 9 => ElfSections
    case 10 => Apm
    case 11 => Efi32
    case 12 => Efi64
    case 13 => Smbios
    case 14 => AcpiV1
    case 15 => AcpiV2
    case 16 => Network
    case 17 => EfiMmap
    case 18 => EfiBs
    case 19 => Efi32Ih
    case 20 => Efi64Ih
    case 21 => LoadBaseAddr
    case _ => Custom(v)
  }

  /** Every `u32` survives the trip through `TagType`. */
  lemma U32RoundTrip(v: u32)
    ensures ToU32(FromU32(v)) == v
  {
  }

  /** A `TagType` survives the trip through `u32` unless it is a `Custom`
      holding the number of a named variant. */
  lemma TagTypeRoundTrip(t: TagType)
    ensures FromU32(ToU32(t)) == t <==> !(t.Custom? && t.c <= LAST_NAMED)
  {
  }

  /** The named variants have distinct numbers. */
  lemma NamedInjective(a: TagType, b: TagType)
    requires !a.Custom? && !b.Custom?
    ensures ToU32(a) == ToU32(b) ==> a == b
  {
    TagTypeRoundTrip(a);
    TagTypeRoundTrip(b);
  }

  /** `From<TagTypeId> for TagType` and back. */
  function IdToTagType(id: TagTypeId): (t: TagType)
    ensures ToU32(t) == id.value
  {
    U32RoundTrip(id.value);
    FromU32(id.value)
  }

  function TagTypeToId(t: TagType): (id: TagTypeId)
    ensures IdToTagType(id) == t <==> !(t.Custom? && t.c <= LAST_NAMED)
  {
    TagTypeRoundTrip(t);
    TagTypeId(ToU32(t))
  }

  /** `PartialEq<TagTypeId> for TagType` (and its mirror): the two are
      equal when their numbers are. */
  predicate EqId(t: TagType, id: TagTypeId)
  {
    ToU32(t) == id.value
  }

  /** The mixed equality holds exactly when the id decodes to the same
      tag type as `t` does after normalising a `Custom` that names a
      numbered variant; for other tag types it is plain equality of the
      decoded id. */
  lemma EqIdMeaning(t: TagType, id: TagTypeId)
    ensures EqId(t, id) <==> IdToTagType(id) == FromU32(ToU32(t))
    ensures !(t.Custom? && t.c <= LAST_NAMED) ==> (EqId(t, id) <==> IdToTagType(id) == t)
  {
    U32RoundTrip(id.value);
    U32RoundTrip(ToU32(t));
    TagTypeRoundTrip(t);
  }
}
