/** Segment selectors: `SegmentSelector` of v1/src/xxx/registers/segmentation.rs
    with the `PrivilegeLevel` of v1/src/xxx/mod.rs, and the plain constructor
    of v1/src/structures/mod.rs that the GDT uses.  A selector is a 16-bit
    word holding a descriptor-table index in bits 3 to 15 and the requested
    privilege level (RPL) in bits 0 and 1. */
module Segmentation {
  import opened Base
  import opened Bits
  import opened BitFields

  datatype PrivilegeLevel = Ring0 | Ring1 | Ring2 | Ring3

  /** `level as u16`: the enum's discriminant. */
  function LevelValue(l: PrivilegeLevel): (r: u16)
    ensures r < 4
  {
    match l
    case Ring0 => 0
    case Ring1 => 1
    case Ring2 => 2
    case Ring3 => 3
  }

  const INVALID_PRIVILEGE_LEVEL := "invalid privilege level"

  /** `PrivilegeLevel::from_u16`: panics above 3. */
  function FromU16(v: u16): (r: Result<PrivilegeLevel, string>)
    ensures r.Ok? <==> v < 4
    ensures r.Ok? ==> LevelValue(r.value) == v
    ensures r.Err? ==> r.error == INVALID_PRIVILEGE_LEVEL
  {
    match v
    case 0 => Ok(Ring0)
    case 1 => Ok(Ring1)
    case 2 => Ok(Ring2)
    case 3 => Ok(Ring3)
    case _ => Err(INVALID_PRIVILEGE_LEVEL)
  }

  /** Converting a level to its discriminant and back gives the level. */
  lemma FromLevelValue(l: PrivilegeLevel)
    ensures FromU16(LevelValue(l)) == Ok(l)
  {
  }

  /** Number of descriptor indexes a selector can hold: bits 3 to 15. */
  const INDEXES: nat := 8192

  datatype SegmentSelector = SegmentSelector(value: u16)

  /** `index << 3 | rpl` on `u16`, the body of both constructors: the shift
      drops bits 13 to 15 of the index.  For an RPL that fits in three bits
      the or is an addition. */
  function Pack(index: u16, rpl: u16): (r: u16)
    ensures rpl < 8 ==> r == (index % INDEXES) * 8 + rpl
  {
    Pow2Table();
    var shifted := Shl(index, 3, 16);
    OrBelow(shifted, rpl, 16);
    if rpl < 8 then ShiftedIndex(index, rpl); Or(shifted, rpl) else Or(shifted, rpl)
  }

  /** `index << 3` on `u16` is `(index mod 2^13) * 8`, whose low three bits
      are clear, so or-ing in a three-bit RPL adds it. */
  lemma ShiftedIndex(index: u16, rpl: u16)
    requires rpl < 8
    ensures Shl(index, 3, 16) == (index % INDEXES) * 8
    ensures Or(Shl(index, 3, 16), rpl) == (index % INDEXES) * 8 + rpl
  {
    Pow2Table();
    DivDiv(index * 8, 8, INDEXES);
    DivModOf(index, 8, 0);
    var shifted := (index % INDEXES) * 8;
    forall i | 0 <= i < 3
      ensures !(Bit(rpl, i) && Bit(shifted, i))
    {
      BitOfMulPow2(index % INDEXES, 3, i);
    }
    DisjointAnd(rpl, shifted, 3);
    AndComm(rpl, shifted);
    OrDisjoint(shifted, rpl);
  }

  /** structures `SegmentSelector::new(index, rpl)`, whose RPL is a plain
      `u16`. */
  function RawNew(index: u16, rpl: u16): (r: u16)
    ensures rpl < 8 ==> r / 8 == index % INDEXES && r % 8 == rpl
  {
    if rpl < 8 then DivModOf(index % INDEXES, 8, rpl); Pack(index, rpl) else Pack(index, rpl)
  }

  /** registers `SegmentSelector::new(index, rpl)`. */
  function New(index: u16, rpl: PrivilegeLevel): (r: SegmentSelector)
    ensures r.value == (index % INDEXES) * 8 + LevelValue(rpl)
  {
    SegmentSelector(Pack(index, LevelValue(rpl)))
  }

  /** `index()`: `value >> 3`, the selector with its RPL and table-indicator
      bits shifted out. */
  function Index(s: SegmentSelector): (r: u16)
    ensures r == s.value / 8 && r < INDEXES
  {
    Pow2Table();
    ShrIsDiv(s.value, 3);
    Shr(s.value, 3)
  }

  /** `rpl()`: bits 0 and 1, which `from_u16` always accepts. */
  function Rpl(s: SegmentSelector): (r: PrivilegeLevel)
    ensures LevelValue(r) == s.value % 4
  {
    Pow2Table();
    var bits := GetBits(s.value, 0, 2);
    GetBitsLow(s.value, 2);
    FromU16(bits).value
  }

  /** A selector built from an index and a level gives back the level and the
      index modulo 2^13, the part of the index the shift keeps. */
  lemma IndexRplOfNew(index: u16, rpl: PrivilegeLevel)
    ensures Index(New(index, rpl)) == index % INDEXES
    ensures Rpl(New(index, rpl)) == rpl
  {
    var s := New(index, rpl);
    DivModOf(index % INDEXES, 8, LevelValue(rpl));
    DivDiv(s.value, 4, 2);
    assert LevelValue(Rpl(s)) == LevelValue(rpl);
  }

  /** For an index below 2^13 `index` and `rpl` undo `new`. */
  lemma NewRoundTrip(index: u16, rpl: PrivilegeLevel)
    requires index < INDEXES
    ensures Index(New(index, rpl)) == index && Rpl(New(index, rpl)) == rpl
  {
    IndexRplOfNew(index, rpl);
  }

  /** Conversely a selector whose table-indicator bit (bit 2) is clear is
      rebuilt by `new` from its index and level. */
  lemma NewOfParts(s: SegmentSelector)
    requires (s.value / 4) % 2 == 0
    ensures New(Index(s), Rpl(s)) == s
  {
    var v: nat := s.value;
    DivDiv(v, 4, 2);
    assert v % 8 == v % 4;
    SmallMod(v / 8, INDEXES);
    assert New(Index(s), Rpl(s)).value == (v / 8) * 8 + v % 8;
  }

  /** The plain constructor of the GDT and the typed one agree on every
      level. */
  lemma RawNewAgrees(index: u16, rpl: PrivilegeLevel)
    ensures SegmentSelector(RawNew(index, LevelValue(rpl))) == New(index, rpl)
  {
  }
}
