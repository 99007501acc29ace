/** The tags of the boot information and their iterator
    (v1/src/multiboot/tag.rs, tag_trait.rs). Tags follow each other from
    the first, each starting at the next multiple of 8 after the previous
    one, up to the tag of type End (section 3.6 of the Multiboot2
    Specification, version 2.0). The model walks the tag area as a byte
    string; a tag's `offset` is its position in it. */
module Tags {
  import opened Base
  import opened Bits
  import opened Bytes
  import opened TagTypes

  /** Tags start on 8-byte boundaries. */
  const TAG_ALIGN: nat := 8

  /** `typ` and `size`. */
  const HEADER_SIZE: nat := 8

  const ASSERT_EQ_FAILED := "assertion failed: `(left == right)`"
  const PAST_END := "assertion failed: self.current.cast::<u8>() < self.end_ptr_exclusive"

  /** What happens when a tag of size 0 is reached: `next` returns it
      again and again without moving, so a search past it never ends. */
  const NEVER_ENDS := "the tag iterator does not advance past a tag of size 0"

  /** A tag header and where it sits. */
  datatype Tag = Tag(typ: TagTypeId, size: u32, offset: nat)

  /** `Tag::typ`. */
  function Typ(t: Tag): (r: TagType)
    ensures ToU32(r) == t.typ.value
    ensures r == End <==> t.typ.value == 0
  {
    IdToTagType(t.typ)
  }

  /** `tag.typ()` is `TagType::End`, which is type 0. */
  predicate IsEnd(t: Tag)
  {
    t.typ.value == 0
  }

  lemma IsEndMeansEnd(t: Tag)
    ensures IsEnd(t) <==> Typ(t) == End
  {
  }

  /** The header at `off`. */
  function ReadTag(mem: seq<byte>, off: nat): (t: Tag)
    requires off + HEADER_SIZE <= |mem|
    ensures t.offset == off
  {
    Tag(TagTypeId(ReadU32(mem, off)), ReadU32(mem, off + 4), off)
  }

  /** The distance to the next tag: the size rounded up to a multiple of
      8, which the source computes as `(size + 7) & !7` (see
      `RoundUp8IsMask`). */
  function RoundUp8(size: u32): (r: nat)
    ensures r % TAG_ALIGN == 0
    ensures size <= r < size + TAG_ALIGN
    ensures r == 0 <==> size == 0
  {
    RoundUpFacts(size);
    ((size + 7) / 8) * 8
  }

  /** The rounding is the source's mask expression, with `7` written
      `2^3 - 1` and `!` on a 64-bit `usize`. */
  lemma RoundUp8IsMask(size: u32)
    ensures RoundUp8(size) == And(size + 7, Not(Pow2(3) - 1, 64))
  {
    AlignDownMask(size + 7, 3);
    EightIsPow2();
  }

  lemma EightIsPow2()
    ensures Pow2(3) == 8
  {
    Pow2Table();
  }

  lemma RoundUpFacts(size: nat)
    ensures var r := ((size + 7) / 8) * 8;
            r % TAG_ALIGN == 0 && size <= r < size + TAG_ALIGN && (r == 0 <==> size == 0)
  {
    var q := (size + 7) / 8;
    DivModOf(q, 8, 0);
  }

  /** `TagIter`: the tag area and the offset of the next tag; the end
      pointer is the end of the area. */
  datatype TagIter = TagIter(mem: seq<byte>, current: nat)

  /** Tags lie on 8-byte boundaries of an area of whole 8-byte words, so a
      header that starts inside the area ends inside it. */
  predicate Aligned(it: TagIter)
  {
    |it.mem| % TAG_ALIGN == 0 && it.current % TAG_ALIGN == 0
  }

  /** `TagIter::new`: the area at `address` must be 8-byte aligned. */
  function IterNew(mem: seq<byte>, address: nat): (r: Result<TagIter, string>)
    ensures r.Ok? <==> address % TAG_ALIGN == 0
    ensures r.Ok? ==> r.value == TagIter(mem, 0)
  {
    if address % TAG_ALIGN != 0 then Err(ASSERT_EQ_FAILED) else Ok(TagIter(mem, 0))
  }

  /** `TagIter::next`: past the end is a failed assertion, the End tag
      stops the iteration, any other tag is returned and skipped. */
  function Next(it: TagIter): (r: Result<Option<(Tag, TagIter)>, string>)
    requires Aligned(it)
    ensures r.Err? <==> it.current >= |it.mem|
    ensures r.Ok? ==> (r.value.None? <==> IsEnd(ReadTag(it.mem, it.current)))
    ensures r.Ok? && r.value.Some? ==>
              var (tag, rest) := r.value.value;
              && tag == ReadTag(it.mem, it.current)
              && !IsEnd(tag)
              && rest == TagIter(it.mem, it.current + RoundUp8(tag.size))
              && Aligned(rest)
  {
    if it.current >= |it.mem| then Err(PAST_END)
    else
      AlignedGap(it.current, |it.mem|);
      var tag := ReadTag(it.mem, it.current);
      AlignedSum(it.current, RoundUp8(tag.size));
      if IsEnd(tag) then Ok(None)
      else Ok(Some((tag, TagIter(it.mem, it.current + RoundUp8(tag.size)))))
  }

  /** Below another multiple of 8, a multiple of 8 leaves room for a
      header. */
  lemma AlignedGap(a: nat, b: nat)
    requires a % TAG_ALIGN == 0 && b % TAG_ALIGN == 0 && a < b
    ensures a + HEADER_SIZE <= b
  {
    DivModOf(a / 8, 8, 0);
    DivModOf(b / 8, 8, 0);
  }

  lemma AlignedSum(a: nat, b: nat)
    requires a % TAG_ALIGN == 0 && b % TAG_ALIGN == 0
    ensures (a + b) % TAG_ALIGN == 0
  {
    DivModOf(a / 8 + b / 8, 8, 0);
  }

  /** How far the iterator still has to go. */
  function Remaining(it: TagIter): nat
  {
    if it.current <= |it.mem| then |it.mem| - it.current + 1 else 0
  }

  /** All the tags the iterator yields before the End tag. */
  function Collect(it: TagIter): (r: Result<seq<Tag>, string>)
    requires Aligned(it)
    decreases Remaining(it)
  {
    match Next(it)
    case Err(e) => Err(e)
    case Ok(None) => Ok([])
    case Ok(Some((tag, rest))) =>
      if tag.size == 0 then Err(NEVER_ENDS)
      else
        match Collect(rest)
        case Err(e) => Err(e)
        case Ok(tags) => Ok([tag] + tags)
  }

  /** Each tag starts where the previous one, rounded up, ends. */
  ghost predicate Chained(tags: seq<Tag>)
  {
    forall k :: 0 <= k < |tags| - 1 ==> tags[k + 1].offset == tags[k].offset + RoundUp8(tags[k].size)
  }

  /** Every tag is the header at its offset, not an End tag, and not
      empty. */
  ghost predicate ReadBack(mem: seq<byte>, tags: seq<Tag>)
  {
    forall k :: 0 <= k < |tags| ==>
      && tags[k].offset + HEADER_SIZE <= |mem|
      && tags[k] == ReadTag(mem, tags[k].offset)
      && !IsEnd(tags[k])
      && tags[k].size > 0
  }

  /** Where the iteration resumes after `tags`, starting from `start`. */
  function After(start: nat, tags: seq<Tag>): nat
  {
    if tags == [] then start else tags[|tags| - 1].offset + RoundUp8(tags[|tags| - 1].size)
  }

  /** A completed iteration yields the chain of non-End tags that starts
      at the iterator's position, every one of them inside the area, and
      stops at an End tag inside the area. */
  lemma CollectIsChain(it: TagIter)
    requires Aligned(it)
    requires Collect(it).Ok?
    ensures var tags := Collect(it).value;
            && Chained(tags)
            && (tags != [] ==> tags[0].offset == it.current)
            && ReadBack(it.mem, tags)
            && After(it.current, tags) + HEADER_SIZE <= |it.mem|
            && IsEnd(ReadTag(it.mem, After(it.current, tags)))
  {
    CollectChained(it);
    CollectReadBack(it);
    CollectStopsAtEnd(it);
  }

  lemma {:induction false} CollectChained(it: TagIter)
    requires Aligned(it)
    requires Collect(it).Ok?
    ensures Chained(Collect(it).value)
    ensures Collect(it).value != [] ==> Collect(it).value[0].offset == it.current
    decreases Remaining(it)
  {
    CollectStep(it);
    var tags := Collect(it).value;
    var n := Next(it).value;
    if n.Some? {
      var (tag, rest) := n.value;
      CollectChained(rest);
      var more := Collect(rest).value;
      assert tags == [tag] + more;
      forall k | 0 <= k < |tags| - 1
        ensures tags[k + 1].offset == tags[k].offset + RoundUp8(tags[k].size)
      {
        if k > 0 { assert tags[k] == more[k - 1] && tags[k + 1] == more[k]; }
      }
    }
  }

  lemma {:induction false} CollectReadBack(it: TagIter)
    requires Aligned(it)
    requires Collect(it).Ok?
    ensures ReadBack(it.mem, Collect(it).value)
    decreases Remaining(it)
  {
    CollectStep(it);
    var n := Next(it).value;
    if n.Some? {
      var (tag, rest) := n.value;
      CollectReadBack(rest);
      ReadBackCons(it.mem, tag, Collect(rest).value);
    }
  }

  lemma ReadBackCons(mem: seq<byte>, tag: Tag, more: seq<Tag>)
    requires tag.offset + HEADER_SIZE <= |mem| && tag == ReadTag(mem, tag.offset)
    requires !IsEnd(tag) && tag.size > 0
    requires ReadBack(mem, more)
    ensures ReadBack(mem, [tag] + more)
  {
    var tags := [tag] + more;
    forall k | 0 <= k < |tags|
      ensures tags[k].offset + HEADER_SIZE <= |mem| && tags[k] == ReadTag(mem, tags[k].offset)
    {
      if k > 0 { assert tags[k] == more[k - 1]; }
    }
  }

  lemma {:induction false} CollectStopsAtEnd(it: TagIter)
    requires Aligned(it)
    requires Collect(it).Ok?
    ensures After(it.current, Collect(it).value) + HEADER_SIZE <= |it.mem|
    ensures IsEnd(ReadTag(it.mem, After(it.current, Collect(it).value)))
    decreases Remaining(it)
  {
    CollectStep(it);
    var tags := Collect(it).value;
    var n := Next(it).value;
    if n.Some? {
      var (tag, rest) := n.value;
      CollectStopsAtEnd(rest);
      var more := Collect(rest).value;
      assert tags == [tag] + more;
      if more != [] {
        assert tags[|tags| - 1] == more[|more| - 1];
      }
    }
  }

  /** `find(|tag| tag.typ == ID)`: the first tag whose type is the number
      `want`; `TagTypeId` and `TagType` compare as numbers. */
  function Find(it: TagIter, want: u32): (r: Result<Option<Tag>, string>)
    requires Aligned(it)
    ensures r.Ok? && r.value.Some? ==> r.value.value.typ.value == want
    decreases Remaining(it)
  {
    match Next(it)
    case Err(e) => Err(e)
    case Ok(None) => Ok(None)
    case Ok(Some((tag, rest))) =>
      if tag.typ.value == want then Ok(Some(tag))
      else if tag.size == 0 then Err(NEVER_ENDS)
      else Find(rest, want)
  }

  /** The first index in `tags` with type `want`, if any. */
  function FirstOfType(tags: seq<Tag>, want: u32): (r: Option<nat>)
    ensures r.Some? ==> r.value < |tags|
  {
    if tags == [] then None
    else if tags[0].typ.value == want then Some(0)
    else match FirstOfType(tags[1..], want)
         case None => None
         case Some(k) => Some(k + 1)
  }

  lemma {:induction false} FirstOfTypeSpec(tags: seq<Tag>, want: u32)
    ensures FirstOfType(tags, want).Some? <==> exists k :: 0 <= k < |tags| && tags[k].typ.value == want
    ensures FirstOfType(tags, want).Some? ==>
              var k := FirstOfType(tags, want).value;
              k < |tags| && tags[k].typ.value == want && forall j :: 0 <= j < k ==> tags[j].typ.value != want
  {
    if tags != [] {
      FirstOfTypeSpec(tags[1..], want);
      if tags[0].typ.value != want {
        if exists k :: 0 <= k < |tags| && tags[k].typ.value == want {
          var k :| 0 <= k < |tags| && tags[k].typ.value == want;
          assert tags[1..][k - 1].typ.value == want;
        }
      }
    }
  }

  /** One step of a completed iteration. */
  lemma CollectStep(it: TagIter)
    requires Aligned(it)
    requires Collect(it).Ok?
    ensures Next(it).Ok?
    ensures Next(it).value.None? ==> Collect(it).value == []
    ensures Next(it).value.Some? ==>
              var (tag, rest) := Next(it).value.value;
              tag.size > 0 && Collect(rest).Ok? && Collect(it).value == [tag] + Collect(rest).value
  {
  }

  /** On a structure whose iteration completes, the search returns the
      first tag of the requested type, and nothing when there is none. */
  lemma {:induction false} FindIsFirst(it: TagIter, want: u32)
    requires Aligned(it)
    requires Collect(it).Ok?
    ensures FirstOfType(Collect(it).value, want).None? ==> Find(it, want) == Ok(None)
    ensures FirstOfType(Collect(it).value, want).Some? ==>
              Find(it, want) == Ok(Some(Collect(it).value[FirstOfType(Collect(it).value, want).value]))
    decreases Remaining(it)
  {
    CollectStep(it);
    var n := Next(it).value;
    if n.Some? {
      var (tag, rest) := n.value;
      var tags := Collect(it).value;
      assert tags[0] == tag && tags[1..] == Collect(rest).value;
      if tag.typ.value != want {
        FindIsFirst(rest, want);
      }
    }
  }

  /** `Tag::cast_tag`: the tag must be of the requested type. */
  function CastTag(tag: Tag, id: TagType): (r: Result<Tag, string>)
    ensures r.Ok? <==> EqId(id, tag.typ)
    ensures r.Ok? ==> r.value == tag
  {
    if !EqId(id, tag.typ) then Err(ASSERT_EQ_FAILED) else Ok(tag)
  }

  /** What `find` returns for a tag type passes the assertion in
      `cast_tag` for that type. */
  lemma FoundTagCasts(it: TagIter, id: TagType)
    requires Aligned(it)
    ensures var r := Find(it, ToU32(id));
            r.Ok? && r.value.Some? ==> CastTag(r.value.value, id) == Ok(r.value.value)
  {
  }
}
