/** The boot-time physical frame allocator
    (v1/src/memory/area_frame_allocator.rs). */
module AreaFrameAllocator {
  import opened Base
  import opened Frames

  /** A boot-loader memory area: start address and size in bytes. */
  datatype MemoryArea = MemoryArea(startAddress: u64, size: u64)

  /** The areas on which `start_address + size - 1` runs in a debug build:
      the `u64` sum neither overflows nor is 0. */
  predicate WellFormedArea(a: MemoryArea)
  {
    1 <= a.startAddress + a.size < TWO_64
  }

  /** `area.start_address + area.size - 1` in a debug build: the addition
      aborts when it leaves `u64`, the subtraction when the sum is 0. */
  function AreaLastAddress(a: MemoryArea): (r: Result<u64, string>)
    ensures r.Ok? <==> WellFormedArea(a)
    ensures r.Ok? ==> r.value + 1 == a.startAddress + a.size
    ensures r.Err? ==> r.error == if a.startAddress + a.size >= TWO_64 then ADD_OVERFLOW else SUB_OVERFLOW
  {
    if a.startAddress + a.size >= TWO_64 then Err(ADD_OVERFLOW)
    else if a.startAddress + a.size == 0 then Err(SUB_OVERFLOW)
    else Ok(a.startAddress + a.size - 1)
  }

  function FirstFrame(a: MemoryArea): Frame
  {
    ContainingAddress(a.startAddress)
  }

  function LastFrame(a: MemoryArea): Frame
    requires WellFormedArea(a)
  {
    ContainingAddress(a.startAddress + a.size - 1)
  }

  datatype Allocator = Allocator(
    nextFreeFrame: Frame,
    currentArea: Option<MemoryArea>,
    areas: seq<MemoryArea>,
    kernelStart: Frame,
    kernelEnd: Frame,
    multibootStart: Frame,
    multibootEnd: Frame)

  predicate AreasWellFormed(areas: seq<MemoryArea>)
  {
    forall i :: 0 <= i < |areas| ==> WellFormedArea(areas[i])
  }

  /** Frame `g` lies inside area `a`. */
  predicate Contains(a: MemoryArea, g: nat)
  {
    WellFormedArea(a) && FirstFrame(a).number <= g <= LastFrame(a).number
  }

  /** Frame `g` lies inside one of the areas. */
  predicate InSomeArea(areas: seq<MemoryArea>, g: nat)
  {
    exists i :: 0 <= i < |areas| && Contains(areas[i], g)
  }

  predicate Reserved(s: Allocator, g: nat)
  {
    || (s.kernelStart.number <= g <= s.kernelEnd.number)
    || (s.multibootStart.number <= g <= s.multibootEnd.number)
  }

  /** A frame the allocator may hand out: described memory, outside the
      kernel image and outside the boot information. */
  predicate Usable(s: Allocator, g: nat)
    requires AreasWellFormed(s.areas)
  {
    InSomeArea(s.areas, g) && !Reserved(s, g)
  }

  /** One past the highest frame the cursor can ever reach. */
  function Bound(s: Allocator): nat
    requires AreasWellFormed(s.areas)
  {
    Max(MaxLast(s.areas), Max(s.kernelEnd.number, s.multibootEnd.number)) + 1
  }

  function Max(a: nat, b: nat): nat { if a < b then b else a }

  function MaxLast(areas: seq<MemoryArea>): (m: nat)
    requires AreasWellFormed(areas)
    ensures forall i :: 0 <= i < |areas| ==> LastFrame(areas[i]).number <= m
  {
    if |areas| == 0 then 0 else Max(LastFrame(areas[0]).number, MaxLast(areas[1..]))
  }

  /** The allocator's state invariant: the current area is one of the areas
      and the cursor is not before its first frame; without a current area no
      area reaches the cursor. */
  ghost predicate Inv(s: Allocator)
  {
    && AreasWellFormed(s.areas)
    && s.nextFreeFrame.number <= Bound(s)
    && (match s.currentArea
        case Some(c) =>
          c in s.areas && FirstFrame(c).number <= s.nextFreeFrame.number
        case None =>
          forall i :: 0 <= i < |s.areas| ==> LastFrame(s.areas[i]).number < s.nextFreeFrame.number)
  }

  /** Area `a` still has frames at or after `cursor`. */
  predicate Eligible(a: MemoryArea, cursor: Frame)
    requires WellFormedArea(a)
  {
    LastFrame(a).number >= cursor.number
  }

  /** `filter(..).min_by_key(start_address)`: among the areas whose last frame
      is at or after `cursor`, the first one with the lowest start address. */
  function MinEligible(areas: seq<MemoryArea>, cursor: Frame): (r: Option<MemoryArea>)
    requires AreasWellFormed(areas)
    ensures r.None? <==> forall i :: 0 <= i < |areas| ==> !Eligible(areas[i], cursor)
    ensures r.Some? ==>
              && r.value in areas
              && WellFormedArea(r.value)
              && Eligible(r.value, cursor)
              && forall i :: 0 <= i < |areas| && Eligible(areas[i], cursor) ==>
                               r.value.startAddress <= areas[i].startAddress
  {
    if |areas| == 0 then None
    else
      var rest := MinEligible(areas[1..], cursor);
      assert forall i :: 1 <= i < |areas| ==> areas[i] == areas[1..][i - 1];
      if Eligible(areas[0], cursor) && (rest.None? || areas[0].startAddress <= rest.value.startAddress)
      then Some(areas[0])
      else rest
  }

  /** `choose_next_area`: select the next area and move the cursor up to its
      first frame if it is still below it. */
  function ChooseNextArea(s: Allocator): (r: Allocator)
    requires AreasWellFormed(s.areas)
    ensures r.areas == s.areas && r.kernelStart == s.kernelStart && r.kernelEnd == s.kernelEnd
    ensures r.multibootStart == s.multibootStart && r.multibootEnd == s.multibootEnd
    ensures r.currentArea == MinEligible(s.areas, s.nextFreeFrame)
    ensures r.nextFreeFrame.number >= s.nextFreeFrame.number
    ensures r.currentArea.None? ==> r.nextFreeFrame == s.nextFreeFrame
    ensures r.currentArea.Some? ==>
              r.nextFreeFrame.number == Max(s.nextFreeFrame.number, FirstFrame(r.currentArea.value).number)
  {
    var chosen := MinEligible(s.areas, s.nextFreeFrame);
    var s' := s.(currentArea := chosen);
    match chosen
    case None => s'
    case Some(area) =>
      var startFrame := FirstFrame(area);
      if s.nextFreeFrame.number < startFrame.number then s'.(nextFreeFrame := startFrame) else s'
  }

  /** The position of the first area on which `start_address + size - 1`
      aborts, if any. */
  function FirstIllFormed(areas: seq<MemoryArea>): (k: Option<nat>)
    ensures k.None? <==> AreasWellFormed(areas)
    ensures k.Some? ==>
              && k.value < |areas| && !WellFormedArea(areas[k.value])
              && forall j :: 0 <= j < k.value ==> WellFormedArea(areas[j])
  {
    if |areas| == 0 then None
    else if !WellFormedArea(areas[0]) then Some(0)
    else
      var rest := FirstIllFormed(areas[1..]);
      assert forall j :: 1 <= j < |areas| ==> areas[j] == areas[1..][j - 1];
      match rest
      case None => None
      case Some(k) => Some(k + 1)
  }

  /** `AreaFrameAllocator::new`: cursor at frame 0, then pick the first area.
      The filter of `choose_next_area` computes every area's last address in
      order, so `new` aborts on the first area where that arithmetic does. */
  function New(kernelStart: u64, kernelEnd: u64, multibootStart: u64, multibootEnd: u64,
               areas: seq<MemoryArea>): (r: Result<Allocator, string>)
    ensures r.Err? <==> !AreasWellFormed(areas)
    ensures r.Err? ==> r.error == AreaLastAddress(areas[FirstIllFormed(areas).value]).error
    ensures r.Ok? ==> Inv(r.value)
    ensures r.Ok? ==> r.value.areas == areas
    ensures r.Ok? ==> r.value.kernelStart == ContainingAddress(kernelStart) && r.value.kernelEnd == ContainingAddress(kernelEnd)
    ensures r.Ok? ==> r.value.multibootStart == ContainingAddress(multibootStart)
    ensures r.Ok? ==> r.value.multibootEnd == ContainingAddress(multibootEnd)
    ensures r.Ok? ==> r.value.currentArea == MinEligible(areas, Frame(0))
    ensures r.Ok? ==> forall g :: 0 <= g < r.value.nextFreeFrame.number ==> !InSomeArea(areas, g)
  {
    match FirstIllFormed(areas)
    case Some(k) =>
      (match AreaLastAddress(areas[k])
       case Err(e) => Err(e)
       case Ok(_) => assert false; Err(ADD_OVERFLOW))
    case None =>
      var s := Allocator(ContainingAddress(0), None, areas,
                         ContainingAddress(kernelStart), ContainingAddress(kernelEnd),
                         ContainingAddress(multibootStart), ContainingAddress(multibootEnd));
      var r := ChooseNextArea(s);
      SkippedFramesOutsideAreas(s, r);
      Ok(r)
  }

  /** An area of size 0 whose start is not page aligned still names the
      frame its start lies in as its last frame, so the allocator hands that
      frame out although no byte of it belongs to the area. */
  lemma EmptyAreaYieldsFrame()
    ensures var a := MemoryArea(0x1800, 0);
            && WellFormedArea(a) && New(0, 0, 0, 0, [a]).Ok?
            && AllocateFrame(New(0, 0, 0, 0, [a]).value).0 == Some(Frame(1))
  {
    var a := MemoryArea(0x1800, 0);
    assert LastFrame(a) == Frame(1);
    assert MinEligible([a], Frame(0)) == Some(a);
  }

  /** Frames the cursor jumps over when an area is chosen lie in no area: an
      area holding one would be eligible and start lower than the chosen one. */
  lemma SkippedFramesOutsideAreas(s: Allocator, r: Allocator)
    requires AreasWellFormed(s.areas)
    requires r == ChooseNextArea(s)
    ensures forall g :: s.nextFreeFrame.number <= g < r.nextFreeFrame.number ==> !InSomeArea(s.areas, g)
  {
    forall g, i | s.nextFreeFrame.number <= g < r.nextFreeFrame.number && 0 <= i < |s.areas|
      ensures !Contains(s.areas[i], g)
    {
      if Eligible(s.areas[i], s.nextFreeFrame) {
        ContainingMonotone(r.currentArea.value.startAddress, s.areas[i].startAddress);
      }
    }
  }

  lemma ContainingMonotone(x: nat, y: nat)
    requires x <= y
    ensures ContainingAddress(x).number <= ContainingAddress(y).number
  {
  }

  /** Usability depends only on the areas and the reserved ranges. */
  lemma SameConfigSameUsable(s: Allocator, t: Allocator)
    requires AreasWellFormed(s.areas)
    requires t.areas == s.areas && t.kernelStart == s.kernelStart && t.kernelEnd == s.kernelEnd
    requires t.multibootStart == s.multibootStart && t.multibootEnd == s.multibootEnd
    ensures forall g :: Usable(s, g) == Usable(t, g)
  {
  }

  /** Lexicographic progress measure of `allocate_frame`'s recursion. */
  function Stale(s: Allocator): nat
    requires AreasWellFormed(s.areas)
  {
    match s.currentArea
    case Some(c) => if WellFormedArea(c) && s.nextFreeFrame.number > LastFrame(c).number then 1 else 0
    case None => 0
  }

  /** `allocate_frame`.  The frame returned is the lowest usable frame at or
      after the cursor, and the cursor moves one past it; `None` means no
      usable frame is left at or after the cursor. */
  function AllocateFrame(s: Allocator): (r: (Option<Frame>, Allocator))
    requires Inv(s)
    ensures Inv(r.1)
    ensures r.1.areas == s.areas && r.1.kernelStart == s.kernelStart && r.1.kernelEnd == s.kernelEnd
    ensures r.1.multibootStart == s.multibootStart && r.1.multibootEnd == s.multibootEnd
    ensures AllocatedFrom(s, r)
    decreases Bound(s) - s.nextFreeFrame.number, Stale(s)
  {
    match s.currentArea
    case None => (None, s)
    case Some(area) =>
      var frame := Frame(s.nextFreeFrame.number);
      var currentAreaLastFrame := LastFrame(area);
      if frame.number > currentAreaLastFrame.number then
        var s' := ChooseNextArea(s);
        StaleAreaStep(s, s');
        var r := AllocateFrame(s');
        AllocatedAfterSkip(s, s', r);
        r
      else if s.kernelStart.number <= frame.number <= s.kernelEnd.number then
        var s' := s.(nextFreeFrame := Frame(s.kernelEnd.number + 1));
        ReservedSkipStep(s, s');
        var r := AllocateFrame(s');
        AllocatedAfterSkip(s, s', r);
        r
      else if s.multibootStart.number <= frame.number <= s.multibootEnd.number then
        var s' := s.(nextFreeFrame := Frame(s.multibootEnd.number + 1));
        ReservedSkipStep(s, s');
        var r := AllocateFrame(s');
        AllocatedAfterSkip(s, s', r);
        r
      else
        assert Contains(area, frame.number);
        (Some(frame), s.(nextFreeFrame := Frame(s.nextFreeFrame.number + 1)))
  }

  /** What `allocate_frame` promises about its result `r` from state `s`:
      a returned frame is the first usable one at or after the cursor, and
      the cursor moves one past it inside the current area; `None` means
      no usable frame is left at or after the cursor. */
  ghost predicate AllocatedFrom(s: Allocator, r: (Option<Frame>, Allocator))
    requires AreasWellFormed(s.areas)
  {
    && (r.0.Some? ==>
          && s.nextFreeFrame.number <= r.0.value.number
          && Usable(s, r.0.value.number)
          && (forall g :: s.nextFreeFrame.number <= g < r.0.value.number ==> !Usable(s, g))
          && r.1.nextFreeFrame.number == r.0.value.number + 1
          && r.1.currentArea.Some? && Contains(r.1.currentArea.value, r.0.value.number))
    && (r.0.None? ==>
          && r.1.currentArea.None?
          && forall g :: s.nextFreeFrame.number <= g ==> !Usable(s, g))
  }

  /** A result for the state after a skip is one for the state before it,
      since the skipped frames were not usable. */
  lemma AllocatedAfterSkip(s: Allocator, s': Allocator, r: (Option<Frame>, Allocator))
    requires AreasWellFormed(s.areas) && AreasWellFormed(s'.areas)
    requires s.nextFreeFrame.number <= s'.nextFreeFrame.number
    requires forall g :: s.nextFreeFrame.number <= g < s'.nextFreeFrame.number ==> !Usable(s, g)
    requires forall g :: Usable(s, g) == Usable(s', g)
    requires AllocatedFrom(s', r)
    ensures AllocatedFrom(s, r)
  {
  }

  /** Choosing a new area keeps the invariant and skips no usable frame.
      Either the cursor advances (past an empty area, say), or it stays
      and the chosen area holds it. */
  lemma StaleAreaStep(s: Allocator, s': Allocator)
    requires Inv(s) && s.currentArea.Some?
    requires s.nextFreeFrame.number > LastFrame(s.currentArea.value).number
    requires s' == ChooseNextArea(s)
    ensures Inv(s') && Bound(s') == Bound(s)
    ensures s.nextFreeFrame.number < s'.nextFreeFrame.number ||
            (s.nextFreeFrame == s'.nextFreeFrame && Stale(s') == 0)
    ensures forall g :: s.nextFreeFrame.number <= g < s'.nextFreeFrame.number ==> !Usable(s, g)
    ensures forall g :: Usable(s, g) == Usable(s', g)
  {
    SkippedFramesOutsideAreas(s, s');
    SameConfigSameUsable(s, s');
  }

  /** Jumping over a reserved range keeps the invariant, strictly advances the
      cursor and skips no usable frame. */
  lemma ReservedSkipStep(s: Allocator, s': Allocator)
    requires Inv(s) && s.currentArea.Some?
    requires s.nextFreeFrame.number <= LastFrame(s.currentArea.value).number
    requires || (s.kernelStart.number <= s.nextFreeFrame.number <= s.kernelEnd.number
                 && s' == s.(nextFreeFrame := Frame(s.kernelEnd.number + 1)))
             || (s.multibootStart.number <= s.nextFreeFrame.number <= s.multibootEnd.number
                 && s' == s.(nextFreeFrame := Frame(s.multibootEnd.number + 1)))
    ensures Inv(s') && Bound(s') == Bound(s)
    ensures s.nextFreeFrame.number < s'.nextFreeFrame.number
    ensures forall g :: s.nextFreeFrame.number <= g < s'.nextFreeFrame.number ==> !Usable(s, g)
    ensures forall g :: Usable(s, g) == Usable(s', g)
  {
    SameConfigSameUsable(s, s');
  }

  /** Two successive allocations return strictly increasing, hence distinct,
      frames, both outside the kernel and boot-information ranges. */
  lemma SuccessiveFramesIncrease(s: Allocator)
    requires Inv(s)
    ensures var (f1, s1) := AllocateFrame(s);
            var (f2, _) := AllocateFrame(s1);
            f1.Some? && f2.Some? ==>
              && f1.value.number < f2.value.number
              && !Reserved(s, f1.value.number) && !Reserved(s, f2.value.number)
  {
  }
}
