/** Physical frames and the inclusive frame iterator (v1/src/memory/mod.rs). */
module Frames {
  import opened Base

  const PAGE_SIZE: nat := 4096

  /** A physical frame, named by its index `address / PAGE_SIZE`.  The derived
      ordering of the source compares exactly this number. */
  datatype Frame = Frame(number: nat)

  /** The frame that holds `address`. */
  function ContainingAddress(address: nat): (f: Frame)
    ensures StartAddress(f) <= address < StartAddress(f) + PAGE_SIZE
  {
    DivModOf(address / PAGE_SIZE, PAGE_SIZE, address % PAGE_SIZE);
    Frame(address / PAGE_SIZE)
  }

  /** First byte of the frame; always page aligned. */
  function StartAddress(f: Frame): (a: nat)
    ensures a % PAGE_SIZE == 0
  {
    DivModOf(f.number, PAGE_SIZE, 0);
    f.number * PAGE_SIZE
  }

  /** Going from a frame to its start address and back loses nothing. */
  lemma ContainingStartRoundTrip(f: Frame)
    ensures ContainingAddress(StartAddress(f)) == f
  {
    DivModOf(f.number, PAGE_SIZE, 0);
  }

  /** Two addresses in the same 4096-byte window share a frame, and an
      address belongs to frame `f` exactly when it lies in `f`'s window. */
  lemma ContainingAddressIff(address: nat, f: Frame)
    ensures ContainingAddress(address) == f
        <==> StartAddress(f) <= address < StartAddress(f) + PAGE_SIZE
  {
  }

  /** `Frame::range_inclusive`: iterate from `start` to `end`, both included. */
  datatype FrameIter = FrameIter(start: Frame, end: Frame)

  /** `FrameIter::next`: yield `start` and move it one frame up while
      `start <= end`. */
  function Next(it: FrameIter): (r: Option<(Frame, FrameIter)>)
    ensures r.None? <==> it.start.number > it.end.number
    ensures r.Some? ==>
              && r.value.0 == it.start
              && r.value.1.start.number == it.start.number + 1
              && r.value.1.end == it.end
  {
    if it.start.number <= it.end.number then
      Some((it.start, FrameIter(Frame(it.start.number + 1), it.end)))
    else
      None
  }

  function Remaining(it: FrameIter): nat
  {
    if it.start.number <= it.end.number then it.end.number + 1 - it.start.number else 0
  }

  /** Everything the iterator yields before its first `None`. */
  function Collect(it: FrameIter): seq<Frame>
    decreases Remaining(it)
  {
    match Next(it)
    case None => []
    case Some((f, rest)) => [f] + Collect(rest)
  }

  /** The iterator yields `start, start+1, ..., end` in ascending order:
      exactly `end - start + 1` frames, and none at all when `start > end`. */
  lemma {:induction false} CollectIsRange(it: FrameIter)
    ensures |Collect(it)| == Remaining(it)
    ensures forall k :: 0 <= k < |Collect(it)| ==> Collect(it)[k].number == it.start.number + k
    decreases Remaining(it)
  {
    match Next(it)
    case None =>
    case Some((f, rest)) =>
      CollectIsRange(rest);
      assert Collect(it) == [f] + Collect(rest);
  }
}
