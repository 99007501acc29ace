/** The `FrameAllocator` trait (v1/src/memory/mod.rs) and its two
    implementations: the area allocator and the three-slot `TinyAllocator`
    of the temporary page (v1/src/memory/paging/temporary_page.rs). */
module FrameAllocators {
  import opened Base
  import opened Frames
  import AreaFrameAllocator

  /** `TinyAllocator([Option<Frame>; 3])`. */
  datatype TinyAllocator = TinyAllocator(slots: seq<Option<Frame>>)

  predicate WellSized(t: TinyAllocator)
  {
    |t.slots| == 3
  }

  /** The frames the tiny allocator holds, with multiplicity. */
  function Held(slots: seq<Option<Frame>>): multiset<Frame>
  {
    if |slots| == 0 then multiset{}
    else HeldOf(slots[0]) + Held(slots[1..])
  }

  /** Index of the first slot with `Some(_) == want`, or `|slots|`. */
  function FirstSlot(slots: seq<Option<Frame>>, want: bool): (k: nat)
    ensures k <= |slots|
    ensures k < |slots| ==> slots[k].Some? == want
    ensures forall j :: 0 <= j < k ==> slots[j].Some? != want
  {
    if |slots| == 0 then 0
    else if slots[0].Some? == want then 0
    else 1 + FirstSlot(slots[1..], want)
  }

  /** `TinyAllocator::allocate_frame`: take the frame of the first filled
      slot. */
  function TinyAllocate(t: TinyAllocator): (r: (Option<Frame>, TinyAllocator))
    requires WellSized(t)
    ensures WellSized(r.1)
    ensures r.0.None? <==> forall j :: 0 <= j < 3 ==> t.slots[j].None?
    ensures r.0.None? ==> r.1 == t
    ensures r.0.Some? ==> Held(r.1.slots) + multiset{r.0.value} == Held(t.slots)
  {
    var k := FirstSlot(t.slots, true);
    if k == 3 then (None, t)
    else
      var t' := TinyAllocator(t.slots[k := None]);
      HeldUpdate(t.slots, k, None);
      (t.slots[k], t')
  }

  /** `TinyAllocator::deallocate_frame`: park the frame in the first empty
      slot; panics when all three are filled. */
  function TinyDeallocate(t: TinyAllocator, f: Frame): (r: Result<TinyAllocator, string>)
    requires WellSized(t)
    ensures r.Err? <==> forall j :: 0 <= j < 3 ==> t.slots[j].Some?
    ensures r.Ok? ==> WellSized(r.value) && Held(r.value.slots) == Held(t.slots) + multiset{f}
  {
    var k := FirstSlot(t.slots, false);
    if k == 3 then Err("Tiny allocator can hold only 3 frames.")
    else
      HeldUpdate(t.slots, k, Some(f));
      Ok(TinyAllocator(t.slots[k := Some(f)]))
  }

  function HeldOf(o: Option<Frame>): multiset<Frame>
  {
    if o.Some? then multiset{o.value} else multiset{}
  }

  /** Replacing one slot swaps its contribution to `Held`. */
  lemma {:induction false} HeldUpdate(slots: seq<Option<Frame>>, k: nat, o: Option<Frame>)
    requires k < |slots|
    ensures Held(slots[k := o]) + HeldOf(slots[k]) == Held(slots) + HeldOf(o)
    decreases |slots|
  {
    if k > 0 {
      HeldUpdate(slots[1..], k - 1, o);
      var s' := slots[k := o];
      assert s'[1..] == slots[1..][k - 1 := o];
      assert s'[0] == slots[0];
      assert slots[k] == slots[1..][k - 1];
      assert Held(s') == HeldOf(slots[0]) + Held(s'[1..]);
      assert Held(slots) == HeldOf(slots[0]) + Held(slots[1..]);
      calc {
        Held(s') + HeldOf(slots[k]);
        HeldOf(slots[0]) + (Held(s'[1..]) + HeldOf(slots[1..][k - 1]));
        HeldOf(slots[0]) + (Held(slots[1..]) + HeldOf(o));
      }
    } else {
      assert slots[k := o][1..] == slots[1..];
    }
  }

  /** An implementation of the `FrameAllocator` trait. */
  datatype FrameSource =
    | Area(area: AreaFrameAllocator.Allocator)
    | Tiny(tiny: TinyAllocator)

  ghost predicate Valid(a: FrameSource)
  {
    match a
    case Area(x) => AreaFrameAllocator.Inv(x)
    case Tiny(t) => WellSized(t)
  }

  /** `allocate_frame` through the trait. */
  function Allocate(a: FrameSource): (r: (Option<Frame>, FrameSource))
    requires Valid(a)
    ensures Valid(r.1) && r.1.Area? == a.Area?
    ensures a.Area? ==> r == (AreaFrameAllocator.AllocateFrame(a.area).0,
                              Area(AreaFrameAllocator.AllocateFrame(a.area).1))
    ensures a.Tiny? ==> r == (TinyAllocate(a.tiny).0, Tiny(TinyAllocate(a.tiny).1))
  {
    match a
    case Area(x) =>
      var (f, x') := AreaFrameAllocator.AllocateFrame(x);
      (f, Area(x'))
    case Tiny(t) =>
      var (f, t') := TinyAllocate(t);
      (f, Tiny(t'))
  }

  /** `TinyAllocator::new`: three frames taken in order from `parent`. */
  function TinyNew(parent: FrameSource): (r: (TinyAllocator, FrameSource))
    requires Valid(parent)
    ensures WellSized(r.0) && Valid(r.1)
    ensures var (f0, p0) := Allocate(parent);
            var (f1, p1) := Allocate(p0);
            var (f2, p2) := Allocate(p1);
            r == (TinyAllocator([f0, f1, f2]), p2)
  {
    var (f0, p0) := Allocate(parent);
    var (f1, p1) := Allocate(p0);
    var (f2, p2) := Allocate(p1);
    (TinyAllocator([f0, f1, f2]), p2)
  }

  /** A tiny allocator filled by the area allocator holds three distinct
      frames (or fewer when the area allocator runs dry), all outside the
      reserved ranges. */
  lemma TinyFromAreaDistinct(x: AreaFrameAllocator.Allocator)
    requires AreaFrameAllocator.Inv(x)
    ensures var t := TinyNew(Area(x)).0;
            forall i, j :: 0 <= i < j < 3 && t.slots[i].Some? && t.slots[j].Some? ==>
              t.slots[i].value.number < t.slots[j].value.number
    ensures var t := TinyNew(Area(x)).0;
            forall i :: 0 <= i < 3 && t.slots[i].Some? ==>
              AreaFrameAllocator.Usable(x, t.slots[i].value.number)
  {
    var (f0, p0) := Allocate(Area(x));
    var (f1, p1) := Allocate(p0);
    AreaAllocateStep(x);
    AreaAllocateStep(p0.area);
    AreaAllocateStep(p1.area);
    var (f2, _) := Allocate(p1);
    assert TinyNew(Area(x)).0.slots == [f0, f1, f2];
  }

  /** One allocation from the area allocator: a frame at or after the
      cursor and below the new cursor, usable for the old and the new state
      alike; when it runs dry it stays dry. */
  lemma AreaAllocateStep(x: AreaFrameAllocator.Allocator)
    requires AreaFrameAllocator.Inv(x)
    ensures var (f, p) := Allocate(Area(x));
            && p.Area? && AreaFrameAllocator.Inv(p.area)
            && (forall g :: AreaFrameAllocator.Usable(x, g) == AreaFrameAllocator.Usable(p.area, g))
            && (f.Some? ==> x.nextFreeFrame.number <= f.value.number < p.area.nextFreeFrame.number)
            && (f.Some? ==> AreaFrameAllocator.Usable(x, f.value.number))
            && (f.None? ==> Allocate(p).0.None?)
  {
    var (f, p) := Allocate(Area(x));
    AreaFrameAllocator.SameConfigSameUsable(x, p.area);
  }
}
