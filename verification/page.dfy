/** Virtual pages of the kernel's own paging code (v1/src/memory/paging/mod.rs):
    the canonical-address check, the four table indices and the inclusive page
    iterator. */
module Pages {
  import opened Base
  import opened Frames

  /** Entries per page table, and so the fan-out of every index. */
  const ENTRY_COUNT: nat := 512

  const TWO_9: nat := 0x200
  const TWO_18: nat := 0x4_0000
  const TWO_27: nat := 0x800_0000
  const TWO_36: nat := 0x10_0000_0000

  /** First address of the non-canonical hole, and first address above it. */
  const LOWER_HALF_END: nat := 0x0000_8000_0000_0000
  const HIGHER_HALF_START: nat := 0xffff_8000_0000_0000

  /** A virtual page, named by `address / PAGE_SIZE`. */
  datatype Page = Page(number: nat)

  predicate Canonical(address: u64)
  {
    address < LOWER_HALF_END || address >= HIGHER_HALF_START
  }

  /** `Page::containing_address`: aborts on an address inside the
      non-canonical hole, otherwise the page whose window holds `address`. */
  function ContainingAddress(address: u64): (r: Result<Page, string>)
    ensures r.Err? <==> LOWER_HALF_END <= address < HIGHER_HALF_START
    ensures r.Ok? ==> StartAddress(r.value) <= address < StartAddress(r.value) + PAGE_SIZE
  {
    if address < LOWER_HALF_END || address >= HIGHER_HALF_START then
      DivModOf(address / PAGE_SIZE, PAGE_SIZE, address % PAGE_SIZE);
      Ok(Page(address / PAGE_SIZE))
    else
      Err("invalid address")
  }

  /** `Page::start_address`: the first address of the page's window, from
      which the page number comes back by division. */
  function StartAddress(p: Page): (a: nat)
    ensures a % PAGE_SIZE == 0 && a / PAGE_SIZE == p.number
  {
    DivModOf(p.number, PAGE_SIZE, 0);
    p.number * PAGE_SIZE
  }

  /** A page whose start address is canonical is recovered from it. */
  lemma StartAddressRoundTrip(p: Page)
    requires StartAddress(p) < TWO_64 && Canonical(StartAddress(p))
    ensures ContainingAddress(StartAddress(p)) == Ok(p)
  {
    DivModOf(p.number, PAGE_SIZE, 0);
  }

  function P4Index(p: Page): (i: nat)
    ensures i < ENTRY_COUNT
  {
    (p.number / TWO_27) % ENTRY_COUNT
  }

  function P3Index(p: Page): (i: nat)
    ensures i < ENTRY_COUNT
  {
    (p.number / TWO_18) % ENTRY_COUNT
  }

  function P2Index(p: Page): (i: nat)
    ensures i < ENTRY_COUNT
  {
    (p.number / TWO_9) % ENTRY_COUNT
  }

  function P1Index(p: Page): (i: nat)
    ensures i < ENTRY_COUNT
  {
    p.number % ENTRY_COUNT
  }

  /** The page number that has the four given indices, most significant
      first. */
  function Compose(i4: nat, i3: nat, i2: nat, i1: nat): nat
  {
    ((i4 * ENTRY_COUNT + i3) * ENTRY_COUNT + i2) * ENTRY_COUNT + i1
  }

  /** A page number below 2^36 is exactly its four indices laid side by
      side, nine bits each. */
  lemma IndicesRecompose(p: Page)
    requires p.number < TWO_36
    ensures p.number == Compose(P4Index(p), P3Index(p), P2Index(p), P1Index(p))
  {
    var n := p.number;
    var n1, n2, n3 := n / 512, n / 512 / 512, n / 512 / 512 / 512;
    DivDiv(n, 512, 512);
    DivDiv(n, 512 * 512, 512);
    assert n3 < 512 by {
      DivDiv(n, 512 * 512 * 512, 512);
    }
    assert n3 % 512 == n3;
    assert n2 == n3 * 512 + n2 % 512;
    assert n1 == n2 * 512 + n1 % 512;
    assert n == n1 * 512 + n % 512;
  }

  /** Conversely, each index of a composed page number is the one it was
      composed from. */
  lemma ComposeIndices(i4: nat, i3: nat, i2: nat, i1: nat)
    requires i4 < ENTRY_COUNT && i3 < ENTRY_COUNT && i2 < ENTRY_COUNT && i1 < ENTRY_COUNT
    ensures var p := Page(Compose(i4, i3, i2, i1));
            P4Index(p) == i4 && P3Index(p) == i3 && P2Index(p) == i2 && P1Index(p) == i1
    ensures Compose(i4, i3, i2, i1) < TWO_36
  {
    var n := Compose(i4, i3, i2, i1);
    var a3 := i4 * 512 + i3;
    var a2 := a3 * 512 + i2;
    DivModOf(a2, 512, i1);
    DivModOf(a3, 512, i2);
    DivModOf(i4, 512, i3);
    DivDiv(n, 512, 512);
    DivDiv(n, 512 * 512, 512);
    assert n / TWO_9 == a2;
    assert n / TWO_18 == a3;
    assert n / TWO_27 == i4;
    assert a3 < 512 * 512;
    assert a2 < 512 * 512 * 512;
  }

  /** `Page + usize`; the addition is checked, as in a debug build. */
  function Add(p: Page, rhs: u64): (r: Result<Page, string>)
    requires p.number < TWO_64
    ensures r.Ok? <==> p.number + rhs < TWO_64
    ensures r.Ok? ==> r.value.number - p.number == rhs
  {
    if p.number + rhs < TWO_64 then Ok(Page(p.number + rhs)) else Err(ADD_OVERFLOW)
  }

  /** `Page::range_inclusive`: from `start` to `end`, both included. */
  datatype PageIter = PageIter(start: Page, end: Page)

  /** `PageIter::next`. */
  function Next(it: PageIter): (r: Option<(Page, PageIter)>)
    ensures r.None? <==> it.start.number > it.end.number
    ensures r.Some? ==>
              && r.value.0 == it.start
              && r.value.1.start.number == it.start.number + 1
              && r.value.1.end == it.end
  {
    if it.start.number <= it.end.number then
      Some((it.start, PageIter(Page(it.start.number + 1), it.end)))
    else
      None
  }

  function Remaining(it: PageIter): nat
  {
    if it.start.number <= it.end.number then it.end.number + 1 - it.start.number else 0
  }

  function Collect(it: PageIter): seq<Page>
    decreases Remaining(it)
  {
    match Next(it)
    case None => []
    case Some((p, rest)) => [p] + Collect(rest)
  }

  /** The iterator yields `start, start+1, ..., end` in ascending order, and
      nothing when `start > end`. */
  lemma {:induction false} CollectIsRange(it: PageIter)
    ensures |Collect(it)| == Remaining(it)
    ensures forall k :: 0 <= k < |Collect(it)| ==> Collect(it)[k].number == it.start.number + k
    decreases Remaining(it)
  {
    match Next(it)
    case None =>
    case Some((p, rest)) =>
      CollectIsRange(rest);
      assert Collect(it) == [p] + Collect(rest);
  }

  /** `nth(n)`: skip `n` pages and yield the next one. */
  function Nth(it: PageIter, n: nat): (r: Option<(Page, PageIter)>)
    ensures r.None? <==> Remaining(it) <= n
    ensures r.Some? ==>
              && r.value.0.number == it.start.number + n
              && r.value.1 == PageIter(Page(it.start.number + n + 1), it.end)
    decreases n
  {
    match Next(it)
    case None => None
    case Some((p, rest)) => if n == 0 then Some((p, rest)) else Nth(rest, n - 1)
  }
}
