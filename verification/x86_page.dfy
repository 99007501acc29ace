/** Sized virtual pages of the x86_64 crate (v1/src/xxx/structures/paging/page.rs):
    4 KiB, 2 MiB and 1 GiB pages named by their aligned start address, page
    arithmetic, and the exclusive and inclusive page ranges. */
module SizedPages {
  import opened Base
  import opened Bits
  import Pages
  import VirtAddrs

  /** The three `PageSize` implementations. */
  datatype PageSize = Size4KiB | Size2MiB | Size1GiB

  function SizeExp(s: PageSize): nat
  {
    match s
    case Size4KiB => 12
    case Size2MiB => 21
    case Size1GiB => 30
  }

  /** `PageSize::SIZE`: 4 KiB, 2 MiB (512 times 4 KiB) and 1 GiB (512
      times 2 MiB). */
  function Size(s: PageSize): (n: u64)
    ensures 0 < n <= 0x4000_0000
  {
    match s
    case Size4KiB => 0x1000
    case Size2MiB => 0x20_0000
    case Size1GiB => 0x4000_0000
  }

  /** Each size is a power of two: `2^12`, `2^21` and `2^30`. */
  lemma SizeIsPow2(s: PageSize)
    ensures Size(s) == Pow2(SizeExp(s))
  {
    Pow2Table();
    Pow2Add(9, 12);
    Pow2Add(9, 21);
  }

  /** Every size divides the ends of the non-canonical hole and `2^64`. */
  lemma SizeDivides(s: PageSize)
    ensures Pages.LOWER_HALF_END % Size(s) == 0 && Pages.HIGHER_HALF_START % Size(s) == 0
    ensures TWO_64 % Size(s) == 0
  {
  }

  /** A page: its start address and, standing in for the type parameter
      `S`, its size. */
  datatype Page = Page(startAddress: VirtAddrs.VirtAddr, size: PageSize)

  /** What the type guarantees of every page: an aligned, canonical start. */
  predicate WellFormed(p: Page)
  {
    p.startAddress.value % Size(p.size) == 0 && Pages.Canonical(p.startAddress.value)
  }

  function Start(p: Page): nat
  {
    p.startAddress.value
  }

  /** `VirtAddr::align_down_u64(SIZE)`: the greatest multiple of the size
      not above `a`. The source clears the low bits with a mask; see
      `AlignDownIsMask`. */
  function AlignDown(a: u64, s: PageSize): (r: u64)
    ensures r % Size(s) == 0 && r <= a < r + Size(s)
  {
    FloorFacts(a, Size(s));
    (a / Size(s)) * Size(s)
  }

  /** Rounding down is `a & !(SIZE - 1)` on a 64-bit word. */
  lemma AlignDownIsMask(a: u64, s: PageSize)
    ensures Size(s) - 1 < Pow2(64)
    ensures AlignDown(a, s) == And(a, Not(Size(s) - 1, 64))
  {
    SizeIsPow2(s);
    AlignDownMask(a, SizeExp(s));
  }

  /** `Page::containing_address`: the page whose window holds `address`. */
  function ContainingAddress(address: VirtAddrs.VirtAddr, s: PageSize): (p: Page)
    ensures p.size == s
    ensures Start(p) % Size(s) == 0
    ensures Start(p) <= address.value < Start(p) + Size(s)
    ensures Pages.Canonical(address.value) ==> WellFormed(p)
  {
    var start := AlignDown(address.value, s);
    FloorFacts(address.value, Size(s));
    FloorCanonical(address.value, Size(s));
    Page(VirtAddrs.VirtAddr(start), s)
  }

  /** Rounding down to a multiple of `n`. */
  lemma FloorFacts(a: nat, n: nat)
    requires n > 0
    ensures (a / n) * n <= a < (a / n) * n + n
    ensures ((a / n) * n) % n == 0
  {
    DivModOf(a / n, n, a % n);
    DivModOf(a / n, n, 0);
  }

  /** Of two distinct multiples of `n`, the larger is at least `n` above
      the smaller. */
  lemma NextMultiple(x: nat, y: nat, n: nat)
    requires n > 0
    ensures x % n == 0 && y % n == 0 && x < y ==> x + n <= y
  {
    if x % n == 0 && y % n == 0 && x < y {
      var a, b := x / n, y / n;
      assert x == n * a && y == n * b;
      if a >= b {
        MulMono(b, a, n);
      }
      MulMono(a + 1, b, n);
      assert n * (a + 1) == n * a + n;
    }
  }

  /** Rounding a canonical address down to a size that divides both ends
      of the hole keeps it canonical. */
  lemma FloorCanonical(a: u64, n: nat)
    requires n > 0 && Pages.HIGHER_HALF_START % n == 0
    ensures (a / n) * n <= a
    ensures Pages.Canonical(a) ==> Pages.Canonical((a / n) * n)
  {
    FloorFacts(a, n);
    NextMultiple((a / n) * n, Pages.HIGHER_HALF_START, n);
  }

  /** The error of `from_start_address`. */
  datatype AddressNotAligned = AddressNotAligned

  /** `Page::from_start_address`: only an aligned address starts a page. */
  function FromStartAddress(address: VirtAddrs.VirtAddr, s: PageSize): (r: Result<Page, AddressNotAligned>)
    ensures r.Ok? <==> address.value % Size(s) == 0
    ensures r.Ok? ==> r.value == Page(address, s)
  {
    DivModOf(address.value / Size(s), Size(s), address.value % Size(s));
    if AlignDown(address.value, s) != address.value then Err(AddressNotAligned)
    else Ok(ContainingAddress(address, s))
  }

  /** A page is recovered from its start address, and every address of the
      page leads back to it. */
  lemma PageRoundTrip(p: Page, a: VirtAddrs.VirtAddr)
    requires WellFormed(p)
    requires Start(p) <= a.value < Start(p) + Size(p.size)
    ensures FromStartAddress(p.startAddress, p.size) == Ok(p)
    ensures ContainingAddress(a, p.size) == p
  {
    var n := Size(p.size);
    var q := ContainingAddress(a, p.size);
    NextMultiple(Start(q), Start(p), n);
    NextMultiple(Start(p), Start(q), n);
  }

  /** `VirtAddr + u64`: an overflow panics, and so does a sum in the
      non-canonical hole (`VirtAddr::new`). */
  function AddAddr(a: VirtAddrs.VirtAddr, rhs: nat): (r: Result<VirtAddrs.VirtAddr, string>)
    ensures r.Ok? <==> a.value + rhs < TWO_64 && Pages.Canonical(a.value + rhs)
    ensures r.Ok? ==> r.value.value == a.value + rhs
  {
    if a.value + rhs >= TWO_64 then Err(ADD_OVERFLOW)
    else VirtAddrs.New(a.value + rhs)
  }

  /** `VirtAddr - u64`, with the same checks. */
  function SubAddr(a: VirtAddrs.VirtAddr, rhs: nat): (r: Result<VirtAddrs.VirtAddr, string>)
    ensures r.Ok? <==> rhs <= a.value && Pages.Canonical(a.value - rhs)
    ensures r.Ok? ==> r.value.value + rhs == a.value
  {
    if rhs > a.value then Err(SUB_OVERFLOW)
    else VirtAddrs.New(a.value - rhs)
  }

  /** `rhs * SIZE` in `u64`, checked. */
  function Scale(rhs: u64, s: PageSize): (r: Result<nat, string>)
    ensures r.Ok? <==> rhs * Size(s) < TWO_64
    ensures r.Ok? ==> r.value == rhs * Size(s) && r.value % Size(s) == 0
  {
    DivModOf(rhs, Size(s), 0);
    if rhs * Size(s) >= TWO_64 then Err(MUL_OVERFLOW) else Ok(rhs * Size(s))
  }

  /** `Page + u64`: the page `rhs` pages further up. */
  function AddPages(p: Page, rhs: u64): (r: Result<Page, string>)
    ensures r.Ok? ==> r.value.size == p.size
    ensures r.Ok? ==> Start(p) + rhs * Size(p.size) < Start(r.value) + Size(p.size)
    ensures WellFormed(p) ==>
              (r.Ok? <==> Start(p) + rhs * Size(p.size) < TWO_64 && Pages.Canonical(Start(p) + rhs * Size(p.size)))
    ensures WellFormed(p) && r.Ok? ==> Start(r.value) == Start(p) + rhs * Size(p.size) && WellFormed(r.value)
  {
    match Scale(rhs, p.size)
    case Err(e) => Err(e)
    case Ok(delta) =>
      match AddAddr(p.startAddress, delta)
      case Err(e) => Err(e)
      case Ok(a) =>
        AlignedShift(Start(p), delta, Size(p.size));
        ContainingOfAligned(a, p.size);
        Ok(ContainingAddress(a, p.size))
  }

  /** `Page - u64`: the page `rhs` pages further down. */
  function SubPages(p: Page, rhs: u64): (r: Result<Page, string>)
    ensures r.Ok? ==> r.value.size == p.size
    ensures r.Ok? ==> Start(r.value) + rhs * Size(p.size) <= Start(p)
    ensures WellFormed(p) ==>
              (r.Ok? <==> rhs * Size(p.size) <= Start(p) && Pages.Canonical(Start(p) - rhs * Size(p.size)))
    ensures WellFormed(p) && r.Ok? ==> Start(r.value) + rhs * Size(p.size) == Start(p) && WellFormed(r.value)
  {
    match Scale(rhs, p.size)
    case Err(e) => Err(e)
    case Ok(delta) =>
      match SubAddr(p.startAddress, delta)
      case Err(e) => Err(e)
      case Ok(a) =>
        var q := ContainingAddress(a, p.size);
        AlignedUnshift(Start(p), delta, Size(p.size));
        ContainingOfAligned(a, p.size);
        Ok(q)
  }

  /** An aligned address is the start of its own page. */
  lemma ContainingOfAligned(a: VirtAddrs.VirtAddr, s: PageSize)
    ensures a.value % Size(s) == 0 ==> ContainingAddress(a, s) == Page(a, s)
  {
    if a.value % Size(s) == 0 {
      NextMultiple(Start(ContainingAddress(a, s)), a.value, Size(s));
    }
  }

  /** Moving an aligned address by a multiple of the size keeps it
      aligned. */
  lemma AlignedShift(x: nat, d: nat, n: nat)
    requires n > 0 && d % n == 0
    ensures x % n == 0 ==> (x + d) % n == 0
  {
    DivModOf(x / n, n, 0);
    DivModOf(d / n, n, 0);
    assert x % n == 0 ==> x + d == (x / n + d / n) * n;
    DivModOf(x / n + d / n, n, 0);
  }

  lemma AlignedUnshift(x: nat, d: nat, n: nat)
    requires n > 0 && d % n == 0 && d <= x
    ensures x % n == 0 ==> (x - d) % n == 0
  {
    if x % n == 0 {
      AlignedDifference(x, d, n);
      DivModOf((x - d) / n, n, 0);
    }
  }

  /** `Page - Page`: the number of pages between two pages of one size;
      the address difference underflows when `rhs` lies above `p`. */
  function Difference(p: Page, rhs: Page): (r: Result<u64, string>)
    requires p.size == rhs.size
    ensures r.Ok? <==> Start(rhs) <= Start(p)
    ensures WellFormed(p) && WellFormed(rhs) && r.Ok? ==> r.value * Size(p.size) == Start(p) - Start(rhs)
  {
    if Start(rhs) > Start(p) then Err(SUB_OVERFLOW)
    else
      var d := Start(p) - Start(rhs);
      AlignedDifference(Start(p), Start(rhs), Size(p.size));
      Ok(d / Size(p.size))
  }

  lemma AlignedDifference(x: nat, y: nat, n: nat)
    requires n > 0 && y <= x
    ensures x % n == 0 && y % n == 0 ==> ((x - y) / n) * n == x - y
  {
    if x % n != 0 || y % n != 0 {
      return;
    }
    DivModOf(x / n, n, 0);
    DivModOf(y / n, n, 0);
    if x / n < y / n {
      MulMono(x / n + 1, y / n, n);
    }
    assert x - y == (x / n - y / n) * n;
    DivModOf(x / n - y / n, n, 0);
  }

  /** Adding `k` pages and taking the difference gives back `k`; stepping
      back by `k` pages gives back the page. */
  lemma AddThenDifference(p: Page, k: u64)
    requires WellFormed(p) && AddPages(p, k).Ok?
    ensures Difference(AddPages(p, k).value, p) == Ok(k)
    ensures SubPages(AddPages(p, k).value, k) == Ok(p)
  {
    var q := AddPages(p, k).value;
    var d := Difference(q, p).value;
    MulCancel(d, k, Size(p.size));
  }

  lemma MulCancel(a: nat, b: nat, n: nat)
    requires n > 0 && a * n == b * n
    ensures a == b
  {
    if a < b {
      MulMono(a + 1, b, n);
    } else if a > b {
      MulMono(b + 1, a, n);
    }
  }

  /** `PageRange`: `start` up to, not including, `end`. */
  datatype PageRange = PageRange(start: Page, end: Page)

  /** `Iterator::next` for `PageRange`. */
  function RangeNext(r: PageRange): (n: Result<Option<(Page, PageRange)>, string>)
    ensures Start(r.start) >= Start(r.end) ==> n == Ok(None)
    ensures n.Ok? && n.value.Some? ==>
              && n.value.value.0 == r.start
              && n.value.value.1.end == r.end
              && Start(n.value.value.1.start) > Start(r.start)
              && Start(r.start) < Start(r.end)
  {
    if Start(r.start) < Start(r.end) then
      match AddPages(r.start, 1)
      case Err(e) => Err(e)
      case Ok(next) => Ok(Some((r.start, PageRange(next, r.end))))
    else Ok(None)
  }

  /** Everything the range yields, or the panic that stops it. */
  function RangeCollect(r: PageRange): Result<seq<Page>, string>
    decreases if Start(r.start) < Start(r.end) then Start(r.end) - Start(r.start) else 0
  {
    match RangeNext(r)
    case Err(e) => Err(e)
    case Ok(None) => Ok([])
    case Ok(Some((p, rest))) =>
      match RangeCollect(rest)
      case Err(e) => Err(e)
      case Ok(ps) => Ok([p] + ps)
  }

  /** Pages of one size, each one page above the one before. */
  predicate Consecutive(ps: seq<Page>, s: PageSize)
  {
    && (forall k :: 0 <= k < |ps| ==> WellFormed(ps[k]) && ps[k].size == s)
    && (forall k :: 0 < k < |ps| ==> Start(ps[k]) == Start(ps[k - 1]) + Size(s))
  }

  /** Within one half of the address space, a range of well-formed pages
      yields every page from `start` up to `end`, ascending and with `end`
      excluded. */
  lemma {:induction false} RangeCollectIsRange(r: PageRange)
    requires WellFormed(r.start) && WellFormed(r.end) && r.start.size == r.end.size
    requires Start(r.end) < Pages.LOWER_HALF_END || Start(r.start) >= Pages.HIGHER_HALF_START
    ensures RangeCollect(r).Ok?
    ensures var ps := RangeCollect(r).value;
            && (ps == [] <==> Start(r.start) >= Start(r.end))
            && (ps != [] ==> ps[0] == r.start && Start(ps[|ps| - 1]) + Size(r.start.size) == Start(r.end))
            && Consecutive(ps, r.start.size)
    decreases if Start(r.start) < Start(r.end) then Start(r.end) - Start(r.start) else 0
  {
    var n := Size(r.start.size);
    if Start(r.start) < Start(r.end) {
      NextMultiple(Start(r.start), Start(r.end), n);
      assert AddPages(r.start, 1).Ok?;
      var next := AddPages(r.start, 1).value;
      var rest := PageRange(next, r.end);
      assert RangeNext(r) == Ok(Some((r.start, rest)));
      RangeCollectIsRange(rest);
      var tail := RangeCollect(rest).value;
      var ps := RangeCollect(r).value;
      assert ps == [r.start] + tail;
      assert tail != [] ==> tail[0] == next;
    }
  }

  /** `PageRangeInclusive`: `start` up to and including `end`. */
  datatype PageRangeInclusive = PageRangeInclusive(start: Page, end: Page)

  /** `PageRangeInclusive::is_empty`. */
  predicate IsEmpty(r: PageRangeInclusive)
  {
    Start(r.start) > Start(r.end)
  }

  /** `VirtAddr::new(u64::MAX) - (SIZE - 1)`: the start of the topmost page
      of the given size. */
  function MaxPageAddr(s: PageSize): (r: Result<VirtAddrs.VirtAddr, string>)
    ensures r.Ok? && r.value.value + Size(s) == TWO_64
    ensures r.value.value % Size(s) == 0
  {
    var top := VirtAddrs.New(TWO_64 - 1);
    assert Pages.Canonical(TWO_64 - 1);
    AlignedUnshift(TWO_64, Size(s), Size(s));
    DivModOf(1, Size(s), 0);
    SubAddr(top.value, Size(s) - 1)
  }

  /** How many more pages the inclusive range yields at most, plus one. */
  function Measure(r: PageRangeInclusive): nat
  {
    if Start(r.start) <= Start(r.end) then Start(r.end) - Start(r.start) + 1 else 0
  }

  /** `Iterator::next` for `PageRangeInclusive`. Below the topmost page
      `start` moves up; at the topmost page, where that would overflow,
      `end` moves down instead. */
  function InclusiveNext(r: PageRangeInclusive): (n: Result<Option<(Page, PageRangeInclusive)>, string>)
    ensures IsEmpty(r) ==> n == Ok(None)
    ensures n.Ok? && n.value.Some? ==>
              n.value.value.0 == r.start && Measure(n.value.value.1) < Measure(r)
  {
    if Start(r.start) <= Start(r.end) then
      var max := MaxPageAddr(r.start.size).value;
      if Start(r.start) < max.value then
        match AddPages(r.start, 1)
        case Err(e) => Err(e)
        case Ok(next) => Ok(Some((r.start, PageRangeInclusive(next, r.end))))
      else
        match SubPages(r.end, 1)
        case Err(e) => Err(e)
        case Ok(prev) => Ok(Some((r.start, PageRangeInclusive(r.start, prev))))
    else Ok(None)
  }

  /** The ranges the inclusive iterator handles without a panic: pages of
      one size in one half of the address space; a lower-half range must
      also leave room for the step past its end. */
  predicate InclusiveSafe(r: PageRangeInclusive)
  {
    && WellFormed(r.start) && WellFormed(r.end) && r.start.size == r.end.size
    && (Start(r.end) + Size(r.end.size) < Pages.LOWER_HALF_END || Start(r.start) >= Pages.HIGHER_HALF_START)
  }

  /** One step of a non-empty safe inclusive range: it yields `start`;
      below the end, `start` moves up one page; at the end, including at
      the topmost page, what is left is empty. */
  lemma InclusiveStep(r: PageRangeInclusive)
    requires InclusiveSafe(r) && !IsEmpty(r)
    ensures InclusiveNext(r).Ok? && InclusiveNext(r).value.Some?
    ensures var rest := InclusiveNext(r).value.value.1;
            && InclusiveSafe(rest) && rest.start.size == r.start.size
            && (Start(r.start) < Start(r.end) ==>
                  rest.end == r.end && Start(rest.start) == Start(r.start) + Size(r.start.size) && !IsEmpty(rest))
            && (Start(r.start) == Start(r.end) ==> IsEmpty(rest))
  {
    var n := Size(r.start.size);
    var max := MaxPageAddr(r.start.size).value;
    NextMultiple(max.value, Start(r.start), n);
    NextMultiple(max.value, Start(r.end), n);
    NextMultiple(Start(r.start), Start(r.end), n);
    if Start(r.start) < max.value {
      assert AddPages(r.start, 1).Ok?;
    } else {
      assert SubPages(r.end, 1).Ok?;
    }
  }

  /** `is_empty` holds exactly when a safe range has nothing left. */
  lemma IsEmptyIffExhausted(r: PageRangeInclusive)
    requires InclusiveSafe(r)
    ensures IsEmpty(r) <==> InclusiveNext(r) == Ok(None)
  {
    if !IsEmpty(r) {
      InclusiveStep(r);
    }
  }

  /** Everything the inclusive range yields, or the panic that stops it. */
  function InclusiveCollect(r: PageRangeInclusive): Result<seq<Page>, string>
    decreases Measure(r)
  {
    match InclusiveNext(r)
    case Err(e) => Err(e)
    case Ok(None) => Ok([])
    case Ok(Some((p, rest))) =>
      match InclusiveCollect(rest)
      case Err(e) => Err(e)
      case Ok(ps) => Ok([p] + ps)
  }

  /** A safe inclusive range yields every page from `start` to `end`,
      ascending, including a range that ends at the topmost page. */
  lemma {:induction false} InclusiveCollectIsRange(r: PageRangeInclusive)
    requires InclusiveSafe(r)
    ensures InclusiveCollect(r).Ok?
    ensures var ps := InclusiveCollect(r).value;
            && (ps == [] <==> IsEmpty(r))
            && (ps != [] ==> ps[0] == r.start && Start(ps[|ps| - 1]) == Start(r.end))
            && Consecutive(ps, r.start.size)
    decreases Measure(r)
  {
    if !IsEmpty(r) {
      InclusiveStep(r);
      var rest := InclusiveNext(r).value.value.1;
      InclusiveCollectIsRange(rest);
      var tail := InclusiveCollect(rest).value;
      var ps := InclusiveCollect(r).value;
      assert ps == [r.start] + tail;
    }
  }

  /** The topmost page on its own: the iterator yields it once and then
      stops, without overflowing. */
  lemma TopmostPageOnce(s: PageSize)
    ensures var top := Page(MaxPageAddr(s).value, s);
            && WellFormed(top)
            && InclusiveCollect(PageRangeInclusive(top, top)) == Ok([top])
  {
    var top := Page(MaxPageAddr(s).value, s);
    var r := PageRangeInclusive(top, top);
    InclusiveStep(r);
    var rest := InclusiveNext(r).value.value.1;
    assert InclusiveNext(r) == Ok(Some((top, rest)));
    assert InclusiveNext(rest) == Ok(None);
    assert InclusiveCollect(rest) == Ok([]);
    assert InclusiveCollect(r) == Ok([top] + []);
    assert [top] + [] == [top];
  }
}
