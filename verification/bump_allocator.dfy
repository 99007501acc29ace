/** The bump heap allocator, identical in v1/src/memory/heap_allocator.rs
    and v2/src/allocator/bump.rs apart from construction: `next` moves up
    through `[heap_start, heap_end)`, each allocation is counted, the last
    free resets the heap and freeing the most recent block rolls `next`
    back. Pointers are `usize` values; the null pointer is 0. */
module BumpAllocators {
  import opened Base
  import opened Bits

  /** `align_up`: round `addr` up to a multiple of `align` by masking. The
      addition `addr + align` is checked, as in a debug build; `align` is at
      least 1, as every `Layout` alignment is. */
  function AlignUp(addr: u64, align: u64): (r: Result<u64, string>)
    requires align >= 1
    ensures r.Err? <==> addr + align >= TWO_64
    ensures r.Ok? ==> r.value <= addr + align - 1
  {
    if addr + align >= TWO_64 then Err(ADD_OVERFLOW)
    else
      AndAtMost(addr + align - 1, TWO_64 - align);
      Ok(And(addr + align - 1, TWO_64 - align))
  }

  /** The mask in `align_up` is `!(align - 1)` on a 64-bit word. */
  lemma AlignUpMask(align: u64)
    requires align >= 1
    ensures align - 1 < Pow2(64) && TWO_64 - align == Not(align - 1, 64)
  {
    WordWidth();
  }

  /** For a power-of-two alignment `align_up` gives the least multiple of
      `align` at or above `addr`. */
  lemma AlignUpPow2(addr: u64, k: nat)
    requires k < 64 && addr + Pow2(k) < TWO_64
    ensures Pow2(k) < TWO_64
    ensures AlignUp(addr, Pow2(k)).Ok?
    ensures var r := AlignUp(addr, Pow2(k)).value;
            r % Pow2(k) == 0 && addr <= r < addr + Pow2(k)
  {
    WordWidth();
    var a := Pow2(k);
    var y := addr + a - 1;
    AlignUpMask(a);
    assert AlignUp(addr, a) == Ok(And(y, Not(a - 1, 64)));
    AlignDownMask(y, k);
    RoundDown(y, a);
  }

  /** Rounding down to a multiple of `a` loses less than `a`. */
  lemma RoundDown(y: nat, a: nat)
    requires a > 0
    ensures ((y / a) * a) % a == 0 && y < (y / a) * a + a && (y / a) * a <= y
  {
    DivModOf(y / a, a, 0);
  }

  /** `Layout`: a size and a power-of-two alignment, stored here by its
      exponent. */
  datatype Layout = Layout(size: u64, alignExp: nat)

  predicate LayoutValid(l: Layout)
  {
    l.alignExp < 64
  }

  function Align(l: Layout): (a: u64)
    requires LayoutValid(l)
    ensures a >= 1
  {
    WordWidth();
    Pow2Mono(l.alignExp, 63);
    Pow2(l.alignExp)
  }

  datatype BumpAllocator = BumpAllocator(heapStart: u64, heapEnd: u64, next: u64, allocations: u64)

  /** `heap_start <= next <= heap_end`. */
  predicate Inv(b: BumpAllocator)
  {
    b.heapStart <= b.next <= b.heapEnd
  }

  /** v1 `BumpAllocator::new(heap_start, heap_end)`. */
  function New(heapStart: u64, heapEnd: u64): (b: BumpAllocator)
    ensures b.next == heapStart && b.allocations == 0
    ensures b.heapStart == heapStart && b.heapEnd == heapEnd
    ensures heapStart <= heapEnd ==> Inv(b)
  {
    BumpAllocator(heapStart, heapEnd, heapStart, 0)
  }

  /** v2 `BumpAllocator::new()`: an empty heap at address 0. */
  function Empty(): (b: BumpAllocator)
    ensures Inv(b) && b.heapEnd == b.heapStart && b.allocations == 0
  {
    BumpAllocator(0, 0, 0, 0)
  }

  /** v2 `BumpAllocator::init`: the heap is `[heap_start, heap_start +
      heap_size)`; the end is a checked addition. The allocation count is
      left as it was. */
  function Init(b: BumpAllocator, heapStart: u64, heapSize: u64): (r: Result<BumpAllocator, string>)
    ensures r.Err? <==> heapStart + heapSize >= TWO_64
    ensures r.Ok? ==> Inv(r.value) && r.value.next == heapStart && r.value.heapStart == heapStart
    ensures r.Ok? ==> r.value.heapEnd - r.value.heapStart == heapSize
    ensures r.Ok? ==> r.value.allocations == b.allocations
  {
    if heapStart + heapSize >= TWO_64 then Err(ADD_OVERFLOW)
    else Ok(BumpAllocator(heapStart, heapStart + heapSize, heapStart, b.allocations))
  }

  /** `GlobalAlloc::alloc`: the pointer (0 for null) and the new state. An
      abort is the debug-build overflow of `align_up` or of the allocation
      count. */
  function Alloc(b: BumpAllocator, l: Layout): (r: Result<(u64, BumpAllocator), string>)
    requires LayoutValid(l)
    ensures r.Err? <==>
              || AlignUp(b.next, Align(l)).Err?
              || (AlignUp(b.next, Align(l)).value + l.size <= b.heapEnd && b.allocations + 1 >= TWO_64)
    ensures r.Ok? ==> (r.value.1 == b <==> AlignUp(b.next, Align(l)).value + l.size > b.heapEnd)
    ensures r.Ok? && r.value.1 == b ==> r.value.0 == 0
    ensures r.Ok? && r.value.1 != b ==>
              && r.value.0 == AlignUp(b.next, Align(l)).value
              && r.value.0 % Align(l) == 0 && b.next <= r.value.0
              && r.value.1.next == r.value.0 + l.size <= b.heapEnd
              && r.value.1.allocations == b.allocations + 1
              && r.value.1.heapStart == b.heapStart && r.value.1.heapEnd == b.heapEnd
  {
    match AlignUp(b.next, Align(l))
    case Err(e) => Err(e)
    case Ok(start) =>
      AlignUpPow2(b.next, l.alignExp);
      if start + l.size >= TWO_64 then Ok((0, b))
      else if start + l.size > b.heapEnd then Ok((0, b))
      else if b.allocations + 1 >= TWO_64 then Err(ADD_OVERFLOW)
      else Ok((start, b.(next := start + l.size, allocations := b.allocations + 1)))
  }

  /** `GlobalAlloc::dealloc`: the count drops (a free with none outstanding
      underflows); the last free resets `next`, and freeing the block that
      ends at `next` rolls `next` back to its start.  With other blocks
      outstanding, `next - size` underflows when the layout is larger than
      `next`. */
  function Dealloc(b: BumpAllocator, ptr: u64, l: Layout): (r: Result<BumpAllocator, string>)
    ensures r.Err? <==> b.allocations == 0 || (b.allocations > 1 && b.next < l.size)
    ensures r.Ok? ==> r.value.allocations == b.allocations - 1
    ensures r.Ok? ==> r.value.heapStart == b.heapStart && r.value.heapEnd == b.heapEnd
    ensures r.Ok? && b.allocations == 1 ==> r.value.next == b.heapStart
    ensures r.Ok? && b.allocations > 1 ==>
              r.value.next == (if b.next - l.size == ptr then ptr else b.next)
  {
    if b.allocations == 0 then Err(SUB_OVERFLOW)
    else
      var b' := b.(allocations := b.allocations - 1);
      if b'.allocations == 0 then Ok(b'.(next := b.heapStart))
      else if b.next < l.size then Err(SUB_OVERFLOW)
      else if b.next - l.size == ptr then Ok(b'.(next := ptr))
      else Ok(b')
  }

  /** `alloc` keeps `next` inside the heap; the null result changes
      nothing. */
  lemma AllocKeepsInv(b: BumpAllocator, l: Layout)
    requires Inv(b) && LayoutValid(l)
    ensures Alloc(b, l).Ok? ==> Inv(Alloc(b, l).value.1)
  {
  }

  /** So does `dealloc` of a pointer inside the heap, as the `GlobalAlloc`
      contract (the block came from this allocator) guarantees. */
  lemma DeallocKeepsInv(b: BumpAllocator, ptr: u64, l: Layout)
    requires Inv(b) && b.heapStart <= ptr
    ensures Dealloc(b, ptr, l).Ok? ==> Inv(Dealloc(b, ptr, l).value)
  {
  }

  /** Freeing the block just allocated rolls `next` back to the block's
      start when other blocks are outstanding, and resets the heap when it
      was the only one. */
  lemma AllocThenDealloc(b: BumpAllocator, l: Layout)
    requires Inv(b) && LayoutValid(l)
    requires Alloc(b, l).Ok? && Alloc(b, l).value.1 != b
    ensures var (p, b') := Alloc(b, l).value;
            && Dealloc(b', p, l).Ok?
            && Dealloc(b', p, l).value.allocations == b.allocations
            && Dealloc(b', p, l).value.next == (if b.allocations == 0 then b.heapStart else p)
  {
  }
}
