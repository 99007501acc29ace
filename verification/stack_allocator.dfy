/** The kernel stack allocator of v1/src/memory/stack_allocator.rs: stacks
    are carved from a range of pages, each preceded by an unmapped guard
    page, and their pages are mapped writable through the active table. */
module StackAllocators {
  import opened Base
  import opened Frames
  import opened Entries
  import opened Tables
  import Pages
  import FrameAllocators
  import Mapper

  /** A stack: `top` is one past its highest byte, `bottom` its lowest. */
  datatype Stack = Stack(top: nat, bottom: nat)

  /** `Stack::new`: the top must lie above the bottom. */
  function NewStack(top: nat, bottom: nat): (r: Result<Stack, string>)
    ensures r.Ok? <==> top > bottom
    ensures r.Ok? ==> r.value.top == top && r.value.bottom == bottom
  {
    if top > bottom then Ok(Stack(top, bottom)) else Err("assertion failed: top > bottom")
  }

  datatype StackAllocator = StackAllocator(range: Pages.PageIter)

  /** The loop of `alloc_stack`: `map` each page writable, in order. */
  function MapPages(mem: Memory, root: Frame, pages: seq<Pages.Page>, alloc: FrameAllocators.FrameSource)
    : (r: Result<(Memory, FrameAllocators.FrameSource), string>)
    requires FrameAllocators.Valid(alloc)
    ensures r.Ok? ==> FrameAllocators.Valid(r.value.1)
    ensures pages == [] ==> r == Ok((mem, alloc))
    decreases |pages|
  {
    if pages == [] then Ok((mem, alloc))
    else
      WritableFlags();
      match Mapper.Map(mem, root, pages[0], WRITABLE, alloc)
      case Err(e) => Err(e)
      case Ok(m) => MapPages(m.mem, root, pages[1..], m.alloc)
  }

  lemma WritableFlags()
    ensures ValidFlags(WRITABLE)
  {
    Mapper.PresentWritable();
  }

  /** `start_address` of a page, with the debug-build overflow check. */
  function PageStart(p: Pages.Page): (r: Result<nat, string>)
    ensures r.Ok? <==> Pages.StartAddress(p) < TWO_64
    ensures r.Ok? ==> r.value == Pages.StartAddress(p)
  {
    var a := p.number * PAGE_SIZE;
    if a >= TWO_64 then Err(MUL_OVERFLOW) else Ok(a)
  }

  /** What a call to `alloc_stack` returns and leaves behind. */
  datatype StackResult = StackResult(stack: Option<Stack>, allocator: StackAllocator,
                                     mem: Memory, alloc: FrameAllocators.FrameSource)

  /** The pages of the stack: the `size` pages after the guard page. */
  function StackPages(range: Pages.PageIter, size: nat): seq<Pages.Page>
  {
    Pages.Collect(Pages.PageIter(Pages.Page(range.start.number + 1), Pages.Page(range.start.number + size)))
  }

  /** The range walk of `alloc_stack` on a copy of the range: the guard
      page, the stack's first page, and its last page (`nth(size - 2)`
      past the first, or the first itself for a one-page stack). Yields
      the first and last page and what is left of the range. */
  function Locate(range: Pages.PageIter, size: nat): (r: Option<(Pages.Page, Pages.Page, Pages.PageIter)>)
    requires size > 0
    ensures r.None? <==> Pages.Remaining(range) <= size
    ensures r.Some? ==>
              && r.value.0 == Pages.Page(range.start.number + 1)
              && r.value.1 == Pages.Page(range.start.number + size)
              && r.value.2 == Pages.PageIter(Pages.Page(range.start.number + size + 1), range.end)
  {
    match Pages.Next(range)
    case None => None
    case Some((guard, r1)) =>
      match Pages.Next(r1)
      case None => None
      case Some((first, r2)) =>
        if size == 1 then Some((first, first, r2))
        else
          match Pages.Nth(r2, size - 2)
          case None => None
          case Some((end, rest)) => Some((first, end, rest))
  }

  /** `StackAllocator::alloc_stack`. The guard page and the stack's pages
      are taken from a copy of the range, which replaces the original only
      when all of them were there. */
  function AllocStack(sa: StackAllocator, mem: Memory, root: Frame, alloc: FrameAllocators.FrameSource, size: u64)
    : (r: Result<StackResult, string>)
    requires FrameAllocators.Valid(alloc)
    ensures size == 0 ==> r == Ok(StackResult(None, sa, mem, alloc))
    ensures Pages.Remaining(sa.range) <= size ==> r == Ok(StackResult(None, sa, mem, alloc))
    ensures size > 0 && Pages.Remaining(sa.range) > size ==> r.Err? || r.value.stack.Some?
    ensures r.Ok? && r.value.stack.Some? ==>
              && r.value.stack.value.top - r.value.stack.value.bottom == size * PAGE_SIZE
              && r.value.stack.value.bottom == Pages.StartAddress(sa.range.start) + PAGE_SIZE
              && r.value.allocator.range ==
                 Pages.PageIter(Pages.Page(sa.range.start.number + size + 1), sa.range.end)
              && MapPages(mem, root, StackPages(sa.range, size), alloc) == Ok((r.value.mem, r.value.alloc))
    ensures r.Ok? ==> FrameAllocators.Valid(r.value.alloc)
  {
    if size == 0 then Ok(StackResult(None, sa, mem, alloc))
    else
      match Locate(sa.range, size)
      case None => Ok(StackResult(None, sa, mem, alloc))
      case Some((first, end, rest)) =>
        PagesSpan(sa.range.start.number, size);
        StackFrom(mem, root, alloc, first, end, StackAllocator(rest))
  }

  /** The tail of `alloc_stack` once the range held the pages `first` to
      `end`: map them, then build the stack from their addresses. */
  function StackFrom(mem: Memory, root: Frame, alloc: FrameAllocators.FrameSource,
                     first: Pages.Page, end: Pages.Page, rest: StackAllocator)
    : (r: Result<StackResult, string>)
    requires FrameAllocators.Valid(alloc) && first.number <= end.number
    ensures r.Ok? ==>
              && r.value.stack.Some?
              && r.value.stack.value.top - r.value.stack.value.bottom
                 == (end.number + 1 - first.number) * PAGE_SIZE
              && r.value.stack.value.bottom == Pages.StartAddress(first)
              && r.value.allocator == rest
              && MapPages(mem, root, Pages.Collect(Pages.PageIter(first, end)), alloc)
                 == Ok((r.value.mem, r.value.alloc))
              && FrameAllocators.Valid(r.value.alloc)
  {
    match MapPages(mem, root, Pages.Collect(Pages.PageIter(first, end)), alloc)
    case Err(e) => Err(e)
    case Ok((mem', alloc')) =>
      match PageStart(end)
      case Err(e) => Err(e)
      case Ok(endAddress) =>
        if endAddress + PAGE_SIZE >= TWO_64 then Err(ADD_OVERFLOW)
        else
          match PageStart(first)
          case Err(e) => Err(e)
          case Ok(bottom) =>
            match NewStack(endAddress + PAGE_SIZE, bottom)
            case Err(e) => Err(e)
            case Ok(stack) => Ok(StackResult(Some(stack), rest, mem', alloc'))
  }

  lemma PagesSpan(start: nat, size: nat)
    requires size > 0
    ensures (start + size + 1 - (start + 1)) * PAGE_SIZE == size * PAGE_SIZE
    ensures (start + 1) * PAGE_SIZE == start * PAGE_SIZE + PAGE_SIZE
  {
  }

  /** The guard page is not among the pages `alloc_stack` maps; those are
      exactly the `size` pages after it, in ascending order. */
  lemma GuardNotMapped(range: Pages.PageIter, size: nat)
    ensures |StackPages(range, size)| == size
    ensures forall k :: 0 <= k < size ==> StackPages(range, size)[k].number == range.start.number + 1 + k
    ensures range.start !in StackPages(range, size)
  {
    Pages.CollectIsRange(Pages.PageIter(Pages.Page(range.start.number + 1), Pages.Page(range.start.number + size)));
  }

  /** A stack allocated after another from the advanced range lies above
      it, with a guard page in between: successive stacks are disjoint. */
  lemma SuccessiveStacksDisjoint(sa: StackAllocator, mem: Memory, root: Frame,
                                 alloc: FrameAllocators.FrameSource, size1: u64, size2: u64)
    requires FrameAllocators.Valid(alloc)
    requires AllocStack(sa, mem, root, alloc, size1).Ok?
    requires AllocStack(sa, mem, root, alloc, size1).value.stack.Some?
    ensures var r1 := AllocStack(sa, mem, root, alloc, size1).value;
            var r2 := AllocStack(r1.allocator, r1.mem, root, r1.alloc, size2);
            r2.Ok? && r2.value.stack.Some? ==>
              r2.value.stack.value.bottom == r1.stack.value.top + PAGE_SIZE
  {
  }
}
