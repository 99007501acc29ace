/** `TemporaryPage` (v1/src/memory/paging/temporary_page.rs): one virtual
    page, mapped on demand to an arbitrary frame so that the frame can be
    edited, with its own three-frame allocator for the tables the mapping
    may need. */
module TemporaryPages {
  import opened Base
  import opened Frames
  import opened Entries
  import opened Tables
  import Pages
  import FrameAllocators
  import Mapper

  datatype TemporaryPage = TemporaryPage(page: Pages.Page, allocator: FrameAllocators.TinyAllocator)

  predicate Valid(t: TemporaryPage)
  {
    FrameAllocators.WellSized(t.allocator)
  }

  /** `TemporaryPage::new`: the page and a tiny allocator filled from
      `parent`. */
  function New(page: Pages.Page, parent: FrameAllocators.FrameSource): (r: (TemporaryPage, FrameAllocators.FrameSource))
    requires FrameAllocators.Valid(parent)
    ensures Valid(r.0) && FrameAllocators.Valid(r.1) && r.0.page == page
    ensures r.0.allocator == FrameAllocators.TinyNew(parent).0
  {
    var (tiny, parent') := FrameAllocators.TinyNew(parent);
    (TemporaryPage(page, tiny), parent')
  }

  /** The result of `TemporaryPage::map`: memory afterwards, the page's
      state, the page's start address, and the `map_to` record. */
  datatype TempMapped = TempMapped(mem: Memory, temp: TemporaryPage, address: u64, mapping: Mapper.Mapped)

  /** `TemporaryPage::map` (and `map_table_frame`, which only reinterprets
      the returned address): the page must not be mapped yet; it is mapped
      writable to `frame`, taking tables from the page's own allocator. */
  function Map(t: TemporaryPage, frame: Frame, mem: Memory, root: Frame): (r: Result<TempMapped, string>)
    requires Valid(t)
    ensures Mapper.TranslatePage(mem, root, t.page).Ok? && Mapper.TranslatePage(mem, root, t.page).value.Some? ==>
              r == Err("temporary page is already mapped")
    ensures r.Ok? ==> Valid(r.value.temp) && r.value.temp.page == t.page
    ensures r.Ok? ==> r.value.address == Pages.StartAddress(t.page)
  {
    match Mapper.TranslatePage(mem, root, t.page)
    case Err(e) => Err(e)
    case Ok(Some(_)) => Err("temporary page is already mapped")
    case Ok(None) =>
      WritableValid();
      match Mapper.MapTo(mem, root, t.page, frame, WRITABLE, FrameAllocators.Tiny(t.allocator))
      case Err(e) => Err(e)
      case Ok(m) =>
        var start := Pages.StartAddress(t.page);
        if start >= TWO_64 then Err(MUL_OVERFLOW)
        else Ok(TempMapped(m.mem, TemporaryPage(t.page, m.alloc.tiny), start, m))
  }

  lemma WritableValid()
    ensures ValidFlags(WRITABLE)
  {
    Mapper.PresentWritable();
  }

  /** After `map` the temporary page translates to the frame it was given,
      as long as the tables created for it were new. */
  lemma MapTranslates(t: TemporaryPage, frame: Frame, mem: Memory, root: Frame)
    requires Valid(t)
    requires Map(t, frame, mem, root).Ok?
    requires Mapper.FreshTables(root, Map(t, frame, mem, root).value.mapping)
    ensures Mapper.TranslatePage(Map(t, frame, mem, root).value.mem, root, t.page) == Ok(Some(frame))
  {
    WritableValid();
    Mapper.MapToTranslate(mem, root, t.page, frame, WRITABLE, FrameAllocators.Tiny(t.allocator));
  }

  /** `TemporaryPage::unmap`. */
  function Unmap(t: TemporaryPage, mem: Memory, root: Frame): (r: Result<Memory, string>)
    ensures r.Ok? ==> Mapper.TranslatePage(r.value, root, t.page) == Ok(None)
    ensures r.Ok? ==> Mapper.TranslatePage(mem, root, t.page).Ok? && Mapper.TranslatePage(mem, root, t.page).value.Some?
  {
    Mapper.Unmap(mem, root, t.page)
  }

  /** Mapping and then unmapping the temporary page leaves it unmapped and
      ready for the next use. */
  lemma MapThenUnmap(t: TemporaryPage, frame: Frame, mem: Memory, root: Frame)
    requires Valid(t) && Pages.StartAddress(t.page) < TWO_64 && Pages.Canonical(Pages.StartAddress(t.page))
    requires Map(t, frame, mem, root).Ok?
    requires Mapper.FreshTables(root, Map(t, frame, mem, root).value.mapping)
    ensures var m := Map(t, frame, mem, root).value;
            Unmap(m.temp, m.mem, root).Ok? &&
            Mapper.TranslatePage(Unmap(m.temp, m.mem, root).value, root, t.page) == Ok(None)
  {
    WritableValid();
    Mapper.MapToThenUnmap(mem, root, t.page, frame, WRITABLE, FrameAllocators.Tiny(t.allocator));
  }
}
