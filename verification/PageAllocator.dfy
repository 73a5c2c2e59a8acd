/** The paged backing as an allocator: map and unmap on the page table. */
module PageAllocator {
  import opened Cells
  import opened Memories

  /** Pages for a buffer of so many bytes, with the wrap of the rounding sum. */
  function PageSpan(bytes: Cell): (n: nat)
    ensures n < 32
  {
    PageIndex(Wrap(bytes + 0x7FF_FFFF_FFFF_FFFF))
  }

  /** A buffer of at most one page, as map counts it. */
  lemma OnePageSpan(bytes: Cell)
    requires 0 < bytes <= 0x800_0000_0000_0000
    ensures PageSpan(bytes) == 1
  {
  }

  // ----- the search for a run of free pages -----

  /** The source's scan: it answers the last page of the first run that is long enough. */
  function Scan(pages: Pages, count: nat, index: nat, row: nat): (r: Option<nat>)
    requires index < 32
    ensures r.Some? ==> index <= r.value < 32
    decreases 32 - index
  {
    var row' := if pages[index].buf.Some? then 0 else row + 1;
    if row' == count then Some(index)
    else if index + 1 < 32 then Scan(pages, count, index + 1, row')
    else None
  }

  predicate FreeFrom(pages: Pages, from: int, to: int)
    requires 0 <= from && to <= 32
  {
    forall j :: from <= j < to ==> pages[j].buf.None?
  }

  /** row free pages end just before index, and the page before them is used. */
  ghost predicate RowEnds(pages: Pages, index: nat, row: nat)
    requires index <= 32
  {
    && row <= index && FreeFrom(pages, index - row, index)
    && (row < index ==> pages[index - row - 1].buf.Some?)
  }

  /** The count pages before page k are free. */
  ghost predicate RunBefore(pages: Pages, count: nat, k: nat) {
    count <= k <= 32 && FreeFrom(pages, k - count, k)
  }

  /** The scan finds the first free run of count pages if there is one. */
  lemma {:induction false} ScanFinds(pages: Pages, count: nat, index: nat, row: nat)
    requires index < 32 && 0 < count && row < count && RowEnds(pages, index, row)
    requires forall k: nat :: k <= index ==> !RunBefore(pages, count, k)
    ensures var r := Scan(pages, count, index, row);
            && (r.Some? ==> RunBefore(pages, count, r.value + 1)
                            && forall k: nat :: k <= r.value ==> !RunBefore(pages, count, k))
            && (r.None? ==> forall k: nat :: !RunBefore(pages, count, k))
    decreases 32 - index
  {
    var row' := if pages[index].buf.Some? then 0 else row + 1;
    if row' < count {
      assert RowEnds(pages, index + 1, row');
      if count <= index + 1 {
        var u := index - row'; // a used page inside the count pages that end at index
        assert pages[u].buf.Some? && index + 1 - count <= u < index + 1;
      }
      assert !RunBefore(pages, count, index + 1);
      if index + 1 < 32 {
        ScanFinds(pages, count, index + 1, row');
      }
    } else {
      assert RowEnds(pages, index + 1, row');
      assert RunBefore(pages, count, index + 1);
    }
  }

  // ----- map and unmap -----

  /** Map either succeeds, finds no run, or writes past the end of the table. */
  datatype MapResult = Mapped(pages: Pages, va: Cell) | NoRoom | Overrun

  /** The entry for page i of a buffer. */
  function PageOf(buf: nat, bytes: Cell, i: nat): Mapping {
    Mapping(Some(buf + i * 0x100_0000_0000_0000), Wrap(bytes - i * 0x800_0000_0000_0000))
  }

  function Entries(buf: nat, bytes: Cell): nat -> Mapping {
    (i: nat) => PageOf(buf, bytes, i)
  }

  /** Pages index + i up to index + count take their entries, in turn. */
  function Write(pages: Pages, entries: nat -> Mapping, index: nat, i: nat, count: nat): Pages
    requires index + count <= 32
    decreases count - i
  {
    if i >= count then pages
    else Write(pages[index + i := entries(i)], entries, index, i + 1, count)
  }

  function MapTable(pages: Pages, buf: nat, size: Cell): MapResult {
    if size == 0 then Mapped(pages, 0xFFFF_FFFF_FFFF_FFF8)
    else MapPages(pages, buf, Wrap(8 * size), PageSpan(Wrap(8 * size)))
  }

  function MapPages(pages: Pages, buf: nat, bytes: Cell, count: nat): MapResult {
    var found := Scan(pages, count, 0, 0);
    if found.None? then NoRoom
    else if found.value + count > 32 then Overrun
    else Mapped(Write(pages, Entries(buf, bytes), found.value, 0, count), MakeVa(found.value, 0))
  }

  function NoEntries(): nat -> Mapping {
    (i: nat) => FREE_PAGE
  }

  /** None when unmap would write past the end of the table. */
  function UnmapTable(pages: Pages, va: Cell, size: Cell): Option<Pages> {
    var count := PageSpan(Wrap(8 * size));
    if PageIndex(va) + count > 32 then None else Some(Write(pages, NoEntries(), PageIndex(va), 0, count))
  }

  lemma {:induction false} WriteAt(pages: Pages, entries: nat -> Mapping, index: nat, i: nat, count: nat)
    requires index + count <= 32
    ensures var r := Write(pages, entries, index, i, count);
            forall j: nat :: j < 32 ==> r[j] == if index + i <= j < index + count then entries(j - index) else pages[j]
    decreases count - i
  {
    if i < count {
      var p := pages[index + i := entries(i)];
      WriteAt(p, entries, index, i + 1, count);
      var r := Write(p, entries, index, i + 1, count);
      forall j: nat | j < 32
        ensures r[j] == if index + i <= j < index + count then entries(j - index) else pages[j]
      {
        if j == index + i {
          assert j - index == i && r[j] == p[j] == entries(i);
        } else if index + i < j < index + count {
          assert p[j] == pages[j];
          assert r[j] == entries(j - index);
        } else {
          assert r[j] == p[j] == pages[j];
        }
      }
    }
  }

  class PagedBuffers {
    const mappings: array<Mapping>

    ghost predicate Valid()
      reads this
    {
      mappings.Length == 32
    }

    /** The page table as a value. */
    ghost function Table(): Pages
      reads this, mappings
      requires Valid()
    {
      mappings[..]
    }

    constructor ()
      ensures Valid() && fresh(mappings) && Table() == EmptyTable()
    {
      mappings := new Mapping[32](_ => FREE_PAGE);
    }

    /** Without inside the source has written past the end of the table, where the model stops. */
    method Map(buf: nat, size: Cell) returns (inside: bool, ok: bool, va: Cell)
      requires Valid()
      modifies mappings
      ensures inside <==> !MapTable(old(Table()), buf, size).Overrun?
      ensures inside ==> MapTable(old(Table()), buf, size) == if ok then Mapped(Table(), va) else NoRoom
      ensures inside && !ok ==> Table() == old(Table())
    {
      if size == 0 { return true, true, 0xFFFF_FFFF_FFFF_FFF8; }
      var bytes := Wrap(8 * size);
      inside, ok, va := MapCount(buf, bytes, PageSpan(bytes));
    }

    method MapCount(buf: nat, bytes: Cell, count: nat) returns (inside: bool, ok: bool, va: Cell)
      requires Valid()
      modifies mappings
      ensures inside <==> !MapPages(old(Table()), buf, bytes, count).Overrun?
      ensures inside ==> MapPages(old(Table()), buf, bytes, count) == if ok then Mapped(Table(), va) else NoRoom
      ensures inside && !ok ==> Table() == old(Table())
    {
      var index := FindRun(count);
      if index == 32 { return true, false, 0; }
      inside := WritePages(buf, bytes, index, count);
      ok, va := inside, MakeVa(index, 0);
    }

    method WritePages(buf: nat, bytes: Cell, index: nat, count: nat) returns (inside: bool)
      requires Valid() && index <= 32
      modifies mappings
      ensures inside <==> index + count <= 32
      ensures inside ==> Table() == Write(old(Table()), Entries(buf, bytes), index, 0, count)
    {
      var i := 0;
      ghost var before, entries := Table(), Entries(buf, bytes);
      while i < count
        invariant 0 <= i <= count && index + i <= 32
        invariant index + count <= 32 ==>
                    Write(before, entries, index, 0, count) == Write(Table(), entries, index, i, count)
      {
        if index + i == 32 { return false; }
        mappings[index + i] := PageOf(buf, bytes, i);
        i := i + 1;
      }
      return true;
    }

    /** The scan loop; 32 when there is no run. */
    method FindRun(count: nat) returns (index: nat)
      requires Valid()
      ensures var r := Scan(Table(), count, 0, 0);
              if r.Some? then index == r.value else index == 32
    {
      index := 0;
      var row := 0;
      while true
        invariant index < 32 && Scan(Table(), count, 0, 0) == Scan(Table(), count, index, row)
        decreases 32 - index
      {
        if mappings[index].buf.Some? { row := 0; } else { row := row + 1; }
        if row == count { return; }
        index := index + 1;
        if index == 32 { return; }
      }
    }

    method Unmap(va: Cell, size: Cell) returns (inside: bool)
      requires Valid()
      modifies mappings
      ensures UnmapTable(old(Table()), va, size) == if inside then Some(Table()) else None
    {
      inside := ClearPages(PageIndex(va), PageSpan(Wrap(8 * size)));
    }

    method ClearPages(index: nat, count: nat) returns (inside: bool)
      requires Valid() && index <= 32
      modifies mappings
      ensures inside <==> index + count <= 32
      ensures inside ==> Table() == Write(old(Table()), NoEntries(), index, 0, count)
    {
      var i := 0;
      ghost var before := Table();
      while i < count
        invariant 0 <= i <= count && index + i <= 32
        invariant index + count <= 32 ==>
                    Write(before, NoEntries(), index, 0, count) == Write(Table(), NoEntries(), index, i, count)
      {
        if index + i == 32 { return false; }
        mappings[index + i] := FREE_PAGE;
        i := i + 1;
      }
      return true;
    }
  }

  // ----- buffers of any number of pages -----

  /** Every page that was in use is as before. */
  ghost predicate KeepsUsed(pages: Pages, pages': Pages) {
    forall j :: 0 <= j < 32 && pages[j].buf.Some? ==> pages'[j] == pages[j]
  }

  /** The byte count plus the rounding does not wrap. */
  predicate Fits(size: Cell) {
    0 < 8 * size && 8 * size + 0x7FF_FFFF_FFFF_FFFF < 0x1_0000_0000_0000_0000
  }

  /** Mapping some buffer of this size succeeds inside the table and leaves every mapping in use alone. */
  ghost predicate Harmless(pages: Pages, buf: nat, size: Cell) {
    var r := MapTable(pages, buf, size);
    r.Mapped? && KeepsUsed(pages, r.pages)
  }

  lemma MapIs(pages: Pages, buf: nat, size: Cell)
    requires Fits(size)
    ensures var count := PageSpan(8 * size);
            var found := Scan(pages, count, 0, 0);
            MapTable(pages, buf, size) ==
            if found.None? then NoRoom
            else if found.value + count > 32 then Overrun
            else Mapped(Write(pages, Entries(buf, 8 * size), found.value, 0, count), MakeVa(found.value, 0))
  {
    assert Wrap(8 * size) == 8 * size;
  }

  lemma SpanPositive(size: Cell)
    requires Fits(size)
    ensures PageSpan(8 * size) > 0
  {
  }

  /** The count pages from index on are in the table and free. */
  ghost predicate FreeRun(pages: Pages, index: nat, count: nat) {
    index + count <= 32 && FreeFrom(pages, index, index + count)
  }

  /** The entries name their buffer's pages in order. */
  lemma EntryBuffer(buf: nat, bytes: Cell, i: nat)
    ensures Entries(buf, bytes)(i).buf == Some(buf + i * 0x100_0000_0000_0000)
  {
  }

  lemma HarmlessWrite(pages: Pages, buf: nat, size: Cell, index: nat, count: nat)
    requires Fits(size) && count == PageSpan(8 * size) && Scan(pages, count, 0, 0) == Some(index)
    requires FreeRun(pages, index, count)
    ensures Harmless(pages, buf, size)
  {
    MapIs(pages, buf, size);
    WriteAt(pages, Entries(buf, 8 * size), index, 0, count);
  }

  /** A used page among those written is lost, unless it held the very page written over it. */
  lemma HarmfulWrite(pages: Pages, size: Cell, index: nat, count: nat, j: nat) returns (buf: nat)
    requires Fits(size) && count == PageSpan(8 * size) && Scan(pages, count, 0, 0) == Some(index)
    requires index + count <= 32 && index <= j < index + count && pages[j].buf.Some?
    ensures !Harmless(pages, buf, size)
  {
    buf := pages[j].buf.value + 1;
    MapIs(pages, buf, size);
    WriteAt(pages, Entries(buf, 8 * size), index, 0, count);
    EntryBuffer(buf, 8 * size, j - index);
  }

  /** Map counts a free run but starts writing at the run's last page. So it leaves
      the mappings in use alone, and stays inside the table, whichever buffer is
      mapped, exactly when the pages after that run are free too; for one page there
      are none. It finds no room exactly when there is no run. */
  lemma MapExact(pages: Pages, size: Cell)
    requires Fits(size)
    ensures var count := PageSpan(8 * size);
            var found := Scan(pages, count, 0, 0);
            && count > 0
            && (forall buf: nat :: MapTable(pages, buf, size).NoRoom? <==> forall k: nat :: !RunBefore(pages, count, k))
            && (found.Some? ==> RunBefore(pages, count, found.value + 1))
            && (found.Some? ==>
                  ((forall buf: nat :: Harmless(pages, buf, size)) <==> FreeRun(pages, found.value, count)))
  {
    var count := PageSpan(8 * size);
    SpanPositive(size);
    ScanFinds(pages, count, 0, 0);
    var found := Scan(pages, count, 0, 0);
    forall buf: nat
      ensures MapTable(pages, buf, size).NoRoom? <==> found.None?
    {
      MapIs(pages, buf, size);
    }
    if found.Some? {
      var index := found.value;
      if index + count > 32 {
        MapIs(pages, 0, size);
        assert !Harmless(pages, 0, size);
      } else if FreeFrom(pages, index, index + count) {
        forall buf: nat
          ensures Harmless(pages, buf, size)
        {
          HarmlessWrite(pages, buf, size, index, count);
        }
      } else {
        var j :| index <= j < index + count && pages[j].buf.Some?;
        var buf := HarmfulWrite(pages, size, index, count, j);
      }
    }
  }

  /** The segment of size cells that starts at address from contains address va. */
  predicate InBuffer(from: Cell, size: Cell, va: Cell) {
    va % 8 == 0 && from <= va < from + 8 * size
  }

  /** The page and the offset of an address in a run of count pages from page index on. */
  lemma AddressInRun(base: Cell, index: nat, size: Cell, count: nat, va: Cell)
    requires base == index * 0x800_0000_0000_0000 && Fits(size) && count == PageSpan(8 * size)
    ensures var i := PageIndex(va) - index;
            && (InBuffer(base, size, va) <==>
                  va % 8 == 0 && 0 <= i < count && PageOffset(va) < 8 * size - i * 0x800_0000_0000_0000)
            && (0 <= i ==> i * 0x100_0000_0000_0000 + PageOffset(va) / 8 == (va - base) / 8)
  {
    SpanPositive(size);
  }

  lemma EntryBytes(buf: nat, size: Cell, i: nat)
    requires Fits(size) && i < PageSpan(8 * size)
    ensures Entries(buf, 8 * size)(i)
         == Mapping(Some(buf + i * 0x100_0000_0000_0000), 8 * size - i * 0x800_0000_0000_0000)
  {
  }

  /** What a page table entry makes of an address on its page. */
  function PageTranslate(m: Mapping, va: Cell): Option<nat> {
    if va % 8 != 0 || m.buf.None? || PageOffset(va) >= m.size then None
    else Some(m.buf.value + PageOffset(va) / 8)
  }

  lemma EntryTranslates(buf: nat, size: Cell, base: Cell, index: nat, count: nat, va: Cell, i: nat)
    requires base == index * 0x800_0000_0000_0000 && Fits(size) && count == PageSpan(8 * size)
    requires i < count && PageIndex(va) == index + i
    ensures PageTranslate(Entries(buf, 8 * size)(i), va)
         == if InBuffer(base, size, va) then Some(buf + (va - base) / 8) else None
  {
    AddressInRun(base, index, size, count, va);
    EntryBytes(buf, size, i);
  }

  lemma WriteAtOne(pages: Pages, entries: nat -> Mapping, index: nat, count: nat, j: nat)
    requires index + count <= 32 && j < 32
    ensures Write(pages, entries, index, 0, count)[j]
         == if index <= j < index + count then entries(j - index) else pages[j]
  {
    WriteAt(pages, entries, index, 0, count);
  }

  /** The entries of a buffer, written over free pages. */
  lemma RunTranslates(pages: Pages, buf: nat, size: Cell, base: Cell, index: nat, count: nat, va: Cell)
    requires base == index * 0x800_0000_0000_0000 && Fits(size) && count == PageSpan(8 * size)
    requires FreeRun(pages, index, count)
    ensures Paged(Write(pages, Entries(buf, 8 * size), index, 0, count)).Translate(va)
         == if InBuffer(base, size, va) then Some(buf + (va - base) / 8) else Paged(pages).Translate(va)
  {
    var j := PageIndex(va);
    var written := Write(pages, Entries(buf, 8 * size), index, 0, count);
    WriteAtOne(pages, Entries(buf, 8 * size), index, count, j);
    assert Paged(written).Translate(va) == PageTranslate(written[j], va);
    assert Paged(pages).Translate(va) == PageTranslate(pages[j], va);
    if index <= j < index + count {
      EntryTranslates(buf, size, base, index, count, va, j - index);
    } else {
      AddressInRun(base, index, size, count, va);
    }
  }

  lemma MapsRun(pages: Pages, buf: nat, size: Cell, index: nat, count: nat) returns (base: Cell)
    requires Fits(size) && count == PageSpan(8 * size)
             && Scan(pages, count, 0, 0) == Some(index) && FreeRun(pages, index, count)
    ensures MapTable(pages, buf, size) == Mapped(Write(pages, Entries(buf, 8 * size), index, 0, count), base)
    ensures base == index * 0x800_0000_0000_0000 && PageIndex(base) == index
  {
    MapIs(pages, buf, size);
    VaOf(index);
    base := MakeVa(index, 0);
  }

  /** Where mapping is harmless, it answers an address from which on the whole buffer is
      reached, and every other address translates as before. */
  lemma MapReaches(pages: Pages, buf: nat, size: Cell, index: nat, count: nat) returns (pages': Pages, base: Cell)
    requires Fits(size) && count == PageSpan(8 * size)
             && Scan(pages, count, 0, 0) == Some(index) && FreeRun(pages, index, count)
    ensures MapTable(pages, buf, size) == Mapped(pages', base)
    ensures forall va: Cell :: Paged(pages').Translate(va)
                            == if InBuffer(base, size, va) then Some(buf + (va - base) / 8)
                               else Paged(pages).Translate(va)
  {
    base := MapsRun(pages, buf, size, index, count);
    pages' := Write(pages, Entries(buf, 8 * size), index, 0, count);
    forall va: Cell
      ensures Paged(pages').Translate(va)
           == if InBuffer(base, size, va) then Some(buf + (va - base) / 8) else Paged(pages).Translate(va)
    {
      RunTranslates(pages, buf, size, base, index, count, va);
    }
  }

  /** Free entries are all alike: what an empty table, map and unmap leave. */
  ghost predicate Clean(pages: Pages) {
    forall j :: 0 <= j < 32 && pages[j].buf.None? ==> pages[j] == FREE_PAGE
  }

  /** Clearing entries that were written over free ones. */
  lemma ClearedIs(pages: Pages, entries: nat -> Mapping, index: nat, count: nat)
    requires Clean(pages) && FreeRun(pages, index, count)
    ensures Write(Write(pages, entries, index, 0, count), NoEntries(), index, 0, count) == pages
  {
    var written := Write(pages, entries, index, 0, count);
    var back := Write(written, NoEntries(), index, 0, count);
    forall j: nat | j < 32
      ensures back[j] == pages[j]
    {
      WriteAtOne(pages, entries, index, count, j);
      WriteAtOne(written, NoEntries(), index, count, j);
    }
  }

  lemma UnmapIs(pages: Pages, base: Cell, size: Cell, index: nat, count: nat)
    requires Fits(size) && count == PageSpan(8 * size) && PageIndex(base) == index && index + count <= 32
    ensures UnmapTable(pages, base, size) == Some(Write(pages, NoEntries(), index, 0, count))
  {
    assert Wrap(8 * size) == 8 * size;
  }

  /** Unmap after a harmless map gives back the table. */
  lemma UnmapUndoesRun(pages: Pages, buf: nat, size: Cell, index: nat, count: nat)
    requires Fits(size) && count == PageSpan(8 * size)
             && Scan(pages, count, 0, 0) == Some(index) && FreeRun(pages, index, count)
    requires Clean(pages)
    ensures var r := MapTable(pages, buf, size);
            r.Mapped? && UnmapTable(r.pages, r.va, size) == Some(pages)
  {
    var base := MapsRun(pages, buf, size, index, count);
    ClearedIs(pages, Entries(buf, 8 * size), index, count);
    UnmapIs(Write(pages, Entries(buf, 8 * size), index, 0, count), base, size, index, count);
  }

  function EmptyTable(): (t: Pages)
    ensures forall j :: 0 <= j < 32 ==> t[j] == FREE_PAGE
  {
    seq(32, _ => FREE_PAGE)
  }

  /** The least failing family: on an empty table a buffer is mapped from page
      count - 1 on, so one of more than 16 pages runs past the table. */
  lemma MapOnEmpty(size: Cell)
    requires Fits(size)
    ensures (forall buf: nat :: Harmless(EmptyTable(), buf, size)) <==> PageSpan(8 * size) <= 16
  {
    var count := PageSpan(8 * size);
    MapExact(EmptyTable(), size);
    ScanFinds(EmptyTable(), count, 0, 0);
    assert RunBefore(EmptyTable(), count, count);
    assert Scan(EmptyTable(), count, 0, 0) == Some(count - 1);
  }

  // ----- buffers of at most one page -----

  /** A live mapping: the address map answered, its buffer and its size in cells. */
  datatype Handle = Handle(page: nat, buf: nat, size: Cell) {
    ghost predicate OnePage() {
      page < 32 && 0 < size <= 0x100_0000_0000_0000
    }

    function Va(): Cell {
      MakeVa(page, 0)
    }

    function Entry(): Mapping {
      Mapping(Some(buf), 8 * size)
    }
  }

  /** The table holds exactly the live mappings, on distinct pages. */
  ghost predicate Holds(pages: Pages, live: set<Handle>) {
    && (forall h :: h in live ==> h.OnePage() && pages[h.page] == h.Entry())
    && (forall h, g :: h in live && g in live && h.page == g.page ==> h == g)
    && (forall j :: 0 <= j < 32 ==> pages[j] == FREE_PAGE || Owned(live, j))
  }

  ghost predicate Owned(live: set<Handle>, j: nat) {
    exists h :: h in live && h.page == j
  }

  lemma VaOf(page: nat)
    requires page < 32
    ensures MakeVa(page, 0) == page * 0x800_0000_0000_0000 && PageIndex(MakeVa(page, 0)) == page
  {
  }

  lemma WriteOne(pages: Pages, entries: nat -> Mapping, index: nat)
    requires index < 32
    ensures Write(pages, entries, index, 0, 1) == pages[index := entries(0)]
  {
    assert Write(pages[index + 0 := entries(0)], entries, index, 1, 1) == pages[index + 0 := entries(0)];
  }

  lemma MapOneIs(pages: Pages, buf: nat, size: Cell)
    requires 0 < size <= 0x100_0000_0000_0000
    ensures MapTable(pages, buf, size) == MapPages(pages, buf, 8 * size, 1)
  {
    assert Wrap(8 * size) == 8 * size;
    OnePageSpan(8 * size);
  }

  lemma FirstEntry(h: Handle)
    requires h.OnePage()
    ensures Entries(h.buf, 8 * h.size)(0) == h.Entry()
  {
  }

  /** A buffer of at most one page goes on a free page, and is refused only when
      the whole table is in use. */
  lemma MapOne(pages: Pages, live: set<Handle>, buf: nat, size: Cell) returns (h: Handle)
    requires Holds(pages, live) && 0 < size <= 0x100_0000_0000_0000
    ensures var r := MapTable(pages, buf, size);
            if r.NoRoom? then forall j: nat :: j < 32 ==> Owned(live, j)
            else
              && h == Handle(h.page, buf, size) && h.OnePage() && !Owned(live, h.page)
              && r == Mapped(pages[h.page := h.Entry()], h.Va()) && Holds(r.pages, live + {h})
  {
    MapOneIs(pages, buf, size);
    ScanFinds(pages, 1, 0, 0);
    var found := Scan(pages, 1, 0, 0);
    h := Handle(if found.Some? then found.value else 0, buf, size);
    if found.None? {
      forall j: nat | j < 32
        ensures Owned(live, j)
      {
        assert !RunBefore(pages, 1, j + 1);
      }
    } else {
      assert RunBefore(pages, 1, found.value + 1);
      WriteOne(pages, Entries(buf, 8 * size), h.page);
      FirstEntry(h);
      MapHolds(pages, live, h);
    }
  }

  lemma MapHolds(pages: Pages, live: set<Handle>, h: Handle)
    requires Holds(pages, live) && h.OnePage() && pages[h.page].buf.None?
    ensures !Owned(live, h.page) && Holds(pages[h.page := h.Entry()], live + {h})
  {
    var live' := live + {h};
    assert h in live';
    forall j | 0 <= j < 32
      ensures pages[h.page := h.Entry()][j] == FREE_PAGE || Owned(live', j)
    {
      if Owned(live, j) {
        var g :| g in live && g.page == j;
        assert g in live';
      }
    }
  }

  /** Releasing a live mapping frees its page and nothing else. */
  lemma UnmapOne(pages: Pages, live: set<Handle>, h: Handle)
    requires Holds(pages, live) && h in live
    ensures UnmapTable(pages, h.Va(), h.size) == Some(pages[h.page := FREE_PAGE])
    ensures Holds(pages[h.page := FREE_PAGE], live - {h})
  {
    VaOf(h.page);
    assert Wrap(8 * h.size) == 8 * h.size;
    OnePageSpan(8 * h.size);
    WriteOne(pages, NoEntries(), h.page);
    var live' := live - {h};
    forall j | 0 <= j < 32
      ensures pages[h.page := FREE_PAGE][j] == FREE_PAGE || Owned(live', j)
    {
      if j != h.page && Owned(live, j) {
        var g :| g in live && g.page == j;
        assert g in live';
      }
    }
  }

  /** Unmap right after map restores the table exactly. */
  lemma UnmapUndoesMap(pages: Pages, live: set<Handle>, buf: nat, size: Cell)
    requires Holds(pages, live) && 0 < size <= 0x100_0000_0000_0000
    requires MapTable(pages, buf, size).Mapped?
    ensures var r := MapTable(pages, buf, size);
            UnmapTable(r.pages, r.va, size) == Some(pages)
  {
    var h := MapOne(pages, live, buf, size);
    var r := MapTable(pages, buf, size);
    UnmapOne(r.pages, live + {h}, h);
    assert pages[h.page := h.Entry()][h.page := FREE_PAGE] == pages;
  }

  // ----- what translation does with the live mappings -----

  /** Address va is a cell of mapping h. */
  ghost predicate InMapping(h: Handle, va: Cell) {
    va % 8 == 0 && h.page * 0x800_0000_0000_0000 <= va < h.page * 0x800_0000_0000_0000 + 8 * h.size
  }

  function CellOfMapping(h: Handle, va: Cell): int {
    h.buf + (va - h.page * 0x800_0000_0000_0000) / 8
  }

  lemma PageOfAddress(h: Handle, va: Cell)
    requires h.OnePage()
    ensures InMapping(h, va) <==> va % 8 == 0 && PageIndex(va) == h.page && PageOffset(va) < 8 * h.size
    ensures PageIndex(va) == h.page ==> PageOffset(va) == va - h.page * 0x800_0000_0000_0000
  {
  }

  /** Translation succeeds exactly on the addresses of live mappings and lands in
      the owning buffer, at the offset of the address. */
  lemma TranslateOwned(pages: Pages, live: set<Handle>, va: Cell)
    requires Holds(pages, live)
    ensures Paged(pages).Translate(va).Some? <==> exists h :: h in live && InMapping(h, va)
    ensures forall h :: h in live && InMapping(h, va) ==>
              && Paged(pages).Translate(va) == Some(CellOfMapping(h, va))
              && h.buf <= CellOfMapping(h, va) < h.buf + h.size
  {
    forall h | h in live && InMapping(h, va)
      ensures Paged(pages).Translate(va) == Some(CellOfMapping(h, va))
      ensures h.buf <= CellOfMapping(h, va) < h.buf + h.size
    {
      PageOfAddress(h, va);
      assert pages[h.page] == h.Entry();
    }
    if Paged(pages).Translate(va).Some? {
      var j := PageIndex(va);
      assert Owned(live, j);
      var h :| h in live && h.page == j;
      assert pages[h.page] == h.Entry();
      PageOfAddress(h, va);
    }
  }

  ghost predicate DisjointBuffers(live: set<Handle>) {
    forall h, g :: h in live && g in live && h != g ==> h.buf + h.size <= g.buf || g.buf + g.size <= h.buf
  }

  /** Live buffers being disjoint, no two addresses share a host cell. */
  lemma TranslateInjective(pages: Pages, live: set<Handle>, va: Cell, vb: Cell)
    requires Holds(pages, live) && DisjointBuffers(live)
    requires Paged(pages).Translate(va).Some? && Paged(pages).Translate(va) == Paged(pages).Translate(vb)
    ensures va == vb
  {
    TranslateOwned(pages, live, va);
    TranslateOwned(pages, live, vb);
    var h :| h in live && InMapping(h, va);
    var g :| g in live && InMapping(g, vb);
    SameOwner(live, h, g, CellOfMapping(h, va));
    SameCell(h, va, vb);
  }

  lemma SameOwner(live: set<Handle>, h: Handle, g: Handle, p: int)
    requires DisjointBuffers(live) && h in live && g in live
    requires h.buf <= p < h.buf + h.size && g.buf <= p < g.buf + g.size
    ensures h == g
  {
  }

  lemma SameCell(h: Handle, va: Cell, vb: Cell)
    requires InMapping(h, va) && InMapping(h, vb) && h.page < 32 && CellOfMapping(h, va) == CellOfMapping(h, vb)
    ensures va == vb
  {
    assert (va - h.page * 0x800_0000_0000_0000) % 8 == 0 && (vb - h.page * 0x800_0000_0000_0000) % 8 == 0;
  }

  // ----- any sequence of calls -----

  datatype Call = DoMap(buf: nat, size: Cell) | DoUnmap(handle: Handle)

  /** The table after a sequence of calls, each unmap releasing a live mapping. */
  ghost predicate Runs(calls: seq<Call>, pages: Pages, live: set<Handle>, pages': Pages, live': set<Handle>)
    decreases |calls|
  {
    if calls == [] then pages' == pages && live' == live
    else
      match calls[0]
      case DoMap(buf, size) =>
        && 0 < size <= 0x100_0000_0000_0000
        && (match MapTable(pages, buf, size)
            case Mapped(p, va) => Runs(calls[1..], p, live + {Handle(PageIndex(va), buf, size)}, pages', live')
            case NoRoom => Runs(calls[1..], pages, live, pages', live')
            case Overrun => false)
      case DoUnmap(h) =>
        && h in live && UnmapTable(pages, h.Va(), h.size).Some?
        && Runs(calls[1..], UnmapTable(pages, h.Va(), h.size).value, live - {h}, pages', live')
  }

  /** From any table that holds its live mappings, the empty one for instance, every
      sequence of calls leads to a table that holds exactly the mappings then live. */
  lemma {:induction false} RunsHold(calls: seq<Call>, pages: Pages, live: set<Handle>,
                                    pages': Pages, live': set<Handle>)
    requires Holds(pages, live) && Runs(calls, pages, live, pages', live')
    ensures Holds(pages', live')
    decreases |calls|
  {
    if calls != [] {
      match calls[0]
      case DoMap(buf, size) =>
        var h := MapOne(pages, live, buf, size);
        var r := MapTable(pages, buf, size);
        if r.Mapped? {
          VaOf(h.page);
          assert h == Handle(PageIndex(r.va), buf, size);
          RunsHold(calls[1..], r.pages, live + {h}, pages', live');
        } else {
          RunsHold(calls[1..], pages, live, pages', live');
        }
      case DoUnmap(h) =>
        UnmapOne(pages, live, h);
        RunsHold(calls[1..], pages[h.page := FREE_PAGE], live - {h}, pages', live');
    }
  }

  lemma EmptyHolds()
    ensures Holds(EmptyTable(), {}) && Clean(EmptyTable())
  {
  }

  /** So it does from the table of a new backing. */
  lemma RunsFromEmpty(calls: seq<Call>, pages: Pages, live: set<Handle>)
    requires Runs(calls, EmptyTable(), {}, pages, live)
    ensures Holds(pages, live) && Clean(pages)
  {
    EmptyHolds();
    RunsHold(calls, EmptyTable(), {}, pages, live);
    assert forall h :: h in live ==> pages[h.page].buf.Some?;
  }
}
