/** The loader object: init with its loops, the machine it sets up, and the
    dispatch of callbacks to the host's functions. */
module LoaderObject {
  import opened LittleEndian
  import opened Cells
  import opened Memories
  import opened Machine
  import opened AmxObject
  import opened PageAllocator
  import opened ImageLoader

  /** The little-endian cells of a section. */
  method ReadCells(buf: seq<Byte>, begin: nat, end: nat) returns (ok: bool, cells: seq<Cell>)
    ensures ok == SectionOk(|buf|, begin, end, 8)
    ensures ok ==> cells == CellsAt(buf, begin, (end - begin) / 8)
  {
    cells := [];
    if !SectionOk(|buf|, begin, end, 8) { return false, cells; }
    var n := (end - begin) / 8;
    var i := 0;
    while i < n
      invariant 0 <= i <= n && cells == CellsAt(buf, begin, i)
    {
      var c := ReadLe(buf, begin + 8 * i, 8);
      LeBound(buf[begin + 8 * i..begin + 8 * i + 8]);
      CellBytes();
      assert buf[begin + 8 * i..begin + 8 * (i + 1)] == buf[begin + 8 * i..begin + 8 * i + 8];
      cells := cells + [c];
      i := i + 1;
    }
    return true, cells;
  }

  /** The search for the terminating zero byte of a name. */
  method ReadName(buf: seq<Byte>, p: nat) returns (name: Option<seq<Byte>>)
    requires p + 8 <= |buf|
    ensures name == NameOf(buf, p)
  {
    var ofs := ReadU32(buf, p + 4);
    var end := ofs;
    while end < |buf| && buf[end] != 0
      invariant ofs <= end && NameEnd(buf, ofs) == NameEnd(buf, end)
      decreases |buf| - end
    {
      end := end + 1;
    }
    if end >= |buf| { return None; }
    return Some(buf[ofs..end]);
  }

  lemma PrefixOfEntries(buf: seq<Byte>, begin: nat, end: nat, entry: nat, n: nat)
    requires SectionOk(|buf|, begin, end, entry) && entry >= 8 && n < (end - begin) / entry
    ensures EntryPos(begin, entry, n) + 8 <= |buf|
    ensures EntriesOf(buf, begin, end, entry, n + 1)
         == EntriesOf(buf, begin, end, entry, n) + [EntryAt(buf, EntryPos(begin, entry, n))]
  {
    EntryInside(|buf|, begin, end, entry, n);
  }

  /** A failed prefix of a table fails the table, and nothing is entered after it. */
  lemma {:induction false} TableStopsEarly(known: Addresses, buf: seq<Byte>, begin: nat, end: nat,
                                           entry: nat, n: nat, m: nat)
    requires SectionOk(|buf|, begin, end, entry) && entry >= 8 && n <= m <= (end - begin) / entry
    requires AddressTable(known, EntriesOf(buf, begin, end, entry, n)).None?
    ensures AddressTable(known, EntriesOf(buf, begin, end, entry, m)).None?
    ensures Entered(known, EntriesOf(buf, begin, end, entry, m)) == Entered(known, EntriesOf(buf, begin, end, entry, n))
    decreases m - n
  {
    if n < m {
      PrefixOfEntries(buf, begin, end, entry, n);
      var es := EntriesOf(buf, begin, end, entry, n + 1);
      assert es[..|es| - 1] == EntriesOf(buf, begin, end, entry, n);
      TableStopsEarly(known, buf, begin, end, entry, n + 1, m);
    }
  }

  /** Adding the next entry to a table built so far. */
  lemma TableGrows(known: Addresses, buf: seq<Byte>, begin: nat, end: nat, entry: nat, n: nat)
    requires SectionOk(|buf|, begin, end, entry) && entry >= 8 && n < (end - begin) / entry
    ensures EntryPos(begin, entry, n) + 8 <= |buf|
    ensures var before := AddressTable(known, EntriesOf(buf, begin, end, entry, n));
            var e := EntryAt(buf, EntryPos(begin, entry, n));
            && AddressTable(known, EntriesOf(buf, begin, end, entry, n + 1)) ==
               (if before.None? || e.name.None? then None else Some(before.value[e.name.value := e.address]))
            && (e.name.None? ==>
                  Entered(known, EntriesOf(buf, begin, end, entry, n + 1))
                   == Entered(known, EntriesOf(buf, begin, end, entry, n)))
  {
    PrefixOfEntries(buf, begin, end, entry, n);
    var es := EntriesOf(buf, begin, end, entry, n + 1);
    assert es[..|es| - 1] == EntriesOf(buf, begin, end, entry, n);
  }

  /** One entry of a table built so far: entered, or without a name and the end of it. */
  method EnterNext(known: Addresses, buf: seq<Byte>, begin: nat, end: nat, entry: nat, i: nat, table: Addresses)
    returns (ok: bool, more: Addresses)
    requires SectionOk(|buf|, begin, end, entry) && entry >= 8 && i < (end - begin) / entry
    requires AddressTable(known, EntriesOf(buf, begin, end, entry, i)) == Some(table)
    ensures ok ==> AddressTable(known, EntriesOf(buf, begin, end, entry, i + 1)) == Some(more)
    ensures !ok ==> AddressTable(known, Section(buf, begin, end, entry)).None?
    ensures !ok ==> more == Entered(known, Section(buf, begin, end, entry))
  {
    TableGrows(known, buf, begin, end, entry, i);
    var p := EntryPos(begin, entry, i);
    var address := ReadU32(buf, p);
    var name := ReadName(buf, p);
    if name.None? {
      TableStopsEarly(known, buf, begin, end, entry, i + 1, (end - begin) / entry);
      return false, table;
    }
    return true, table[name.value := address];
  }

  method ReadAddresses(known: Addresses, buf: seq<Byte>, begin: nat, end: nat, entry: nat)
    returns (ok: bool, table: Addresses)
    requires entry >= 8
    ensures ok == (SectionOk(|buf|, begin, end, entry) && AddressTable(known, Section(buf, begin, end, entry)).Some?)
    ensures table == AddressesAfter(known, buf, begin, end, entry)
  {
    ok, table := SectionOk(|buf|, begin, end, entry), known;
    if !ok { return; }
    var n := (end - begin) / entry;
    var i := 0;
    while i < n
      invariant 0 <= i <= n && AddressTable(known, EntriesOf(buf, begin, end, entry, i)) == Some(table)
    {
      ok, table := EnterNext(known, buf, begin, end, entry, i, table);
      if !ok { return; }
      i := i + 1;
    }
    return true, table;
  }

  lemma {:induction false} NativesStopEarly(known: seq<NativeArg>, buf: seq<Byte>, begin: nat, end: nat,
                                            entry: nat, n: nat, m: nat)
    requires SectionOk(|buf|, begin, end, entry) && entry >= 8 && n <= m <= (end - begin) / entry
    requires !ResolveAll(EntriesOf(buf, begin, end, entry, n), known).Natives?
    ensures ResolveAll(EntriesOf(buf, begin, end, entry, m), known)
         == ResolveAll(EntriesOf(buf, begin, end, entry, n), known)
    ensures Pushed(EntriesOf(buf, begin, end, entry, m), known) == Pushed(EntriesOf(buf, begin, end, entry, n), known)
    decreases m - n
  {
    if n < m {
      PrefixOfEntries(buf, begin, end, entry, n);
      var es := EntriesOf(buf, begin, end, entry, n + 1);
      assert es[..|es| - 1] == EntriesOf(buf, begin, end, entry, n);
      NativesStopEarly(known, buf, begin, end, entry, n + 1, m);
    }
  }

  /** find_if over the natives on offer. */
  method FindNative(known: seq<NativeArg>, name: seq<Byte>) returns (c: Option<nat>)
    ensures c == Resolve(known, name)
  {
    var k := 0;
    assert known[0..] == known;
    while k < |known|
      invariant 0 <= k <= |known| && Resolve(known, name) == Resolve(known[k..], name)
    {
      if known[k].name == name { return Some(known[k].callback); }
      assert known[k..][1..] == known[k + 1..];
      k := k + 1;
    }
    return None;
  }

  lemma NativesGrow(known: seq<NativeArg>, buf: seq<Byte>, begin: nat, end: nat, entry: nat, n: nat)
    requires SectionOk(|buf|, begin, end, entry) && entry >= 8 && n < (end - begin) / entry
    ensures EntryPos(begin, entry, n) + 8 <= |buf|
    ensures var before := ResolveAll(EntriesOf(buf, begin, end, entry, n), known);
            var name := NameOf(buf, EntryPos(begin, entry, n));
            && ResolveAll(EntriesOf(buf, begin, end, entry, n + 1), known) ==
               (if !before.Natives? then before
                else if name.None? then BadName
                else if Resolve(known, name.value).None? then NotOffered
                else Natives(before.callbacks + [Resolve(known, name.value).value]))
            && (name.None? || Resolve(known, name.value).None? ==>
                  Pushed(EntriesOf(buf, begin, end, entry, n + 1), known)
                   == Pushed(EntriesOf(buf, begin, end, entry, n), known))
  {
    PrefixOfEntries(buf, begin, end, entry, n);
    var es := EntriesOf(buf, begin, end, entry, n + 1);
    assert es[..|es| - 1] == EntriesOf(buf, begin, end, entry, n);
  }

  method ReadNatives(known: seq<NativeArg>, buf: seq<Byte>, begin: nat, end: nat, entry: nat)
    returns (r: NativeTable, callbacks: seq<nat>)
    requires entry >= 8 && SectionOk(|buf|, begin, end, entry)
    ensures r == ResolveAll(Section(buf, begin, end, entry), known)
    ensures callbacks == Pushed(Section(buf, begin, end, entry), known)
  {
    callbacks := [];
    var n := (end - begin) / entry;
    var i := 0;
    while i < n
      invariant 0 <= i <= n && ResolveAll(EntriesOf(buf, begin, end, entry, i), known) == Natives(callbacks)
    {
      NativesGrow(known, buf, begin, end, entry, i);
      var p := EntryPos(begin, entry, i);
      var name := ReadName(buf, p);
      if name.None? {
        NativesStopEarly(known, buf, begin, end, entry, i + 1, n);
        return BadName, callbacks;
      }
      var c := FindNative(known, name.value);
      if c.None? {
        NativesStopEarly(known, buf, begin, end, entry, i + 1, n);
        return NotOffered, callbacks;
      }
      callbacks := callbacks + [c.value];
      i := i + 1;
    }
    return Natives(callbacks), callbacks;
  }

  method ReadHeader(buf: seq<Byte>) returns (h: Header)
    requires |buf| >= 60
    ensures h == HeaderOf(buf) && h.cip < 0x1_0000_0000 && h.hea < 0x1_0000_0000
  {
    var size := ReadU32(buf, 0);
    var magic := ReadU16(buf, 4);
    var flags := ReadU16(buf, 8);
    var defsize := ReadU16(buf, 10);
    var cod := ReadU32(buf, 12);
    var dat := ReadU32(buf, 16);
    var hea := ReadU32(buf, 20);
    var stp := ReadU32(buf, 24);
    var cip := ReadU32(buf, 28);
    var publics := ReadU32(buf, 32);
    var natives := ReadU32(buf, 36);
    var libraries := ReadU32(buf, 40);
    var pubvars := ReadU32(buf, 44);
    var tags := ReadU32(buf, 48);
    h := Header(size, magic, buf[6], buf[7], flags, defsize, cod, dat, hea, stp, cip,
                publics, natives, libraries, pubvars, tags);
  }

  /** An entry table with an older table to start from exists whenever one from scratch does. */
  lemma NamedFromAny(known: Addresses, buf: seq<Byte>, begin: nat, end: nat, entry: nat)
    requires entry >= 8
    ensures NamedSection(buf, begin, end, entry) <==>
            SectionOk(|buf|, begin, end, entry) && AddressTable(known, Section(buf, begin, end, entry)).Some?
  {
    if SectionOk(|buf|, begin, end, entry) {
      AddressTableIs(known, Section(buf, begin, end, entry));
      AddressTableIs(map[], Section(buf, begin, end, entry));
    }
  }

  lemma DataFits(buf: seq<Byte>, h: Header)
    requires SectionOk(|buf|, h.dat, h.hea, 8) && h.hea < 0x1_0000_0000
    ensures |DataOf(buf, h)| <= 0x8000_0000
  {
  }

  /** The page table after mapping a data segment of size cells at buf into an empty one, and its base address. */
  function DataTable(buf: nat, size: nat): Pages {
    if size == 0 then EmptyTable() else EmptyTable()[0 := Mapping(Some(buf), 8 * size)]
  }

  function DataBase(size: nat): Cell {
    if size == 0 then 0xFFFF_FFFF_FFFF_FFF8 else 0
  }

  /** Any data segment that an image can ask for fits on the first page. */
  lemma EmptyMaps(buf: nat, size: nat)
    requires size <= 0x8000_0000
    ensures MapTable(EmptyTable(), buf, size) == Mapped(DataTable(buf, size), DataBase(size))
  {
    if size > 0 {
      MapOneIs(EmptyTable(), buf, size);
      assert Scan(EmptyTable(), 1, 0, 0) == Some(0);
      WriteOne(EmptyTable(), Entries(buf, 8 * size), 0);
      FirstEntry(Handle(0, buf, size));
      VaOf(0);
    }
  }

  method MapData(table: Pages, buf: nat, size: nat) returns (r: MapResult)
    requires size <= 0x8000_0000
    ensures table == EmptyTable() ==> r == Mapped(DataTable(buf, size), DataBase(size))
  {
    EmptyMaps(buf, size);
    r := MapTable(table, buf, size);
  }

  /** Code through a contiguous backing at host cell 0, data behind it through a page table. */
  function TwoSegments(code: seq<Cell>, data: seq<Cell>, codeBacking: Backing, dataBacking: Backing): Memory {
    Memory(code + data, codeBacking.Translate, dataBacking.Translate)
  }

  /** The machine init leaves: code and data mapped, the stack at the end of the
      data and the heap after the image's own data cells. */
  function Booted(s: Vm, code: seq<Cell>, data: seq<Cell>, heap: nat): Vm {
    var top := Wrap((|data| - 1) * 8);
    s.(cod := 0, dat := DataBase(|data|), stk := top, stp := top, hea := Wrap(heap * 8),
       mem := TwoSegments(code, data, Contiguous(Some(0), 8 * |code|), Paged(DataTable(|code|, |data|))))
  }

  /** All registers of a new machine are zero. */
  ghost predicate Zeroed(s: Vm) {
    s == Vm(0, 0, 0, 0, 0, 0, 0, 0, 0, s.mem)
  }

  /** The machine that init sets up on a new one for an image with header h. */
  function StartOf(buf: seq<Byte>, h: Header): Vm
    requires SectionOk(|buf|, h.cod, h.dat, 8) && SectionOk(|buf|, h.dat, h.hea, 8)
  {
    var unmapped: Translation := _ => None;
    Booted(Vm(0, 0, 0, 0, 0, 0, 0, 0, 0, Memory([], unmapped, unmapped)), CodeOf(buf, h), DataOf(buf, h),
           (h.hea - h.dat) / 8)
  }

  datatype Snapshot = Snapshot(mapped: bool, code: seq<Cell>, data: seq<Cell>, main: Cell, tables: Tables, machine: Vm)

  /** A new loader, before any load. */
  ghost predicate Untouched(s: Snapshot) {
    !s.mapped && s.tables == NO_TABLES && Zeroed(s.machine)
  }

  /** What init answers for an image with header h, and makes of loader s: the tables as far
      as it got with them, and on success the decoded segments and the machine set up on them. */
  ghost predicate Loaded(s: Snapshot, s1: Snapshot, buf: seq<Byte>, h: Header, known: seq<NativeArg>,
                         err: LoaderError) {
    && err == (if ImageVerdict(buf, h, known) == LoadSuccess && s.mapped then Unknown else ImageVerdict(buf, h, known))
    && (err == LoadSuccess <==> GoodImage(buf, h, known) && !s.mapped)
    && (s1.mapped <==> s.mapped || err == LoadSuccess)
    && s1.tables == ImageTables(s.tables, buf, h, known)
    && (err == LoadSuccess ==>
          && s1.code == CodeOf(buf, h) && s1.data == DataOf(buf, h) && s1.main == MainOf(h)
          && s1.machine == Booted(s.machine, s1.code, s1.data, (h.hea - h.dat) / 8))
  }

  /** What a load on a new loader leaves for an image with header h. */
  ghost predicate LoadedNew(s: Snapshot, buf: seq<Byte>, h: Header, known: seq<NativeArg>) {
    && (s.mapped <==> GoodImage(buf, h, known))
    && s.tables == ImageTables(NO_TABLES, buf, h, known)
    && (s.mapped ==> s.main == MainOf(h) && s.machine == StartOf(buf, h))
  }

  /** Of a new machine Booted keeps the zero registers alone. */
  lemma BootedNew(s: Vm, buf: seq<Byte>, h: Header)
    requires Zeroed(s) && SectionOk(|buf|, h.cod, h.dat, 8) && SectionOk(|buf|, h.dat, h.hea, 8)
    ensures Booted(s, CodeOf(buf, h), DataOf(buf, h), (h.hea - h.dat) / 8) == StartOf(buf, h)
  {
  }

  lemma NewLoaded(s: Snapshot, s1: Snapshot, buf: seq<Byte>, h: Header, known: seq<NativeArg>, err: LoaderError)
    requires Untouched(s) && Loaded(s, s1, buf, h, known, err)
    ensures LoadedNew(s1, buf, h, known)
  {
    if err == LoadSuccess {
      BootedNew(s.machine, buf, h);
    }
  }

  class Loader {
    var code: seq<Cell>
    var data: seq<Cell>
    var main: Cell
    var publics: Addresses
    var pubvars: Addresses
    var natives: seq<nat>
    var codeMapped: bool
    var table: Pages
    const amx: Amx

    constructor ()
      ensures fresh(amx) && Valid() && !codeMapped
      ensures Tables() == NO_TABLES && Zeroed(amx.View())
    {
      code, data, main, publics, pubvars, natives := [], [], 0, map[], map[], [];
      codeMapped, table := false, EmptyTable();
      var idle := Contiguous(None, 0);
      amx := new Amx(Memory([], idle.Translate, idle.Translate));
    }

    /** Until the code is mapped, the data page table is empty. */
    ghost predicate Valid()
      reads this
    {
      !codeMapped ==> table == EmptyTable()
    }

    /** The segments decoded from the image. */
    ghost predicate HoldsSegments(buf: seq<Byte>, h: Header)
      requires SectionOk(|buf|, h.cod, h.dat, 8) && SectionOk(|buf|, h.dat, h.hea, 8)
      reads this
    {
      code == CodeOf(buf, h) && data == DataOf(buf, h) && main == MainOf(h)
    }

    function Tables(): Tables
      reads this
    {
      ImageLoader.Tables(publics, natives, pubvars)
    }

    /** The part of init after the code and data sections. What was entered and pushed
        before a failure stays. */
    method ReadTables(buf: seq<Byte>, h: Header, known: seq<NativeArg>) returns (err: LoaderError)
      requires h.defsize >= 8
      modifies this`publics, this`natives, this`pubvars
      ensures err == TablesVerdict(buf, h, known)
      ensures Tables() == TablesAfter(old(Tables()), buf, h, known)
    {
      NamedFromAny(publics, buf, h.publics, h.natives, h.defsize);
      NamedFromAny(pubvars, buf, h.pubvars, h.tags, h.defsize);
      var ok, table := ReadAddresses(publics, buf, h.publics, h.natives, h.defsize);
      publics := table;
      if !ok || !SectionOk(|buf|, h.natives, h.libraries, h.defsize) { return InvalidFile; }
      var r, callbacks := ReadNatives(known, buf, h.natives, h.libraries, h.defsize);
      natives := natives + callbacks;
      if !r.Natives? { return if r.NotOffered? then NativeNotResolved else InvalidFile; }
      if h.libraries != h.pubvars { return FeatureNotSupported; }
      ok, table := ReadAddresses(pubvars, buf, h.pubvars, h.tags, h.defsize);
      pubvars := table;
      return if ok then LoadSuccess else InvalidFile;
    }

    /** The code and data sections and the entry point. */
    method ReadSegments(buf: seq<Byte>, h: Header) returns (ok: bool)
      requires h.cip < 0x1_0000_0000
      modifies this`code, this`data, this`main
      ensures ok == (SectionOk(|buf|, h.cod, h.dat, 8) && SectionOk(|buf|, h.dat, h.hea, 8))
      ensures ok ==> HoldsSegments(buf, h)
    {
      var cells;
      ok, cells := ReadCells(buf, h.cod, h.dat);
      code := cells;
      if !ok { return; }
      ok, cells := ReadCells(buf, h.dat, h.hea);
      data := cells;
      if !ok { return; }
      data := data + Zeros(ExtraCells(h));
      main := MainOf(h);
    }

    /** Everything up to the mapping of the segments, for an image with header h. */
    method Decode(buf: seq<Byte>, h: Header, known: seq<NativeArg>) returns (err: LoaderError)
      requires h.cip < 0x1_0000_0000
      modifies this`code, this`data, this`main, this`publics, this`natives, this`pubvars
      ensures err == ImageVerdict(buf, h, known)
      ensures Tables() == ImageTables(old(Tables()), buf, h, known)
      ensures err == LoadSuccess ==> GoodImage(buf, h, known) && HoldsSegments(buf, h)
    {
      ImageExact(buf, h, known);
      err := HeaderVerdict(h, |buf|);
      if err != LoadSuccess { return; }
      var ok := ReadSegments(buf, h);
      if !ok { return InvalidFile; }
      err := ReadTables(buf, h, known);
    }

    /** Mapping the two segments and setting the registers; a second time is refused. */
    method Boot(heap: nat) returns (err: LoaderError)
      requires Valid() && |data| <= 0x8000_0000
      modifies this`codeMapped, this`table, amx
      ensures Valid() && codeMapped
      ensures err == if old(codeMapped) then Unknown else LoadSuccess
      ensures err == LoadSuccess ==> amx.View() == Booted(old(amx.View()), code, data, heap)
    {
      if codeMapped { return Unknown; }
      codeMapped := true;
      var r := MapData(table, |code|, |data|);
      if !r.Mapped? { return Unknown; }
      table := r.pages;
      amx.COD, amx.DAT := 0, r.va;
      amx.STP := Wrap((|data| - 1) * 8);
      amx.STK := amx.STP;
      amx.HEA := Wrap(heap * 8);
      amx.mem := TwoSegments(code, data, Contiguous(Some(0), 8 * |code|), Paged(table));
      return LoadSuccess;
    }

    /** The loader and its machine as a value. */
    function Now(): Snapshot
      reads this, amx
    {
      Snapshot(codeMapped, code, data, main, Tables(), amx.View())
    }

    method InitWith(buf: seq<Byte>, h: Header, known: seq<NativeArg>) returns (err: LoaderError)
      requires Valid() && h.cip < 0x1_0000_0000 && h.hea < 0x1_0000_0000
      modifies this, amx
      ensures Valid() && Loaded(old(Now()), Now(), buf, h, known, err)
    {
      ImageExact(buf, h, known);
      err := Decode(buf, h, known);
      if err != LoadSuccess { return; }
      DataFits(buf, h);
      err := Boot((h.hea - h.dat) / 8);
    }

    /** init, for any buffer at all: it reads only inside the buffer and needs room for a
        header. A load after a successful one is refused. */
    method Init(buf: seq<Byte>, known: seq<NativeArg>) returns (err: LoaderError, ghost h: Header)
      requires Valid()
      modifies this, amx
      ensures Valid()
      ensures if |buf| < 60 then err == InvalidFile && Now() == old(Now())
              else h == HeaderOf(buf) && Loaded(old(Now()), Now(), buf, h, known, err)
    {
      if |buf| < 60 { return InvalidFile, *; }
      var header := ReadHeader(buf);
      h := header;
      err := InitWith(buf, header, known);
    }

    /** The constructor that loads an image and drops the answer of init: the image alone
        decides what it leaves. */
    constructor FromImage(buf: seq<Byte>, known: seq<NativeArg>)
      ensures fresh(amx) && Valid()
      ensures if |buf| < 60 then Untouched(Now()) else LoadedNew(Now(), buf, HeaderOf(buf), known)
    {
      code, data, main, publics, pubvars, natives := [], [], 0, map[], map[], [];
      codeMapped, table := false, EmptyTable();
      var idle := Contiguous(None, 0);
      amx := new Amx(Memory([], idle.Translate, idle.Translate));
      new;
      ghost var before := Now();
      var err;
      ghost var h;
      err, h := Init(buf, known);
      if |buf| >= 60 {
        NewLoaded(before, Now(), buf, h, known, err);
      }
    }
  }
}
