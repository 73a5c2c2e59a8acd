/** The image loader: which byte strings it accepts, what it makes of them, and
    how OP_SYSREQ reaches the natives it resolved. */
module ImageLoader {
  import opened LittleEndian
  import opened Cells
  import opened Memories
  import opened Machine

  datatype LoaderError =
    | LoadSuccess | InvalidFile | UnsupportedFileVersion | UnsupportedAmxVersion
    | FeatureNotSupported | WrongCellSize | NativeNotResolved | Unknown

  /** A native the host offers: its name and the callback behind it. */
  datatype NativeArg = NativeArg(name: seq<Byte>, callback: nat)

  function U16(buf: seq<Byte>, p: nat): nat
    requires p + 2 <= |buf|
  {
    (buf[p] as int) + 256 * (buf[p + 1] as int)
  }

  function U32(buf: seq<Byte>, p: nat): (v: nat)
    requires p + 4 <= |buf|
    ensures v < 0x1_0000_0000
  {
    U16(buf, p) + 0x1_0000 * U16(buf, p + 2)
  }

  lemma U16IsLe(buf: seq<Byte>, p: nat)
    requires p + 2 <= |buf|
    ensures LeValue(buf[p..p + 2]) == U16(buf, p)
  {
    assert buf[p..p + 2] == [buf[p], buf[p + 1]];
    assert [buf[p], buf[p + 1]][1..] == [buf[p + 1]];
    assert LeValue([buf[p + 1]]) == buf[p + 1];
  }

  lemma U32IsLe(buf: seq<Byte>, p: nat)
    requires p + 4 <= |buf|
    ensures LeValue(buf[p..p + 4]) == U32(buf, p)
  {
    U16IsLe(buf, p);
    U16IsLe(buf, p + 2);
    LeConcat(buf[p..p + 2], buf[p + 2..p + 4]);
    assert buf[p..p + 4] == buf[p..p + 2] + buf[p + 2..p + 4];
    assert Pow256(2) == 0x1_0000;
  }

  /** read_le for the two header widths. */
  method ReadU16(buf: seq<Byte>, p: nat) returns (v: nat)
    requires p + 2 <= |buf|
    ensures v == U16(buf, p)
  {
    v := ReadLe(buf, p, 2);
    U16IsLe(buf, p);
  }

  method ReadU32(buf: seq<Byte>, p: nat) returns (v: nat)
    requires p + 4 <= |buf|
    ensures v == U32(buf, p)
  {
    v := ReadLe(buf, p, 4);
    U32IsLe(buf, p);
  }

  // ----- sections and their entries -----

  predicate SectionOk(size: nat, begin: nat, end: nat, entry: nat) {
    entry > 0 && begin <= end <= size && (end - begin) % entry == 0
  }

  function EntryPos(begin: nat, entry: nat, i: nat): nat {
    begin + i * entry
  }

  lemma EntryInside(size: nat, begin: nat, end: nat, entry: nat, i: nat)
    requires SectionOk(size, begin, end, entry) && i < (end - begin) / entry
    ensures begin <= EntryPos(begin, entry, i) && EntryPos(begin, entry, i) + entry <= end
  {
    Whole(end - begin, entry);
    Times(i, 1, entry);
    Times(i + 1, (end - begin) / entry - i - 1, entry);
  }

  lemma Whole(size: nat, entry: nat)
    requires entry > 0 && size % entry == 0
    ensures size == size / entry * entry
  {
  }

  lemma Times(a: nat, b: nat, c: nat)
    ensures (a + b) * c == a * c + b * c && a * c >= 0 && b * c >= 0
  {
  }

  /** The code or data cells in [begin, end). */
  function CellsAt(buf: seq<Byte>, begin: nat, n: nat): (cs: seq<Cell>)
    requires begin + 8 * n <= |buf|
    ensures |cs| == n
  {
    if n == 0 then [] else CellsAt(buf, begin, n - 1) + [CellOf(buf[begin + 8 * (n - 1)..begin + 8 * n])]
  }

  lemma {:induction false} CellsAtIndex(buf: seq<Byte>, begin: nat, n: nat, i: nat)
    requires begin + 8 * n <= |buf| && i < n
    ensures CellsAt(buf, begin, n)[i] == LeValue(buf[begin + 8 * i..begin + 8 * i + 8])
    decreases n
  {
    if i < n - 1 {
      CellsAtIndex(buf, begin, n - 1, i);
    }
  }

  /** The end of a name: the first zero byte from ofs on, or the end of the buffer or beyond. */
  function NameEnd(buf: seq<Byte>, ofs: nat): (e: nat)
    ensures ofs <= e && (ofs < |buf| ==> e <= |buf|)
    ensures forall j :: ofs <= j < e && j < |buf| ==> buf[j] != 0
    ensures e < |buf| ==> buf[e] == 0
    decreases if ofs < |buf| then |buf| - ofs else 0
  {
    if ofs < |buf| && buf[ofs] != 0 then NameEnd(buf, ofs + 1) else ofs
  }

  /** The name of the entry at p, if it is terminated inside the buffer. */
  function NameOf(buf: seq<Byte>, p: nat): (name: Option<seq<Byte>>)
    requires p + 8 <= |buf|
    ensures name.Some? <==> exists j :: U32(buf, p + 4) <= j < |buf| && buf[j] == 0
  {
    var ofs := U32(buf, p + 4);
    var e := NameEnd(buf, ofs);
    if e < |buf| then Some(buf[ofs..e]) else None
  }

  /** A table entry: an address and, if it is terminated, a name. */
  datatype Entry = Entry(address: Cell, name: Option<seq<Byte>>)

  function EntryAt(buf: seq<Byte>, p: nat): Entry
    requires p + 8 <= |buf|
  {
    Entry(U32(buf, p), NameOf(buf, p))
  }

  /** The first n entries of a section. */
  function EntriesOf(buf: seq<Byte>, begin: nat, end: nat, entry: nat, n: nat): (es: seq<Entry>)
    requires SectionOk(|buf|, begin, end, entry) && entry >= 8 && n <= (end - begin) / entry
    ensures |es| == n
  {
    if n == 0 then []
    else
      EntryInside(|buf|, begin, end, entry, n - 1);
      EntriesOf(buf, begin, end, entry, n - 1) + [EntryAt(buf, EntryPos(begin, entry, n - 1))]
  }

  /** All entries of a section. */
  function Section(buf: seq<Byte>, begin: nat, end: nat, entry: nat): seq<Entry>
    requires SectionOk(|buf|, begin, end, entry) && entry >= 8
  {
    EntriesOf(buf, begin, end, entry, (end - begin) / entry)
  }

  lemma {:induction false} EntriesIndex(buf: seq<Byte>, begin: nat, end: nat, entry: nat, n: nat, i: nat)
    requires SectionOk(|buf|, begin, end, entry) && entry >= 8 && i < n <= (end - begin) / entry
    ensures EntryPos(begin, entry, i) + 8 <= |buf|
    ensures EntriesOf(buf, begin, end, entry, n)[i] == EntryAt(buf, EntryPos(begin, entry, i))
    decreases n
  {
    EntryInside(|buf|, begin, end, entry, i);
    if i < n - 1 {
      EntriesIndex(buf, begin, end, entry, n - 1, i);
    }
  }

  // ----- the tables -----

  ghost predicate AllNamed(es: seq<Entry>) {
    forall e :: e in es ==> e.name.Some?
  }

  type Addresses = map<seq<Byte>, Cell>

  /** The names entered one by one on top of an older table; a later entry of the same name wins. */
  function AddressTable(known: Addresses, es: seq<Entry>): Option<Addresses> {
    if es == [] then Some(known)
    else
      var before := AddressTable(known, es[..|es| - 1]);
      var e := es[|es| - 1];
      if before.None? || e.name.None? then None else Some(before.value[e.name.value := e.address])
  }

  /** Entry i is the last one with its name. */
  ghost predicate LastOfName(es: seq<Entry>, i: nat)
    requires i < |es|
  {
    forall j :: i < j < |es| ==> es[j].name != es[i].name
  }

  /** The table exists exactly when every entry is named; then each name maps to the
      address of its last entry, and other names are as before. */
  lemma {:induction false} AddressTableIs(known: Addresses, es: seq<Entry>)
    ensures var t := AddressTable(known, es);
            && (t.Some? <==> AllNamed(es))
            && (t.Some? ==> forall i: nat :: i < |es| && LastOfName(es, i) ==>
                  es[i].name.Some? && es[i].name.value in t.value && t.value[es[i].name.value] == es[i].address)
            && (t.Some? ==> forall name :: (forall e :: e in es ==> e.name != Some(name)) ==>
                  (name in t.value <==> name in known) && (name in known ==> t.value[name] == known[name]))
    decreases |es|
  {
    if es != [] {
      var init, e := es[..|es| - 1], es[|es| - 1];
      AddressTableIs(known, init);
      assert es == init + [e];
      var t := AddressTable(known, es);
      if t.Some? {
        forall i: nat | i < |es| && LastOfName(es, i)
          ensures es[i].name.Some? && es[i].name.value in t.value && t.value[es[i].name.value] == es[i].address
        {
          if i < |es| - 1 {
            assert init[i] == es[i] && es[|es| - 1].name != es[i].name;
            assert LastOfName(init, i) by {
              forall j | i < j < |init| ensures init[j].name != init[i].name { assert init[j] == es[j]; }
            }
          }
        }
      }
    }
  }

  /** What stays entered of a table that fails: the names before the first one without an end. */
  function Entered(known: Addresses, es: seq<Entry>): Addresses {
    var t := AddressTable(known, es);
    if t.Some? then t.value else Entered(known, es[..|es| - 1])
  }

  /** A table on top of an older one is the new table over the old names. So it is the new
      table exactly when the old one has no other names. */
  lemma {:induction false} TableOnTop(known: Addresses, es: seq<Entry>)
    requires AddressTable(map[], es).Some?
    ensures var table := AddressTable(map[], es).value;
            AddressTable(known, es) == Some(known + table) && (known + table == table <==> known.Keys <= table.Keys)
    decreases |es|
  {
    var table := AddressTable(map[], es).value;
    if es == [] {
      assert known + map[] == known;
    } else {
      var before := AddressTable(map[], es[..|es| - 1]).value;
      var e := es[|es| - 1];
      TableOnTop(known, es[..|es| - 1]);
      assert (known + before)[e.name.value := e.address] == known + before[e.name.value := e.address];
    }
    KeysBelow(known, table);
  }

  lemma KeysBelow(a: Addresses, b: Addresses)
    ensures a + b == b <==> a.Keys <= b.Keys
  {
    if a.Keys <= b.Keys {
      assert forall k :: k in a + b <==> k in b;
    } else {
      assert (a + b).Keys != b.Keys;
    }
  }

  /** The callback of the first offered native of that name. */
  function Resolve(known: seq<NativeArg>, name: seq<Byte>): (c: Option<nat>)
    ensures c.Some? <==> exists k :: 0 <= k < |known| && known[k].name == name
    ensures c.Some? ==> exists k :: 0 <= k < |known| && known[k] == NativeArg(name, c.value)
                                    && forall j :: 0 <= j < k ==> known[j].name != name
  {
    if known == [] then None
    else if known[0].name == name then Some(known[0].callback)
    else
      var r := Resolve(known[1..], name);
      assert forall k :: 1 <= k < |known| ==> known[k] == known[1..][k - 1];
      assert r.Some? ==> exists k :: 0 <= k < |known| && known[k].name == name;
      r
  }

  datatype NativeTable = Natives(callbacks: seq<nat>) | BadName | NotOffered

  /** The callbacks of the native entries, or how the first bad one is bad. */
  function ResolveAll(es: seq<Entry>, known: seq<NativeArg>): (r: NativeTable)
    ensures r.Natives? ==> |r.callbacks| == |es|
  {
    if es == [] then Natives([])
    else
      var before := ResolveAll(es[..|es| - 1], known);
      var e := es[|es| - 1];
      if !before.Natives? then before
      else if e.name.None? then BadName
      else
        var c := Resolve(known, e.name.value);
        if c.None? then NotOffered else Natives(before.callbacks + [c.value])
  }

  predicate Offered(e: Entry, known: seq<NativeArg>) {
    e.name.Some? && Resolve(known, e.name.value).Some?
  }

  ghost predicate AllOffered(es: seq<Entry>, known: seq<NativeArg>) {
    forall e :: e in es ==> Offered(e, known)
  }

  /** All natives resolve exactly when every entry is named and offered; then the
      i-th callback is the one offered under the i-th name. */
  lemma {:induction false} ResolveAllIs(es: seq<Entry>, known: seq<NativeArg>)
    ensures var r := ResolveAll(es, known);
            && (r.Natives? <==> AllOffered(es, known))
            && (r.Natives? ==> forall i: nat :: i < |es| ==>
                  Offered(es[i], known) && Resolve(known, es[i].name.value) == Some(r.callbacks[i]))
    decreases |es|
  {
    if es != [] {
      var init, e := es[..|es| - 1], es[|es| - 1];
      ResolveAllIs(init, known);
      assert es == init + [e];
      assert forall i: nat :: i < |init| ==> init[i] == es[i];
      assert AllOffered(es, known) <==> AllOffered(init, known) && Offered(e, known);
    }
  }

  /** What stays pushed of a native table that fails. */
  function Pushed(es: seq<Entry>, known: seq<NativeArg>): (callbacks: seq<nat>) {
    var r := ResolveAll(es, known);
    if r.Natives? then r.callbacks else Pushed(es[..|es| - 1], known)
  }

  /** It is the callbacks of the entries before the first one that is not offered. */
  lemma {:induction false} PushedIs(es: seq<Entry>, known: seq<NativeArg>)
    ensures var cs := Pushed(es, known);
            && |cs| <= |es| && (|cs| < |es| ==> !Offered(es[|cs|], known))
            && forall i :: 0 <= i < |cs| ==> Offered(es[i], known) && Resolve(known, es[i].name.value) == Some(cs[i])
    decreases |es|
  {
    ResolveAllIs(es, known);
    if !ResolveAll(es, known).Natives? {
      PushedIs(es[..|es| - 1], known);
      ResolveAllIs(es[..|es| - 1], known);
    }
  }

  ghost predicate Distinct(cs: seq<nat>) {
    forall i, j :: 0 <= i < j < |cs| ==> cs[i] != cs[j]
  }

  /** Native index i reaches the callback offered under the name of entry i, for every entry. */
  ghost predicate Served(natives: seq<nat>, es: seq<Entry>, known: seq<NativeArg>) {
    |es| <= |natives| && forall i :: 0 <= i < |es| ==> ServedAt(natives[i], es[i], known)
  }

  ghost predicate ServedAt(callback: nat, e: Entry, known: seq<NativeArg>) {
    e.name.Some? && Resolve(known, e.name.value) == Some(callback)
  }

  lemma ServedIs(natives: seq<nat>, es: seq<Entry>, known: seq<NativeArg>)
    requires ResolveAll(es, known).Natives?
    ensures Served(natives, es, known) <==> ResolveAll(es, known).callbacks <= natives
  {
    var cs := ResolveAll(es, known).callbacks;
    ResolveAllIs(es, known);
    forall i: nat | i < |es| && i < |natives|
      ensures ServedAt(natives[i], es[i], known) <==> natives[i] == cs[i]
    {
      assert Offered(es[i], known) && Resolve(known, es[i].name.value) == Some(cs[i]);
    }
    if Served(natives, es, known) {
      assert forall i :: 0 <= i < |es| ==> ServedAt(natives[i], es[i], known);
    }
  }

  lemma BehindExact(left: seq<nat>, cs: seq<nat>)
    requires Distinct(cs)
    ensures cs <= left + cs <==> left == [] || cs <= left
  {
    if left == [] {
      assert left + cs == cs;
    } else if |left| < |cs| {
      assert (left + cs)[|left|] == cs[0] != cs[|left|];
    } else {
      assert (left + cs)[..|cs|] == left[..|cs|];
    }
  }

  /** Entries that all have names fail for want of an offer only. */
  lemma {:induction false} NamedNotBad(es: seq<Entry>, known: seq<NativeArg>)
    requires AllNamed(es)
    ensures !ResolveAll(es, known).BadName?
  {
    if es != [] {
      assert es[|es| - 1] in es;
      NamedNotBad(es[..|es| - 1], known);
    }
  }

  // ----- the header -----

  datatype Header = Header(size: nat, magic: nat, fileVersion: nat, amxVersion: nat, flags: nat, defsize: nat,
                           cod: nat, dat: nat, hea: nat, stp: nat, cip: nat,
                           publics: nat, natives: nat, libraries: nat, pubvars: nat, tags: nat)

  function HeaderOf(buf: seq<Byte>): Header
    requires |buf| >= 60
  {
    Header(U32(buf, 0), U16(buf, 4), buf[6], buf[7], U16(buf, 8), U16(buf, 10),
           U32(buf, 12), U32(buf, 16), U32(buf, 20), U32(buf, 24), U32(buf, 28),
           U32(buf, 32), U32(buf, 36), U32(buf, 40), U32(buf, 44), U32(buf, 48))
  }

  const MAGIC_32 := 0xF1E0
  const MAGIC_64 := 0xF1E1
  const MAGIC_16 := 0xF1E2

  predicate Overlay(flags: nat) {
    flags % 2 == 1
  }

  predicate Sleep(flags: nat) {
    flags / 8 % 2 == 1
  }

  function HeaderVerdict(h: Header, size: nat): LoaderError {
    if h.magic != MAGIC_64 then
      if h.magic == MAGIC_32 || h.magic == MAGIC_16 then WrongCellSize else InvalidFile
    else if h.size > size then InvalidFile
    else if h.fileVersion != 11 then UnsupportedFileVersion
    else if h.amxVersion > 11 then UnsupportedAmxVersion
    else if Overlay(h.flags) || Sleep(h.flags) then FeatureNotSupported
    else if h.defsize < 8 then InvalidFile
    else LoadSuccess
  }

  /** The answer of init up to the mapping of the segments, with the checks in their order. */
  function Verdict(buf: seq<Byte>, known: seq<NativeArg>): LoaderError {
    if |buf| < 60 then InvalidFile else ImageVerdict(buf, HeaderOf(buf), known)
  }

  function ImageVerdict(buf: seq<Byte>, h: Header, known: seq<NativeArg>): LoaderError {
    if HeaderVerdict(h, |buf|) != LoadSuccess then HeaderVerdict(h, |buf|)
    else if !SectionOk(|buf|, h.cod, h.dat, 8) || !SectionOk(|buf|, h.dat, h.hea, 8) then InvalidFile
    else TablesVerdict(buf, h, known)
  }

  function TablesVerdict(buf: seq<Byte>, h: Header, known: seq<NativeArg>): LoaderError
    requires h.defsize >= 8
  {
    if !NamedSection(buf, h.publics, h.natives, h.defsize) then InvalidFile
    else if !SectionOk(|buf|, h.natives, h.libraries, h.defsize) then InvalidFile
    else
      match ResolveAll(Section(buf, h.natives, h.libraries, h.defsize), known)
      case BadName => InvalidFile
      case NotOffered => NativeNotResolved
      case Natives(_) =>
        if h.libraries != h.pubvars then FeatureNotSupported
        else if !NamedSection(buf, h.pubvars, h.tags, h.defsize) then InvalidFile
        else LoadSuccess
  }

  predicate NamedSection(buf: seq<Byte>, begin: nat, end: nat, entry: nat)
    requires entry >= 8
  {
    SectionOk(|buf|, begin, end, entry) && AddressTable(map[], Section(buf, begin, end, entry)).Some?
  }

  /** The tables of a loader. */
  datatype Tables = Tables(publics: Addresses, natives: seq<nat>, pubvars: Addresses)

  function AddressesAfter(known: Addresses, buf: seq<Byte>, begin: nat, end: nat, entry: nat): Addresses
    requires entry >= 8
  {
    if SectionOk(|buf|, begin, end, entry) then Entered(known, Section(buf, begin, end, entry)) else known
  }

  /** The tables after init has gone through their sections, as far as it got. */
  function TablesAfter(t: Tables, buf: seq<Byte>, h: Header, known: seq<NativeArg>): Tables
    requires h.defsize >= 8
  {
    var publics := AddressesAfter(t.publics, buf, h.publics, h.natives, h.defsize);
    if !NamedSection(buf, h.publics, h.natives, h.defsize) || !SectionOk(|buf|, h.natives, h.libraries, h.defsize) then
      t.(publics := publics)
    else
      var es := Section(buf, h.natives, h.libraries, h.defsize);
      var natives := t.natives + Pushed(es, known);
      if !ResolveAll(es, known).Natives? || h.libraries != h.pubvars then Tables(publics, natives, t.pubvars)
      else Tables(publics, natives, AddressesAfter(t.pubvars, buf, h.pubvars, h.tags, h.defsize))
  }

  /** The tables after init of an image with this header, however it ends. */
  function ImageTables(t: Tables, buf: seq<Byte>, h: Header, known: seq<NativeArg>): Tables {
    if HeaderVerdict(h, |buf|) == LoadSuccess && SectionOk(|buf|, h.cod, h.dat, 8) && SectionOk(|buf|, h.dat, h.hea, 8)
    then TablesAfter(t, buf, h, known)
    else t
  }

  /** After a good image they are its tables, over and behind those from before. */
  lemma GoodImageTables(t: Tables, buf: seq<Byte>, h: Header, known: seq<NativeArg>)
    requires GoodImage(buf, h, known)
    ensures var publics := AddressTable(map[], Section(buf, h.publics, h.natives, h.defsize));
            var natives := ResolveAll(Section(buf, h.natives, h.libraries, h.defsize), known);
            var pubvars := AddressTable(map[], Section(buf, h.pubvars, h.tags, h.defsize));
            && publics.Some? && natives.Natives? && pubvars.Some?
            && ImageTables(t, buf, h, known)
               == Tables(t.publics + publics.value, t.natives + natives.callbacks, t.pubvars + pubvars.value)
  {
    var es, fs := Section(buf, h.publics, h.natives, h.defsize), Section(buf, h.pubvars, h.tags, h.defsize);
    AddressTableIs(map[], es);
    AddressTableIs(map[], fs);
    TableOnTop(t.publics, es);
    TableOnTop(t.pubvars, fs);
    ResolveAllIs(Section(buf, h.natives, h.libraries, h.defsize), known);
  }

  const NO_TABLES := Tables(map[], [], map[])

  /** Loading an image on a loader with tables t, which failed loads may have left: the new
      callbacks come behind the old ones. When they are distinct, each native index finds its
      own exactly when nothing was left or what was left begins with the same callbacks. */
  lemma RetryExact(t: Tables, buf: seq<Byte>, h: Header, known: seq<NativeArg>)
    requires GoodImage(buf, h, known)
    ensures var es := Section(buf, h.natives, h.libraries, h.defsize);
            var r := ResolveAll(es, known);
            && r.Natives?
            && (Distinct(r.callbacks) ==>
                  (Served(ImageTables(t, buf, h, known).natives, es, known) <==>
                   t.natives == [] || r.callbacks <= t.natives))
  {
    var es := Section(buf, h.natives, h.libraries, h.defsize);
    GoodImageTables(t, buf, h, known);
    ServedIs(ImageTables(t, buf, h, known).natives, es, known);
    if Distinct(ResolveAll(es, known).callbacks) {
      BehindExact(t.natives, ResolveAll(es, known).callbacks);
    }
  }

  /** Two loads of one image on which that goes wrong: the first without the second native on
      offer, which fails, the other with it, which succeeds. Index 1 then reaches the callback
      of entry 0. */
  lemma RetryGoesWrong(buf: seq<Byte>, h: Header, without: seq<NativeArg>, known: seq<NativeArg>)
    requires GoodImage(buf, h, known) && |Section(buf, h.natives, h.libraries, h.defsize)| >= 2
    requires var es := Section(buf, h.natives, h.libraries, h.defsize);
             && Offered(es[0], without) && Offered(es[0], known) && Offered(es[1], known)
             && !Offered(es[1], without)
             && Resolve(without, es[0].name.value) == Resolve(known, es[0].name.value)
             && Resolve(known, es[0].name.value) != Resolve(known, es[1].name.value)
    ensures ImageVerdict(buf, h, without) == NativeNotResolved && ImageVerdict(buf, h, known) == LoadSuccess
    ensures var es := Section(buf, h.natives, h.libraries, h.defsize);
            var natives := ImageTables(ImageTables(NO_TABLES, buf, h, without), buf, h, known).natives;
            |natives| == 1 + |es| && ServedAt(natives[1], es[0], known) && !Served(natives, es, known)
  {
    var es := Section(buf, h.natives, h.libraries, h.defsize);
    ImageExact(buf, h, known);
    LeftByFailure(buf, h, without, known);
    var t := ImageTables(NO_TABLES, buf, h, without);
    GoodImageTables(t, buf, h, known);
    ResolveAllIs(es, known);
    var cs := ResolveAll(es, known).callbacks;
    assert ImageTables(t, buf, h, known).natives[1] == cs[0];
    assert !ServedAt(cs[0], es[1], known);
  }

  /** Of entries that all have names, the first offered and the second not. */
  lemma SecondMissing(es: seq<Entry>, known: seq<NativeArg>)
    requires |es| >= 2 && AllNamed(es) && Offered(es[0], known) && !Offered(es[1], known)
    ensures ResolveAll(es, known) == NotOffered
    ensures Pushed(es, known) == [Resolve(known, es[0].name.value).value]
  {
    NamedNotBad(es, known);
    ResolveAllIs(es, known);
    assert es[1] in es;
    PushedIs(es, known);
    assert |Pushed(es, known)| == 1;
  }

  /** A load of the image gets as far as its natives. */
  predicate ReachesNatives(buf: seq<Byte>, h: Header) {
    && HeaderVerdict(h, |buf|) == LoadSuccess && h.defsize >= 8
    && SectionOk(|buf|, h.cod, h.dat, 8) && SectionOk(|buf|, h.dat, h.hea, 8)
    && NamedSection(buf, h.publics, h.natives, h.defsize) && SectionOk(|buf|, h.natives, h.libraries, h.defsize)
  }

  lemma GoodReaches(buf: seq<Byte>, h: Header, known: seq<NativeArg>)
    requires GoodImage(buf, h, known)
    ensures ReachesNatives(buf, h) && AllNamed(Section(buf, h.natives, h.libraries, h.defsize))
  {
    AddressTableIs(map[], Section(buf, h.publics, h.natives, h.defsize));
    assert forall e :: e in Section(buf, h.natives, h.libraries, h.defsize) ==> Offered(e, known);
  }

  lemma FailsAtNatives(buf: seq<Byte>, h: Header, known: seq<NativeArg>)
    requires ReachesNatives(buf, h)
    requires ResolveAll(Section(buf, h.natives, h.libraries, h.defsize), known) == NotOffered
    ensures ImageVerdict(buf, h, known) == NativeNotResolved
    ensures ImageTables(NO_TABLES, buf, h, known).natives
         == Pushed(Section(buf, h.natives, h.libraries, h.defsize), known)
  {
    var es := Section(buf, h.natives, h.libraries, h.defsize);
    assert [] + Pushed(es, known) == Pushed(es, known);
  }

  /** The first of the two loads pushes the first callback and then fails. */
  lemma LeftByFailure(buf: seq<Byte>, h: Header, without: seq<NativeArg>, known: seq<NativeArg>)
    requires GoodImage(buf, h, known) && |Section(buf, h.natives, h.libraries, h.defsize)| >= 2
    requires var es := Section(buf, h.natives, h.libraries, h.defsize);
             Offered(es[0], without) && !Offered(es[1], without)
    ensures var es := Section(buf, h.natives, h.libraries, h.defsize);
            && ImageVerdict(buf, h, without) == NativeNotResolved
            && ImageTables(NO_TABLES, buf, h, without).natives == [Resolve(without, es[0].name.value).value]
  {
    GoodReaches(buf, h, known);
    SecondMissing(Section(buf, h.natives, h.libraries, h.defsize), without);
    FailsAtNatives(buf, h, without);
  }

  // ----- the two loads on an actual image -----

  /** An image of 80 bytes: the header, two native entries, and their names "a" and "b". */
  const TWO_NATIVES: seq<Byte> :=
    [80, 0, 0, 0, 0xE1, 0xF1, 11, 11, 0, 0, 8, 0]
    + [80, 0, 0, 0, 80, 0, 0, 0, 80, 0, 0, 0, 80, 0, 0, 0, 0xFF, 0xFF, 0xFF, 0xFF]
    + [60, 0, 0, 0, 60, 0, 0, 0, 76, 0, 0, 0, 76, 0, 0, 0, 76, 0, 0, 0, 0, 0, 0, 0, 0, 0, 0, 0]
    + [0, 0, 0, 0, 76, 0, 0, 0, 0, 0, 0, 0, 78, 0, 0, 0]
    + [97, 0, 98, 0]

  const TWO_HEADER := Header(80, MAGIC_64, 11, 11, 0, 8, 80, 80, 80, 80, 0xFFFF_FFFF, 60, 60, 76, 76, 76)

  lemma TwoHeader()
    ensures |TWO_NATIVES| == 80 && HeaderOf(TWO_NATIVES) == TWO_HEADER
  {
  }

  lemma ShortName(buf: seq<Byte>, p: nat, ofs: nat)
    requires p + 8 <= |buf| && U32(buf, p) == 0 && U32(buf, p + 4) == ofs
    requires ofs + 1 < |buf| && buf[ofs] != 0 && buf[ofs + 1] == 0
    ensures EntryAt(buf, p) == Entry(0, Some([buf[ofs]]))
  {
    assert NameEnd(buf, ofs) == ofs + 1;
    assert buf[ofs..ofs + 1] == [buf[ofs]];
  }

  lemma TwoEntries(buf: seq<Byte>, begin: nat)
    requires begin + 16 <= |buf|
    ensures Section(buf, begin, begin + 16, 8) == [EntryAt(buf, begin), EntryAt(buf, begin + 8)]
  {
    assert EntryPos(begin, 8, 0) == begin && EntryPos(begin, 8, 1) == begin + 8;
    assert EntriesOf(buf, begin, begin + 16, 8, 0) == [];
    assert EntriesOf(buf, begin, begin + 16, 8, 1) == [EntryAt(buf, begin)];
  }

  const ENTRY_A := Entry(0, Some([97]))

  const ENTRY_B := Entry(0, Some([98]))

  lemma TwoSection()
    ensures |TWO_NATIVES| == 80 && Section(TWO_NATIVES, 60, 76, 8) == [ENTRY_A, ENTRY_B]
  {
    var buf := TWO_NATIVES;
    assert buf[76] == 97 && buf[77] == 0 && buf[78] == 98 && buf[79] == 0;
    ShortName(buf, 60, 76);
    ShortName(buf, 68, 78);
    TwoEntries(buf, 60);
  }

  /** What an image with that header and those entries needs. */
  lemma TwoGood(buf: seq<Byte>, known: seq<NativeArg>)
    requires |buf| == 80 && Section(buf, 60, 76, 8) == [ENTRY_A, ENTRY_B]
    requires Offered(ENTRY_A, known) && Offered(ENTRY_B, known)
    ensures GoodImage(buf, TWO_HEADER, known)
  {
    assert Section(buf, 60, 60, 8) == [] && Section(buf, 76, 76, 8) == [];
  }

  lemma TwoOffers(a: nat, b: nat)
    ensures var first, second := NativeArg([97], a), NativeArg([98], b);
            && Resolve([first], [97]) == Some(a) && Resolve([first], [98]) == None
            && Resolve([first, second], [97]) == Some(a) && Resolve([first, second], [98]) == Some(b)
  {
    var first, second := NativeArg([97], a), NativeArg([98], b);
    assert [first, second][1..] == [second] && [first][1..] == [];
  }

  /** Loaded first with "a" alone on offer and then with both, it calls "a" for "b". */
  lemma RetryInput(a: nat, b: nat)
    requires a != b
    ensures var first, second := NativeArg([97], a), NativeArg([98], b);
            && |TWO_NATIVES| == 80 && HeaderOf(TWO_NATIVES) == TWO_HEADER
            && ImageVerdict(TWO_NATIVES, TWO_HEADER, [first]) == NativeNotResolved
            && ImageVerdict(TWO_NATIVES, TWO_HEADER, [first, second]) == LoadSuccess
            && var t := ImageTables(NO_TABLES, TWO_NATIVES, TWO_HEADER, [first]);
               ImageTables(t, TWO_NATIVES, TWO_HEADER, [first, second]).natives == [a, a, b]
  {
    TwoHeader();
    TwoSection();
    TwoRetry(TWO_NATIVES, a, b);
  }

  lemma TwoRetry(buf: seq<Byte>, a: nat, b: nat)
    requires |buf| == 80 && Section(buf, 60, 76, 8) == [ENTRY_A, ENTRY_B] && a != b
    ensures var first, second := NativeArg([97], a), NativeArg([98], b);
            && ImageVerdict(buf, TWO_HEADER, [first]) == NativeNotResolved
            && ImageVerdict(buf, TWO_HEADER, [first, second]) == LoadSuccess
            && var t := ImageTables(NO_TABLES, buf, TWO_HEADER, [first]);
               ImageTables(t, buf, TWO_HEADER, [first, second]).natives == [a, a, b]
  {
    var first, second := NativeArg([97], a), NativeArg([98], b);
    TwoOffers(a, b);
    TwoGood(buf, [first, second]);
    RetryGoesWrong(buf, TWO_HEADER, [first], [first, second]);
    LeftByFailure(buf, TWO_HEADER, [first], [first, second]);
    var t := ImageTables(NO_TABLES, buf, TWO_HEADER, [first]);
    GoodImageTables(t, buf, TWO_HEADER, [first, second]);
    ResolveAllIs([ENTRY_A, ENTRY_B], [first, second]);
    assert ResolveAll([ENTRY_A, ENTRY_B], [first, second]).callbacks == [a, b];
  }

  /** What acceptable tables are. */
  ghost predicate GoodTables(buf: seq<Byte>, h: Header, known: seq<NativeArg>)
    requires h.defsize >= 8
  {
    && SectionOk(|buf|, h.publics, h.natives, h.defsize)
    && SectionOk(|buf|, h.natives, h.libraries, h.defsize)
    && SectionOk(|buf|, h.pubvars, h.tags, h.defsize)
    && h.libraries == h.pubvars
    && AllNamed(Section(buf, h.publics, h.natives, h.defsize))
    && AllOffered(Section(buf, h.natives, h.libraries, h.defsize), known)
    && AllNamed(Section(buf, h.pubvars, h.tags, h.defsize))
  }

  /** What acceptable contents are, check order aside. */
  ghost predicate GoodImage(buf: seq<Byte>, h: Header, known: seq<NativeArg>) {
    && h.magic == MAGIC_64 && h.size <= |buf| && h.fileVersion == 11 && h.amxVersion <= 11
    && !Overlay(h.flags) && !Sleep(h.flags) && h.defsize >= 8
    && SectionOk(|buf|, h.cod, h.dat, 8) && SectionOk(|buf|, h.dat, h.hea, 8)
    && GoodTables(buf, h, known)
  }

  ghost predicate WellFormed(buf: seq<Byte>, known: seq<NativeArg>) {
    |buf| >= 60 && GoodImage(buf, HeaderOf(buf), known)
  }

  /** The loader accepts exactly the well-formed images. */
  lemma VerdictExact(buf: seq<Byte>, known: seq<NativeArg>)
    ensures Verdict(buf, known) == LoadSuccess <==> WellFormed(buf, known)
  {
    if |buf| >= 60 {
      ImageExact(buf, HeaderOf(buf), known);
    }
  }

  lemma ImageExact(buf: seq<Byte>, h: Header, known: seq<NativeArg>)
    ensures ImageVerdict(buf, h, known) == LoadSuccess <==> GoodImage(buf, h, known)
  {
    if h.defsize >= 8 {
      TablesExact(buf, h, known);
    }
  }

  lemma TablesExact(buf: seq<Byte>, h: Header, known: seq<NativeArg>)
    requires h.defsize >= 8
    ensures TablesVerdict(buf, h, known) == LoadSuccess <==> GoodTables(buf, h, known)
  {
    if SectionOk(|buf|, h.publics, h.natives, h.defsize) {
      AddressTableIs(map[], Section(buf, h.publics, h.natives, h.defsize));
    }
    if SectionOk(|buf|, h.natives, h.libraries, h.defsize) {
      ResolveAllIs(Section(buf, h.natives, h.libraries, h.defsize), known);
    }
    if SectionOk(|buf|, h.pubvars, h.tags, h.defsize) {
      AddressTableIs(map[], Section(buf, h.pubvars, h.tags, h.defsize));
    }
  }

  // ----- the image -----

  /** Cells reserved past the initialised data, from the 32-bit difference of stp and hea. */
  function ExtraCells(h: Header): nat {
    ((h.stp - h.hea) % 0x1_0000_0000 + 7) / 8
  }

  function Zeros(n: nat): (z: seq<Cell>)
    ensures |z| == n && forall k :: 0 <= k < n ==> z[k] == 0
  {
    seq(n, _ => 0)
  }

  function CodeOf(buf: seq<Byte>, h: Header): seq<Cell>
    requires SectionOk(|buf|, h.cod, h.dat, 8)
  {
    CellsAt(buf, h.cod, (h.dat - h.cod) / 8)
  }

  function DataOf(buf: seq<Byte>, h: Header): seq<Cell>
    requires SectionOk(|buf|, h.dat, h.hea, 8)
  {
    CellsAt(buf, h.dat, (h.hea - h.dat) / 8) + Zeros(ExtraCells(h))
  }

  /** _main: the entry point, or zero for none. */
  function MainOf(h: Header): nat {
    if h.cip == 0xFFFF_FFFF then 0 else h.cip
  }
}
