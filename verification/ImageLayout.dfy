/** Where an image keeps what: the header fields at their bytes, the answer of init by
    their values, and the machine that the bytes become. */
module ImageLayout {
  import opened LittleEndian
  import opened Cells
  import opened Memories
  import opened Machine
  import opened RunInvariant
  import opened Simulation
  import opened CallDiscipline
  import opened ImageLoader
  import opened LoaderObject
  import opened Dispatch

  // ----- the header -----

  /** Every field fits the width it has in the file. */
  predicate Narrow(h: Header) {
    && h.magic < 0x1_0000 && h.fileVersion < 0x100 && h.amxVersion < 0x100 && h.flags < 0x1_0000 && h.defsize < 0x1_0000
    && h.size < 0x1_0000_0000 && h.cod < 0x1_0000_0000 && h.dat < 0x1_0000_0000 && h.hea < 0x1_0000_0000
    && h.stp < 0x1_0000_0000 && h.cip < 0x1_0000_0000 && h.publics < 0x1_0000_0000 && h.natives < 0x1_0000_0000
    && h.libraries < 0x1_0000_0000 && h.pubvars < 0x1_0000_0000 && h.tags < 0x1_0000_0000
  }

  /** The value in the given number of bytes from byte p on, the least significant one first. */
  predicate Le(buf: seq<Byte>, p: nat, width: nat, value: nat) {
    p + width <= |buf| && buf[p..p + width] == LeBytes(value, width)
  }

  /** The fields of the header at their places in the file. */
  predicate HeaderBytes(buf: seq<Byte>, h: Header) {
    && Le(buf, 0, 4, h.size) && Le(buf, 4, 2, h.magic) && Le(buf, 6, 1, h.fileVersion) && Le(buf, 7, 1, h.amxVersion)
    && Le(buf, 8, 2, h.flags) && Le(buf, 10, 2, h.defsize)
    && Le(buf, 12, 4, h.cod) && Le(buf, 16, 4, h.dat) && Le(buf, 20, 4, h.hea) && Le(buf, 24, 4, h.stp)
    && Le(buf, 28, 4, h.cip) && Le(buf, 32, 4, h.publics) && Le(buf, 36, 4, h.natives)
    && Le(buf, 40, 4, h.libraries) && Le(buf, 44, 4, h.pubvars) && Le(buf, 48, 4, h.tags)
  }

  /** A field is there exactly when its bytes have its value. */
  lemma FieldIs(buf: seq<Byte>, p: nat, width: nat, value: nat)
    requires p + width <= |buf| && value < Pow256(width)
    ensures Le(buf, p, width, value) <==> LeValue(buf[p..p + width]) == value
  {
    ValueOfBytes(value, width);
    BytesOfValue(buf[p..p + width]);
  }

  lemma Field1(buf: seq<Byte>, p: nat, v: nat)
    requires p < |buf| && v < 0x100
    ensures Le(buf, p, 1, v) <==> buf[p] == v
  {
    FieldIs(buf, p, 1, v);
    assert buf[p..p + 1] == [buf[p]] && [buf[p]][1..] == [];
  }

  lemma Field2(buf: seq<Byte>, p: nat, v: nat)
    requires p + 2 <= |buf| && v < 0x1_0000
    ensures Le(buf, p, 2, v) <==> U16(buf, p) == v
  {
    assert Pow256(2) == 0x1_0000;
    FieldIs(buf, p, 2, v);
    U16IsLe(buf, p);
  }

  lemma Field4(buf: seq<Byte>, p: nat, v: nat)
    requires p + 4 <= |buf| && v < 0x1_0000_0000
    ensures Le(buf, p, 4, v) <==> U32(buf, p) == v
  {
    assert Pow256(4) == 256 * (256 * (256 * (256 * Pow256(0))));
    FieldIs(buf, p, 4, v);
    U32IsLe(buf, p);
  }

  /** The loader reads from a buffer exactly the header whose fields are at their places. */
  lemma HeaderExact(buf: seq<Byte>, h: Header)
    requires |buf| >= 60 && Narrow(h)
    ensures HeaderOf(buf) == h <==> HeaderBytes(buf, h)
  {
    Field4(buf, 0, h.size);
    Field2(buf, 4, h.magic);
    Field1(buf, 6, h.fileVersion);
    Field1(buf, 7, h.amxVersion);
    Field2(buf, 8, h.flags);
    Field2(buf, 10, h.defsize);
    Field4(buf, 12, h.cod);
    Field4(buf, 16, h.dat);
    Field4(buf, 20, h.hea);
    Field4(buf, 24, h.stp);
    Field4(buf, 28, h.cip);
    Field4(buf, 32, h.publics);
    Field4(buf, 36, h.natives);
    Field4(buf, 40, h.libraries);
    Field4(buf, 44, h.pubvars);
    Field4(buf, 48, h.tags);
  }

  // ----- table entries -----

  /** An entry is an address and the offset of a name that ends before the first zero byte. */
  ghost predicate EntryBytes(buf: seq<Byte>, p: nat, e: Entry, ofs: nat) {
    && e.address < 0x1_0000_0000 && Le(buf, p, 4, e.address) && Le(buf, p + 4, 4, ofs)
    && match e.name
       case Some(name) =>
         ofs + |name| < |buf| && buf[ofs..ofs + |name|] == name && 0 !in name && buf[ofs + |name|] == 0
       case None => forall j :: ofs <= j < |buf| ==> buf[j] != 0
  }

  lemma EntryIs(buf: seq<Byte>, p: nat) returns (ofs: nat)
    requires p + 8 <= |buf|
    ensures EntryBytes(buf, p, EntryAt(buf, p), ofs)
  {
    ofs := U32(buf, p + 4);
    Field4(buf, p, U32(buf, p));
    Field4(buf, p + 4, ofs);
    if NameOf(buf, p).Some? {
      assert |NameOf(buf, p).value| == NameEnd(buf, ofs) - ofs;
    }
  }

  /** Entry i of a section lies i entries behind its start. */
  lemma SectionBytes(buf: seq<Byte>, begin: nat, end: nat, entry: nat, i: nat)
    returns (p: nat, ofs: nat)
    requires SectionOk(|buf|, begin, end, entry) && entry >= 8 && i < (end - begin) / entry
    ensures i < |Section(buf, begin, end, entry)| && |Section(buf, begin, end, entry)| == (end - begin) / entry
    ensures p == begin + i * entry && EntryBytes(buf, p, Section(buf, begin, end, entry)[i], ofs)
  {
    EntriesIndex(buf, begin, end, entry, (end - begin) / entry, i);
    p := EntryPos(begin, entry, i);
    ofs := EntryIs(buf, p);
  }

  // ----- the answer of init -----

  /** The checks of the header by its values, in the order of the answers. */
  predicate HeaderAnswers(h: Header, size: nat, v: LoaderError) {
    if h.magic != 0xF1E1 then v == (if h.magic == 0xF1E0 || h.magic == 0xF1E2 then WrongCellSize else InvalidFile)
    else if h.size > size then v == InvalidFile
    else if h.fileVersion != 11 then v == UnsupportedFileVersion
    else if h.amxVersion > 11 then v == UnsupportedAmxVersion
    else if h.flags % 2 == 1 || h.flags % 16 >= 8 then v == FeatureNotSupported
    else if h.defsize < 8 then v == InvalidFile
    else v == FeatureNotSupported || v == NativeNotResolved || v == InvalidFile || v == LoadSuccess
  }

  /** A header with nothing to refuse. */
  predicate HeaderFine(h: Header, size: nat) {
    && h.magic == 0xF1E1 && h.size <= size && h.fileVersion == 11 && h.amxVersion <= 11
    && h.flags % 2 == 0 && h.flags % 16 < 8 && h.defsize >= 8
  }

  /** Bits 0 and 3 of the flags. */
  lemma FlagBits(flags: nat)
    ensures Overlay(flags) || Sleep(flags) <==> flags % 2 == 1 || flags % 16 >= 8
  {
    var q, r := flags / 16, flags % 16;
    assert flags == 16 * q + r && flags / 8 == 2 * q + r / 8;
  }

  lemma FineIs(h: Header, size: nat)
    ensures HeaderVerdict(h, size) == LoadSuccess <==> HeaderFine(h, size)
  {
    FlagBits(h.flags);
  }

  /** The checks behind the header in the order of the answers: code and data first. */
  ghost predicate TablesAnswers(buf: seq<Byte>, h: Header, known: seq<NativeArg>, v: LoaderError)
    requires h.defsize >= 8
  {
    if !(h.cod <= h.dat <= h.hea <= |buf|) || (h.dat - h.cod) % 8 != 0 || (h.hea - h.dat) % 8 != 0 then
      v == InvalidFile
    else if !AllNamedAt(buf, h.publics, h.natives, h.defsize) || !SectionOk(|buf|, h.natives, h.libraries, h.defsize)
    then v == InvalidFile
    else NativesAnswer(buf, h, Section(buf, h.natives, h.libraries, h.defsize), known, v)
  }

  /** The natives, then a library table, then the names of the public variables. */
  ghost predicate NativesAnswer(buf: seq<Byte>, h: Header, es: seq<Entry>, known: seq<NativeArg>, v: LoaderError)
    requires h.defsize >= 8
  {
    if !AllOffered(es, known) then exists i :: FirstNotOffered(es, known, i, v)
    else if h.libraries != h.pubvars then v == FeatureNotSupported
    else if !AllNamedAt(buf, h.pubvars, h.tags, h.defsize) then v == InvalidFile
    else v == LoadSuccess
  }

  ghost predicate AllNamedAt(buf: seq<Byte>, begin: nat, end: nat, entry: nat)
    requires entry >= 8
  {
    SectionOk(|buf|, begin, end, entry) && AllNamed(Section(buf, begin, end, entry))
  }

  /** The first native that is not offered says how: nobody offers its name, or it has none. */
  ghost predicate FirstNotOffered(es: seq<Entry>, known: seq<NativeArg>, i: nat, v: LoaderError) {
    && i < |es| && !Offered(es[i], known) && (forall j :: 0 <= j < i ==> Offered(es[j], known))
    && v == if es[i].name.Some? then NativeNotResolved else InvalidFile
  }

  lemma {:induction false} BadNative(es: seq<Entry>, known: seq<NativeArg>) returns (i: nat)
    requires !ResolveAll(es, known).Natives?
    ensures FirstNotOffered(es, known, i, if ResolveAll(es, known).NotOffered? then NativeNotResolved else InvalidFile)
    decreases |es|
  {
    var init := es[..|es| - 1];
    ResolveAllIs(init, known);
    if ResolveAll(init, known).Natives? {
      i := |init|;
      assert forall j :: 0 <= j < i ==> init[j] == es[j] && init[j] in init;
    } else {
      i := BadNative(init, known);
      assert forall j :: 0 <= j <= i ==> init[j] == es[j];
    }
  }

  lemma NamedIs(buf: seq<Byte>, begin: nat, end: nat, entry: nat)
    requires entry >= 8
    ensures NamedSection(buf, begin, end, entry) <==> AllNamedAt(buf, begin, end, entry)
  {
    if SectionOk(|buf|, begin, end, entry) {
      AddressTableIs(map[], Section(buf, begin, end, entry));
    }
  }

  lemma NativesAnswered(buf: seq<Byte>, h: Header, es: seq<Entry>, known: seq<NativeArg>, v: LoaderError)
    requires h.defsize >= 8
    requires v == match ResolveAll(es, known)
      case BadName => InvalidFile
      case NotOffered => NativeNotResolved
      case Natives(_) =>
        if h.libraries != h.pubvars then FeatureNotSupported
        else if !NamedSection(buf, h.pubvars, h.tags, h.defsize) then InvalidFile else LoadSuccess
    ensures NativesAnswer(buf, h, es, known, v)
  {
    NamedIs(buf, h.pubvars, h.tags, h.defsize);
    ResolveAllIs(es, known);
    if !AllOffered(es, known) {
      var i := BadNative(es, known);
    }
  }

  lemma SegmentsFine(h: Header, size: nat)
    ensures SectionOk(size, h.cod, h.dat, 8) && SectionOk(size, h.dat, h.hea, 8) <==>
            h.cod <= h.dat <= h.hea <= size && (h.dat - h.cod) % 8 == 0 && (h.hea - h.dat) % 8 == 0
  {
  }

  lemma TablesAnswer(buf: seq<Byte>, h: Header, known: seq<NativeArg>)
    requires HeaderFine(h, |buf|)
    ensures TablesAnswers(buf, h, known, ImageVerdict(buf, h, known))
  {
    FineIs(h, |buf|);
    SegmentsFine(h, |buf|);
    if SectionOk(|buf|, h.cod, h.dat, 8) && SectionOk(|buf|, h.dat, h.hea, 8) {
      NamedIs(buf, h.publics, h.natives, h.defsize);
      if AllNamedAt(buf, h.publics, h.natives, h.defsize) && SectionOk(|buf|, h.natives, h.libraries, h.defsize) {
        NativesAnswered(buf, h, Section(buf, h.natives, h.libraries, h.defsize), known, TablesVerdict(buf, h, known));
      }
    }
  }

  lemma HeaderAnswer(buf: seq<Byte>, h: Header, known: seq<NativeArg>)
    ensures HeaderAnswers(h, |buf|, ImageVerdict(buf, h, known))
  {
    FlagBits(h.flags);
  }

  /** The answer of init, by the values at their places in the image. */
  lemma AnswerIs(buf: seq<Byte>, h: Header, known: seq<NativeArg>)
    requires |buf| >= 60 && Narrow(h) && HeaderBytes(buf, h)
    ensures HeaderAnswers(h, |buf|, Verdict(buf, known))
    ensures HeaderFine(h, |buf|) ==> TablesAnswers(buf, h, known, Verdict(buf, known))
  {
    HeaderExact(buf, h);
    HeaderAnswer(buf, h, known);
    if HeaderFine(h, |buf|) {
      TablesAnswer(buf, h, known);
    }
  }

  // ----- what a load leaves in the tables -----

  /** A table that fails keeps the names before the first entry without one. */
  lemma {:induction false} EnteredIs(t: Addresses, es: seq<Entry>) returns (n: nat)
    ensures n <= |es| && (n < |es| ==> es[n].name.None?) && forall j :: 0 <= j < n ==> es[j].name.Some?
    ensures AddressTable(t, es[..n]) == Some(Entered(t, es))
    decreases |es|
  {
    AddressTableIs(t, es);
    if AddressTable(t, es).Some? {
      n := |es|;
      assert es[..n] == es;
      assert forall j :: 0 <= j < n ==> es[j] in es;
    } else {
      var init := es[..|es| - 1];
      n := EnteredIs(t, init);
      assert forall j :: 0 <= j < |init| ==> init[j] == es[j];
      assert init[..n] == es[..n];
      if n == |init| {
        assert AddressTable(t, init).Some?;
      }
    }
  }

  /** Whatever the answer, a load of an image with a good header and good segments enters the
      publics up to the first without a name; it comes to the natives when all have one, and
      pushes the callbacks before the first that is not offered; it comes to the public
      variables when all are offered and there is no library table. */
  lemma TablesLeft(t: Tables, buf: seq<Byte>, h: Header, known: seq<NativeArg>)
    requires HeaderFine(h, |buf|) && SectionOk(|buf|, h.cod, h.dat, 8) && SectionOk(|buf|, h.dat, h.hea, 8)
    ensures var t' := ImageTables(t, buf, h, known);
            if !SectionOk(|buf|, h.publics, h.natives, h.defsize) then t' == t
            else
              var es := Section(buf, h.publics, h.natives, h.defsize);
              && t'.publics == Entered(t.publics, es)
              && if !AllNamed(es) || !SectionOk(|buf|, h.natives, h.libraries, h.defsize) then
                   t'.natives == t.natives && t'.pubvars == t.pubvars
                 else
                   var ns := Section(buf, h.natives, h.libraries, h.defsize);
                   && t'.natives == t.natives + ImageLoader.Pushed(ns, known)
                   && t'.pubvars ==
                      if !AllOffered(ns, known) || h.libraries != h.pubvars
                         || !SectionOk(|buf|, h.pubvars, h.tags, h.defsize) then t.pubvars
                      else Entered(t.pubvars, Section(buf, h.pubvars, h.tags, h.defsize))
  {
    FineIs(h, |buf|);
    NamedIs(buf, h.publics, h.natives, h.defsize);
    if SectionOk(|buf|, h.natives, h.libraries, h.defsize) {
      ResolveAllIs(Section(buf, h.natives, h.libraries, h.defsize), known);
    }
  }

  /** Any other load leaves them alone. */
  lemma TablesKept(t: Tables, buf: seq<Byte>, h: Header, known: seq<NativeArg>)
    requires !HeaderFine(h, |buf|) || !SectionOk(|buf|, h.cod, h.dat, 8) || !SectionOk(|buf|, h.dat, h.hea, 8)
    ensures ImageTables(t, buf, h, known) == t
  {
    FineIs(h, |buf|);
  }

  // ----- the machine -----

  /** The cell whose bytes start at p. */
  function Word(buf: seq<Byte>, p: nat): nat
    requires p + 8 <= |buf|
  {
    LeValue(buf[p..p + 8])
  }

  /** The code of the machine is the image's words from byte begin up to end, and nothing else. */
  ghost predicate CodeLaid(m: Vm, buf: seq<Byte>, begin: nat, end: nat) {
    && begin <= end <= |buf| && end < 0x1_0000_0000
    && (forall k :: 0 <= k < (end - begin) / 8 ==> CodeAt(m, 8 * k) == Some(Word(buf, begin + 8 * k)))
    && (forall v: Cell :: v >= end - begin ==> CodeAt(m, v) == None)
  }

  /** The data of the machine is the image's words from byte begin up to end, and then zeros. */
  ghost predicate DataLaid(m: Vm, l: Layout, buf: seq<Byte>, begin: nat, end: nat) {
    && begin <= end <= |buf| && end - begin <= 8 * l.dataLen && Segment(m, l)
    && forall k :: 0 <= k < l.dataLen ==>
         CellAt(m.mem.host, l.data, k) == if k < (end - begin) / 8 then Word(buf, begin + 8 * k) else 0
  }

  /** What data addresses read is the cell of their number. */
  lemma DataLaidAt(m: Vm, l: Layout, k: nat)
    requires Segment(m, l) && k < l.dataLen
    ensures InSegment(l, 8 * k) && At(m, l, 8 * k) == CellAt(m.mem.host, l.data, k)
  {
  }

  lemma CodeWord(s: Vm, buf: seq<Byte>, h: Header, k: nat)
    requires SectionOk(|buf|, h.cod, h.dat, 8) && SectionOk(|buf|, h.dat, h.hea, 8) && Narrow(h)
    requires k < (h.dat - h.cod) / 8
    ensures CodeAt(Booted(s, CodeOf(buf, h), DataOf(buf, h), (h.hea - h.dat) / 8), 8 * k)
         == Some(Word(buf, h.cod + 8 * k))
  {
    DataFits(buf, h);
    CellsAtIndex(buf, h.cod, (h.dat - h.cod) / 8, k);
    LoadedCode(s, CodeOf(buf, h), DataOf(buf, h), (h.hea - h.dat) / 8, k);
  }

  lemma CodeEnds(s: Vm, code: seq<Cell>, data: seq<Cell>, heap: nat, v: Cell)
    requires |data| <= 0x8000_0000 && v >= 8 * |code|
    ensures CodeAt(Booted(s, code, data, heap), v) == None
  {
    LoadedTranslation(s, code, data, heap, v);
    assert Plus(0, v) == v;
  }

  lemma CodeLaidBy(s: Vm, buf: seq<Byte>, h: Header, m: Vm)
    requires SectionOk(|buf|, h.cod, h.dat, 8) && SectionOk(|buf|, h.dat, h.hea, 8) && Narrow(h)
    requires m == Booted(s, CodeOf(buf, h), DataOf(buf, h), (h.hea - h.dat) / 8)
    ensures CodeLaid(m, buf, h.cod, h.dat)
  {
    forall k | 0 <= k < (h.dat - h.cod) / 8
      ensures CodeAt(m, 8 * k) == Some(Word(buf, h.cod + 8 * k))
    {
      CodeWord(s, buf, h, k);
    }
    forall v: Cell | v >= h.dat - h.cod
      ensures CodeAt(m, v) == None
    {
      DataFits(buf, h);
      CodeEnds(s, CodeOf(buf, h), DataOf(buf, h), (h.hea - h.dat) / 8, v);
    }
  }

  lemma DataWord(buf: seq<Byte>, h: Header, k: nat)
    requires SectionOk(|buf|, h.dat, h.hea, 8) && k < |DataOf(buf, h)|
    ensures DataOf(buf, h)[k] == if k < (h.hea - h.dat) / 8 then Word(buf, h.dat + 8 * k) else 0
  {
    if k < (h.hea - h.dat) / 8 {
      CellsAtIndex(buf, h.dat, (h.hea - h.dat) / 8, k);
    }
  }

  lemma DataLaidBy(m: Vm, l: Layout, buf: seq<Byte>, h: Header)
    requires SectionOk(|buf|, h.dat, h.hea, 8) && Segment(m, l)
    requires l.dataLen == |DataOf(buf, h)| && m.mem.host[l.data..l.data + l.dataLen] == DataOf(buf, h)
    ensures DataLaid(m, l, buf, h.dat, h.hea)
  {
    var data := DataOf(buf, h);
    forall k | 0 <= k < l.dataLen
      ensures CellAt(m.mem.host, l.data, k) == data[k]
      ensures data[k] == if k < (h.hea - h.dat) / 8 then Word(buf, h.dat + 8 * k) else 0
    {
      assert m.mem.host[l.data..l.data + l.dataLen][k] == data[k];
      DataWord(buf, h, k);
    }
  }

  /** The span from hea to stp in the 32 bits of the header. */
  function Span(h: Header): int {
    if h.stp >= h.hea then h.stp - h.hea else h.stp - h.hea + 0x1_0000_0000
  }

  lemma SpanCovered(h: Header)
    requires Narrow(h)
    ensures Span(h) <= 8 * ExtraCells(h) < Span(h) + 8
  {
    assert (h.stp - h.hea) % 0x1_0000_0000 == Span(h);
  }

  /** What an accepted image leaves on a new loader: the code from the bytes [cod, dat), the
      data from the bytes [dat, hea), and zeros for as many cells as cover the span up to stp. */
  ghost predicate LaidOut(m: Vm, l: Layout, buf: seq<Byte>, h: Header) {
    && CodeLaid(m, buf, h.cod, h.dat) && DataLaid(m, l, buf, h.dat, h.hea)
    && Span(h) <= 8 * l.dataLen - (h.hea - h.dat) < Span(h) + 8
    && RegistersSet(m, h.hea - h.dat, l.dataLen)
  }

  /** The heap after the image's own data, the stack at the last cell; the other registers are zero. */
  predicate RegistersSet(m: Vm, heap: nat, cells: nat) {
    && m.cod == 0 && m.hea == heap && m.pri == 0 && m.alt == 0 && m.frm == 0 && m.cip == 0
    && m.stk == m.stp && m.stk == if cells > 0 then 8 * cells - 8 else 0xFFFF_FFFF_FFFF_FFF8
  }

  lemma StartRegisters(s: Vm, code: seq<Cell>, data: seq<Cell>, heap: nat)
    requires Zeroed(s) && |data| <= 0x8000_0000 && heap <= 0x8000_0000
    ensures RegistersSet(Booted(s, code, data, heap), 8 * heap, |data|)
  {
  }

  lemma ImageLaid(buf: seq<Byte>, h: Header, known: seq<NativeArg>, s: Snapshot) returns (l: Layout)
    requires |buf| >= 60 && Narrow(h) && HeaderBytes(buf, h)
    requires Verdict(buf, known) == LoadSuccess && LoadedNew(s, buf, HeaderOf(buf), known)
    ensures s.mapped && LaidOut(s.machine, l, buf, h)
    ensures s.main == if h.cip == 0xFFFF_FFFF then 0 else h.cip
  {
    HeaderExact(buf, h);
    VerdictExact(buf, known);
    l := StartLaid(buf, h);
  }

  lemma StartLaid(buf: seq<Byte>, h: Header) returns (l: Layout)
    requires SectionOk(|buf|, h.cod, h.dat, 8) && SectionOk(|buf|, h.dat, h.hea, 8) && Narrow(h)
    ensures LaidOut(StartOf(buf, h), l, buf, h)
  {
    var unmapped: Translation := _ => None;
    var s := Vm(0, 0, 0, 0, 0, 0, 0, 0, 0, Memory([], unmapped, unmapped));
    l := Layout(0, |CodeOf(buf, h)|, |CodeOf(buf, h)|, |DataOf(buf, h)|);
    CodeLaidBy(s, buf, h, StartOf(buf, h));
    DataFits(buf, h);
    LoadedMachine(s, CodeOf(buf, h), DataOf(buf, h), (h.hea - h.dat) / 8);
    DataLaidBy(StartOf(buf, h), l, buf, h);
    SpanCovered(h);
    StartRegisters(s, CodeOf(buf, h), DataOf(buf, h), (h.hea - h.dat) / 8);
  }
  // ----- an actual image with a heap and a stack -----

  /** 76 bytes: the header, one word of code, one word of data, and stp 16384 bytes past hea. */
  const HEAP_IMAGE: seq<Byte> :=
    [76, 0, 0, 0, 0xE1, 0xF1, 11, 11, 0, 0, 8, 0]
    + [60, 0, 0, 0, 68, 0, 0, 0, 76, 0, 0, 0, 76, 64, 0, 0, 0xFF, 0xFF, 0xFF, 0xFF]
    + [60, 0, 0, 0, 60, 0, 0, 0, 60, 0, 0, 0, 60, 0, 0, 0, 60, 0, 0, 0, 0, 0, 0, 0, 0, 0, 0, 0]
    + [48, 0, 0, 0, 0, 0, 0, 0]
    + [7, 0, 0, 0, 0, 0, 0, 0]

  const HEAP_HEADER := Header(76, 0xF1E1, 11, 11, 0, 8, 60, 68, 76, 16460, 0xFFFF_FFFF, 60, 60, 60, 60, 60)

  lemma HeapHeader()
    ensures |HEAP_IMAGE| == 76 && HeaderOf(HEAP_IMAGE) == HEAP_HEADER
  {
  }

  lemma {:induction false} OnlyZeros(bs: seq<Byte>)
    requires forall j :: 0 <= j < |bs| ==> bs[j] == 0
    ensures LeValue(bs) == 0
  {
    if bs != [] {
      OnlyZeros(bs[1..]);
    }
  }

  lemma HeapWord(buf: seq<Byte>, p: nat)
    requires p + 8 <= |buf| && forall j :: p < j < p + 8 ==> buf[j] == 0
    ensures Word(buf, p) == buf[p]
  {
    var w := buf[p..p + 8];
    assert forall j :: 0 <= j < 7 ==> w[1..][j] == buf[p + 1 + j];
    OnlyZeros(w[1..]);
  }

  /** It is accepted whatever the host offers, and a new loader then holds its data cell and 2048 zeros. */
  lemma HeapImage(known: seq<NativeArg>, s: Snapshot) returns (l: Layout)
    requires |HEAP_IMAGE| == 76 && LoadedNew(s, HEAP_IMAGE, HeaderOf(HEAP_IMAGE), known)
    ensures Verdict(HEAP_IMAGE, known) == LoadSuccess && s.mapped
    ensures Segment(s.machine, l) && l.dataLen == 2049 && s.machine.stk == 16384 && s.machine.hea == 8
    ensures forall k :: 0 <= k < 2049 ==> CellAt(s.machine.mem.host, l.data, k) == if k == 0 then 7 else 0
  {
    HeapHeader();
    HeapGood(HEAP_IMAGE, known);
    HeapWord(HEAP_IMAGE, 68);
    l := HeapLaid(HEAP_IMAGE, known, s);
  }

  lemma HeapGood(buf: seq<Byte>, known: seq<NativeArg>)
    requires |buf| == 76
    ensures GoodImage(buf, HEAP_HEADER, known)
  {
    assert Section(buf, 60, 60, 8) == [];
  }

  lemma HeapLaid(buf: seq<Byte>, known: seq<NativeArg>, s: Snapshot) returns (l: Layout)
    requires |buf| == 76 && HeaderOf(buf) == HEAP_HEADER && GoodImage(buf, HEAP_HEADER, known)
    requires LoadedNew(s, buf, HEAP_HEADER, known)
    ensures Verdict(buf, known) == LoadSuccess && s.mapped && l.dataLen == 2049
    ensures DataLaid(s.machine, l, buf, 68, 76) && RegistersSet(s.machine, 8, 2049)
  {
    HeaderExact(buf, HEAP_HEADER);
    VerdictExact(buf, known);
    l := ImageLaid(buf, HEAP_HEADER, known, s);
  }
}
