/** Profile files: a header, a version, and controller descriptions that carry their own
    length, written one after the other and read back until the end of the file. */
module Profiles {
  import opened LittleEndian

  /** "RGBSRV_PROFILE1" and its terminating zero. */
  const HEADER: seq<Byte> :=
    [0x52, 0x47, 0x42, 0x53, 0x52, 0x56, 0x5F, 0x50, 0x52, 0x4F, 0x46, 0x49, 0x4C, 0x45, 0x31, 0]

  const VERSION: nat := 5

  const WORD: nat := 0x1_0000_0000

  /** A controller as the writer sees it: its description bytes and two of its flags. */
  datatype Saved = Saved(description: seq<Byte>, isRemote: bool, isVirtual: bool)

  /** A description says its own length in its first word. */
  predicate SelfSized(d: seq<Byte>) {
    |d| >= 4 && LeValue(d[..4]) == |d|
  }

  // ----- the writer -----

  /** Saving sizes stops at the first remote or virtual controller. */
  function Written(cs: seq<Saved>, sizes: bool): seq<seq<Byte>> {
    if cs == [] || (sizes && (cs[0].isRemote || cs[0].isVirtual)) then []
    else [cs[0].description] + Written(cs[1..], sizes)
  }

  function Concat(ds: seq<seq<Byte>>): seq<Byte> {
    if ds == [] then [] else ds[0] + Concat(ds[1..])
  }

  function Image(cs: seq<Saved>, sizes: bool): (file: seq<Byte>)
    ensures |file| >= 20
  {
    HEADER + LeBytes(VERSION, 4) + Concat(Written(cs, sizes))
  }

  /** The name without the NULs at its end, and only those. */
  method RemoveNullTerminatingChars(input: string) returns (name: string)
    ensures name <= input && forall k :: |name| <= k < |input| ==> input[k] == '\0'
    ensures name != "" ==> name[|name| - 1] != '\0'
  {
    name := input;
    while name != "" && name[|name| - 1] == '\0'
      invariant name <= input && forall k :: |name| <= k < |input| ==> input[k] == '\0'
      decreases |name|
    {
      name := name[..|name| - 1];
    }
  }

  /** A name of nothing but NULs is refused. The bytes that write puts out for a
      description are as many as its first word says. */
  method SaveProfile(profile: string, sizes: bool, cs: seq<Saved>) returns (ok: bool, file: seq<Byte>)
    requires forall c :: c in cs ==> SelfSized(c.description)
    ensures ok <==> exists k :: 0 <= k < |profile| && profile[k] != '\0'
    ensures ok ==> file == Image(cs, sizes)
  {
    file := [];
    var name := RemoveNullTerminatingChars(profile);
    if name == "" { return false, file; }
    assert profile[|name| - 1] != '\0';
    file := file + HEADER;
    file := file + LeBytes(VERSION, 4);
    ghost var front := HEADER + LeBytes(VERSION, 4);
    assert [] + HEADER == HEADER;
    var i := 0;
    assert cs[0..] == cs;
    ghost var all := front + Concat(Written(cs, sizes));
    while i < |cs|
      invariant i <= |cs| && all == file + Concat(Written(cs[i..], sizes))
    {
      if sizes && (cs[i].isRemote || cs[i].isVirtual) {
        assert file + [] == file;
        return true, file;
      }
      assert cs[i] in cs;
      var d := cs[i].description;
      var size := ReadLe(d, 0, 4);
      assert d[0..0 + 4] == d[..4] && d[..size] == d;
      NextWritten(file, cs, i, sizes);
      file := file + d[..size];
      i := i + 1;
    }
    assert file + [] == file;
    return true, file;
  }

  lemma NextWritten(file: seq<Byte>, cs: seq<Saved>, i: nat, sizes: bool)
    requires i < |cs| && !(sizes && (cs[i].isRemote || cs[i].isVirtual))
    ensures file + Concat(Written(cs[i..], sizes)) == (file + cs[i].description) + Concat(Written(cs[i + 1..], sizes))
  {
    assert cs[i..][1..] == cs[i + 1..];
    var ds := Written(cs[i + 1..], sizes);
    assert ([cs[i].description] + ds)[1..] == ds;
  }

  // ----- the reader -----

  /** How reading ends: at the end of the file, inside a record, or not within the given rounds. */
  datatype Read
    = Done(list: seq<seq<Byte>>) | CutShort(list: seq<seq<Byte>>) | StillReading(offset: nat, list: seq<seq<Byte>>)

  /** The loop of the reader: the length word at the offset, then as many bytes from the
      offset on, handed on as a description. */
  function Records(file: seq<Byte>, offset: nat, list: seq<seq<Byte>>, rounds: nat): Read
    decreases rounds
  {
    if offset >= |file| then Done(list)
    else if rounds == 0 then StillReading(offset, list)
    else if offset + 4 > |file| then CutShort(list)
    else
      var size := LeValue(file[offset..offset + 4]);
      if offset + size > |file| then CutShort(list)
      else Records(file, offset + size, list + [file[offset..offset + size]], rounds - 1)
  }

  function FileVersion(file: seq<Byte>): nat
    requires |file| >= 20
  {
    var v := LeValue(file[16..20]);
    if v == 1 then 0 else v
  }

  /** Files of another kind or of a later version give nothing. */
  predicate Accepted(file: seq<Byte>) {
    |file| >= 20 && file[..16] == HEADER && FileVersion(file) <= VERSION
  }

  /** The length words from the offset on, each followed to the next, lead to a zero. */
  predicate ReachesZero(file: seq<Byte>, offset: nat)
    decreases |file| - offset
  {
    offset + 4 <= |file| &&
    var size := LeValue(file[offset..offset + 4]);
    size == 0 || (offset + size <= |file| && ReachesZero(file, offset + size))
  }

  /** They lead to the end of the file. */
  predicate WholeRecords(file: seq<Byte>, offset: nat)
    decreases |file| - offset
  {
    offset >= |file| ||
    (offset + 4 <= |file| &&
     var size := LeValue(file[offset..offset + 4]);
     size > 0 && offset + size <= |file| && WholeRecords(file, offset + size))
  }

  /** No length word that the reader comes to is zero. */
  predicate Readable(file: seq<Byte>) {
    Accepted(file) ==> !ReachesZero(file, 20)
  }

  /** The whole descriptions in a file. */
  function Loaded(file: seq<Byte>): seq<seq<Byte>> {
    if Accepted(file) then Records(file, 20, [], |file|).list else []
  }

  /** A length word of zero keeps the reader where it is: it hands on empty descriptions forever. */
  lemma {:induction false} ZeroWordNeverEnds(file: seq<Byte>, offset: nat, list: seq<seq<Byte>>, rounds: nat)
    requires offset + 4 <= |file| && LeValue(file[offset..offset + 4]) == 0
    ensures var r := Records(file, offset, list, rounds);
            r.StillReading? && r.offset == offset && |r.list| == |list| + rounds
    decreases rounds
  {
    if rounds > 0 {
      assert file[offset..offset] == [];
      ZeroWordNeverEnds(file, offset, list + [file[offset..offset]], rounds - 1);
    }
  }

  /** With a round for every byte the reader ends unless the length words lead to a zero,
      and it ends at the end of the file, not inside a record, exactly when they lead there. */
  lemma {:induction false} ReaderEnds(file: seq<Byte>, offset: nat, list: seq<seq<Byte>>, rounds: nat)
    requires rounds >= |file| - offset
    ensures Records(file, offset, list, rounds).StillReading? <==> ReachesZero(file, offset)
    ensures Records(file, offset, list, rounds).Done? <==> WholeRecords(file, offset)
    decreases rounds
  {
    if offset + 4 <= |file| {
      var size := LeValue(file[offset..offset + 4]);
      if size == 0 {
        ZeroWordNeverEnds(file, offset, list, rounds);
      } else if offset + size <= |file| {
        ReaderEnds(file, offset + size, list + [file[offset..offset + size]], rounds - 1);
      }
    }
  }

  /** More rounds do not change how a finished reading ends. */
  lemma {:induction false} EnoughRounds(file: seq<Byte>, offset: nat, list: seq<seq<Byte>>, rounds: nat, more: nat)
    requires !Records(file, offset, list, rounds).StillReading? && rounds <= more
    ensures Records(file, offset, list, more) == Records(file, offset, list, rounds)
    decreases rounds
  {
    if offset + 4 <= |file| && rounds > 0 {
      var size := LeValue(file[offset..offset + 4]);
      if offset + size <= |file| {
        EnoughRounds(file, offset + size, list + [file[offset..offset + size]], rounds - 1, more - 1);
      }
    }
  }

  /** What the reader has after at most so many rounds. */
  function ReadFor(file: seq<Byte>, rounds: nat): Read {
    if Accepted(file) then Records(file, 20, [], rounds) else Done([])
  }

  /** With a round for every byte that is all there is to read, unless it never ends. */
  lemma ReadForAll(file: seq<Byte>, rounds: nat)
    ensures rounds >= |file| ==>
              && (ReadFor(file, rounds).StillReading? <==> !Readable(file))
              && (ReadFor(file, rounds).Done? <==> !Accepted(file) || WholeRecords(file, 20))
              && (Readable(file) ==> ReadFor(file, rounds).list == Loaded(file))
  {
    if Accepted(file) && rounds >= |file| {
      ReaderEnds(file, 20, [], rounds);
      ReaderEnds(file, 20, [], |file|);
      if Readable(file) {
        EnoughRounds(file, 20, [], |file|, rounds);
      }
    }
  }

  /** The reader's loop, watched for at most so many rounds. When the file ends inside a
      record, the source hands on one description more, from a buffer that it could fill only
      in part. */
  method LoadProfileToList(file: seq<Byte>, rounds: nat) returns (r: Read)
    requires |file| < WORD
    ensures r == ReadFor(file, rounds)
    ensures rounds >= |file| ==>
              && (r.StillReading? <==> !Readable(file))
              && (r.Done? <==> !Accepted(file) || WholeRecords(file, 20))
              && (Readable(file) ==> r.list == Loaded(file))
  {
    ReadForAll(file, rounds);
    if |file| < 20 { return Done([]); }
    var version := ReadLe(file, 16, 4);
    if version == 1 {
      version := 0;
    }
    if file[..16] != HEADER || version > VERSION { return Done([]); }
    var list: seq<seq<Byte>> := [];
    var offset: nat, left := 20, rounds;
    while offset < |file| && left > 0
      invariant offset <= |file| && ReadFor(file, rounds) == Records(file, offset, list, left)
      decreases left
    {
      if offset + 4 > |file| { return CutShort(list); }
      var size := ReadLe(file, offset, 4);
      if offset + size > |file| { return CutShort(list); }
      list := list + [file[offset..offset + size]];
      offset, left := offset + size, left - 1;
    }
    return if offset < |file| then StillReading(offset, list) else Done(list);
  }

  // ----- what is written is read -----

  ghost predicate AllSelfSized(ds: seq<seq<Byte>>) {
    forall d :: d in ds ==> SelfSized(d)
  }

  /** Self-sized descriptions behind any front are read back exactly, in as many rounds. */
  lemma {:induction false} ReadBack(front: seq<Byte>, ds: seq<seq<Byte>>, list: seq<seq<Byte>>)
    requires AllSelfSized(ds)
    ensures Records(front + Concat(ds), |front|, list, |ds|) == Done(list + ds)
    decreases |ds|
  {
    var file := front + Concat(ds);
    if ds == [] {
      assert list + ds == list;
    } else {
      var d := ds[0];
      assert d in ds;
      assert file == (front + d) + Concat(ds[1..]);
      assert file[|front|..|front| + 4] == d[..4] && file[|front|..|front| + |d|] == d;
      ReadBack(front + d, ds[1..], list + [d]);
      assert list + [d] + ds[1..] == list + ds;
    }
  }

  lemma {:induction false} FewerThanBytes(ds: seq<seq<Byte>>)
    requires AllSelfSized(ds)
    ensures |ds| <= |Concat(ds)|
  {
    if ds != [] {
      assert ds[0] in ds;
      FewerThanBytes(ds[1..]);
    }
  }

  lemma {:induction false} WrittenSelfSized(cs: seq<Saved>, sizes: bool)
    requires forall c :: c in cs ==> SelfSized(c.description)
    ensures AllSelfSized(Written(cs, sizes))
  {
    if cs != [] {
      assert cs[0] in cs;
      WrittenSelfSized(cs[1..], sizes);
    }
  }

  /** Loading a saved profile gives exactly the descriptions that saving wrote. */
  lemma SaveThenLoad(cs: seq<Saved>, sizes: bool)
    requires forall c :: c in cs ==> SelfSized(c.description)
    ensures Accepted(Image(cs, sizes)) && Readable(Image(cs, sizes)) && WholeRecords(Image(cs, sizes), 20)
    ensures Loaded(Image(cs, sizes)) == Written(cs, sizes)
  {
    var ds := Written(cs, sizes);
    var front := HEADER + LeBytes(VERSION, 4);
    var file := front + Concat(ds);
    WrittenSelfSized(cs, sizes);
    FewerThanBytes(ds);
    ReadBack(front, ds, []);
    assert [] + ds == ds;
    EnoughRounds(file, 20, [], |ds|, |file|);
    ReaderEnds(file, 20, [], |file|);
    assert file[..16] == HEADER && file[16..20] == LeBytes(VERSION, 4);
    assert VERSION < Pow256(4) by {
      assert Pow256(4) == 256 * (256 * (256 * 256));
    }
    ValueOfBytes(VERSION, 4);
  }

  /** The file starts with the text and its zero byte, then the version. */
  lemma ImageStarts(cs: seq<Saved>, sizes: bool)
    ensures var file, text := Image(cs, sizes), "RGBSRV_PROFILE1";
            && |text| == 15 && (forall i :: 0 <= i < 15 ==> file[i] == text[i] as int) && file[15] == 0
            && LeValue(file[16..20]) == 5
  {
    var file := Image(cs, sizes);
    assert file[16..20] == LeBytes(VERSION, 4);
    WordIs(5);
  }

  lemma WordIs(v: nat)
    requires v < WORD
    ensures LeValue(LeBytes(v, 4)) == v
  {
    assert Pow256(4) == 256 * (256 * (256 * 256));
    ValueOfBytes(v, 4);
  }

  /** A file of any version up to the current one is read, one of a later version is not. */
  lemma VersionExact(file: seq<Byte>, v: nat)
    requires v < WORD && |file| >= 20 && file[..16] == HEADER && file[16..20] == LeBytes(v, 4)
    ensures Accepted(file) <==> v <= 5
  {
    WordIs(v);
  }

  /** Descriptions in a file of any version are read back up to the current version, and
      nothing is read from a later one. */
  lemma EveryVersion(v: nat, ds: seq<seq<Byte>>, rounds: nat)
    requires v < WORD && AllSelfSized(ds) && rounds >= |ds|
    ensures ReadFor(HEADER + LeBytes(v, 4) + Concat(ds), rounds) == Done(if v <= 5 then ds else [])
  {
    var front := HEADER + LeBytes(v, 4);
    var file := front + Concat(ds);
    assert file[..16] == HEADER && file[16..20] == LeBytes(v, 4);
    VersionExact(file, v);
    ReadBack(front, ds, []);
    assert [] + ds == ds;
    EnoughRounds(file, 20, [], |ds|, rounds);
  }

  /** A file that does not start with that text, or is too short for it, gives nothing. */
  lemma OtherFiles(file: seq<Byte>, rounds: nat)
    requires |file| < 20 || file[..16] != HEADER
    ensures ReadFor(file, rounds) == Done([])
  {
  }

  /** Reading loses nothing: what it hands on, joined, is what it read, which is all of
      the file unless it ends inside a record. */
  lemma {:induction false} ReadConserves(file: seq<Byte>, offset: nat, list: seq<seq<Byte>>, rounds: nat)
    requires offset <= |file| && !Records(file, offset, list, rounds).StillReading?
    ensures var r := Records(file, offset, list, rounds).list;
            && list <= r && Concat(r[|list|..]) <= file[offset..]
            && (Records(file, offset, list, rounds).Done? <==> Concat(r[|list|..]) == file[offset..])
    decreases rounds
  {
    var end := Records(file, offset, list, rounds);
    if offset + 4 > |file| || offset + LeValue(file[offset..offset + 4]) > |file| {
      assert end.list[|list|..] == [];
    } else {
      var size := LeValue(file[offset..offset + 4]);
      var d := file[offset..offset + size];
      ReadConserves(file, offset + size, list + [d], rounds - 1);
      assert end.list[|list|] == d && end.list[|list|..] == [d] + end.list[|list| + 1..];
      SamePrefix(d, Concat(end.list[|list| + 1..]), file[offset + size..]);
      SplitAt(file, offset, offset + size);
    }
  }

  lemma SplitAt(file: seq<Byte>, i: nat, j: nat)
    requires i <= j <= |file|
    ensures file[i..] == file[i..j] + file[j..]
  {
  }

  lemma SamePrefix(d: seq<Byte>, a: seq<Byte>, b: seq<Byte>)
    requires a <= b
    ensures d + a <= d + b && (d + a == d + b <==> a == b)
  {
    assert (d + a)[|d|..] == a && (d + b)[|d|..] == b;
  }

  /** Writing back what was loaded from a file of the current version gives the file again
      if and only if the file does not end inside a record. */
  lemma LoadThenSave(file: seq<Byte>)
    requires Accepted(file) && Readable(file) && LeValue(file[16..20]) == VERSION
    ensures HEADER + LeBytes(VERSION, 4) + Concat(Loaded(file)) == file <==> WholeRecords(file, 20)
  {
    ReaderEnds(file, 20, [], |file|);
    ReadConserves(file, 20, [], |file|);
    var r := Loaded(file);
    assert r[0..] == r;
    BytesOfValue(file[16..20]);
    SamePrefix(file[..20], Concat(r), file[20..]);
    assert file[..20] == HEADER + LeBytes(VERSION, 4) && file == file[..20] + file[20..];
  }

  // ----- what saving sizes leaves out -----

  function Local(cs: seq<Saved>): seq<seq<Byte>> {
    if cs == [] then []
    else (if cs[0].isRemote || cs[0].isVirtual then [] else [cs[0].description]) + Local(cs[1..])
  }

  function All(cs: seq<Saved>): seq<seq<Byte>> {
    if cs == [] then [] else [cs[0].description] + All(cs[1..])
  }

  /** A profile without sizes holds every controller. */
  lemma {:induction false} WritesAll(cs: seq<Saved>)
    ensures Written(cs, false) == All(cs)
  {
    if cs != [] {
      WritesAll(cs[1..]);
    }
  }

  /** A local controller after a remote or virtual one. */
  predicate LocalAfterOther(cs: seq<Saved>) {
    exists i, j :: 0 <= i < j < |cs| && (cs[i].isRemote || cs[i].isVirtual) && !(cs[j].isRemote || cs[j].isVirtual)
  }

  /** Saving sizes is meant to skip remote and virtual controllers. It saves all local ones
      exactly when none of them comes after a remote or virtual one. */
  lemma {:induction false} SizesExact(cs: seq<Saved>)
    ensures Written(cs, true) == Local(cs) <==> !LocalAfterOther(cs)
  {
    if cs == [] {
    } else if cs[0].isRemote || cs[0].isVirtual {
      NoneLocal(cs[1..]);
      assert [] + Local(cs[1..]) == Local(cs[1..]);
      if Local(cs[1..]) == [] {
        AllOthers(cs);
      } else {
        var j :| 0 <= j < |cs[1..]| && !(cs[1..][j].isRemote || cs[1..][j].isVirtual);
        assert cs[j + 1] == cs[1..][j];
      }
    } else {
      SizesExact(cs[1..]);
      SameTail(cs[0].description, Written(cs[1..], true), Local(cs[1..]));
      TailAfterOther(cs);
    }
  }

  lemma SameTail(d: seq<Byte>, a: seq<seq<Byte>>, b: seq<seq<Byte>>)
    ensures [d] + a == [d] + b <==> a == b
  {
    assert ([d] + a)[1..] == a && ([d] + b)[1..] == b;
  }

  lemma {:induction false} NoneLocal(cs: seq<Saved>)
    ensures Local(cs) == [] <==> forall j :: 0 <= j < |cs| ==> cs[j].isRemote || cs[j].isVirtual
  {
    if cs != [] {
      NoneLocal(cs[1..]);
      assert forall j :: 1 <= j < |cs| ==> cs[j] == cs[1..][j - 1];
      if !(cs[0].isRemote || cs[0].isVirtual) {
        assert Local(cs)[0] == cs[0].description;
      }
    }
  }

  lemma AllOthers(cs: seq<Saved>)
    requires cs != [] && forall j :: 0 <= j < |cs[1..]| ==> cs[1..][j].isRemote || cs[1..][j].isVirtual
    ensures !LocalAfterOther(cs)
  {
    assert forall j :: 1 <= j < |cs| ==> cs[j] == cs[1..][j - 1];
  }

  lemma TailAfterOther(cs: seq<Saved>)
    requires cs != [] && !(cs[0].isRemote || cs[0].isVirtual)
    ensures LocalAfterOther(cs) <==> LocalAfterOther(cs[1..])
  {
    assert forall j :: 1 <= j < |cs| ==> cs[j] == cs[1..][j - 1];
    if LocalAfterOther(cs) {
      var i, j :| 0 <= i < j < |cs| && (cs[i].isRemote || cs[i].isVirtual) && !(cs[j].isRemote || cs[j].isVirtual);
      assert cs[1..][i - 1] == cs[i] && cs[1..][j - 1] == cs[j];
    }
    if LocalAfterOther(cs[1..]) {
      var t := cs[1..];
      var i, j :| 0 <= i < j < |t| && (t[i].isRemote || t[i].isVirtual) && !(t[j].isRemote || t[j].isVirtual);
      assert cs[i + 1] == t[i] && cs[j + 1] == t[j];
    }
  }
}
