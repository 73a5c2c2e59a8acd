/** The matrix a key list is flattened into, and the searches of that matrix. */
module MatrixMap {
  import opened Memories
  import opened Keymap

  const NO_KEY: nat := 0xFFFF_FFFF

  datatype Fill = ByCount | ByValue | ByIndex

  /** Row-major position. */
  function CellNo(y: nat, w: nat, x: nat): nat {
    y * w + x
  }

  function Offset(k: Key, w: nat): nat {
    CellNo(k.row, w, k.col)
  }

  function FillOf(m: Keys, i: nat, fill: Fill, w: nat): nat
    requires i < |m|
  {
    match fill
    case ByCount => i
    case ByValue => m[i].led.value
    case ByIndex => Offset(m[i], w)
  }

  ghost predicate InBounds(m: Keys, w: nat, size: nat) {
    forall k :: k in m ==> Offset(k, w) < size
  }

  function Blank(before: seq<nat>, cells: nat): (b: seq<nat>)
    ensures |b| == |before|
    ensures forall p :: 0 <= p < |b| ==> b[p] == if p < cells then NO_KEY else before[p]
  {
    seq(|before|, p requires 0 <= p < |before| => if p < cells then NO_KEY else before[p])
  }

  /** The first n keys written over the given cells, one after the other. */
  function Painted(m: Keys, n: nat, fill: Fill, w: nat, cells: seq<nat>): (r: seq<nat>)
    requires n <= |m| && forall i :: 0 <= i < n ==> Offset(m[i], w) < |cells|
    ensures |r| == |cells|
  {
    if n == 0 then cells
    else Painted(m, n - 1, fill, w, cells)[Offset(m[n - 1], w) := FillOf(m, n - 1, fill, w)]
  }

  // ----- positions and cells -----

  lemma Distribute(a: nat, b: nat, w: nat)
    ensures (a + b) * w == a * w + b * w && b * w >= 0
  {
  }

  lemma RowEnds(y: nat, h: nat, w: nat)
    requires y < h
    ensures (y + 1) * w == y * w + w <= h * w
  {
    Distribute(y, 1, w);
    Distribute(y + 1, h - y - 1, w);
  }

  lemma RowBelow(y: nat, y': nat, w: nat, x: nat)
    requires y < y' && x < w
    ensures CellNo(y, w, x) < y' * w
  {
    RowEnds(y, y', w);
  }

  /** Row-major cells are ordered row first, then column. */
  lemma CellOrder(y: nat, x: nat, y': nat, x': nat, w: nat)
    requires x < w && x' < w
    ensures CellNo(y, w, x) < CellNo(y', w, x') <==> y < y' || (y == y' && x < x')
    ensures CellNo(y, w, x) == CellNo(y', w, x') <==> y == y' && x == x'
  {
    if y < y' {
      RowBelow(y, y', w, x);
    } else if y' < y {
      RowBelow(y', y, w, x');
    }
  }

  /** Every key lies inside the matrix of h rows and w columns. */
  ghost predicate Fits(m: Keys, h: nat, w: nat) {
    forall k :: k in m ==> k.row < h && k.col < w
  }

  lemma FitsInBounds(m: Keys, h: nat, w: nat, size: nat)
    requires Fits(m, h, w) && h * w <= size
    ensures InBounds(m, w, size) && InBounds(m, w, h * w)
  {
    forall k | k in m
      ensures Offset(k, w) < h * w
    {
      RowBelow(k.row, h, w, k.col);
    }
  }

  /** Each key's cell holds its own mark, every other cell is untouched. */
  lemma {:induction false} PaintedIs(m: Keys, n: nat, fill: Fill, w: nat, cells: seq<nat>)
    requires n <= |m| && OnePerPlace(m) && InBounds(m, w, |cells|) && forall k :: k in m ==> k.col < w
    ensures forall i :: 0 <= i < n ==> Painted(m, n, fill, w, cells)[Offset(m[i], w)] == FillOf(m, i, fill, w)
    ensures forall p :: 0 <= p < |cells| && (forall i :: 0 <= i < n ==> Offset(m[i], w) != p) ==>
              Painted(m, n, fill, w, cells)[p] == cells[p]
  {
    if n > 0 {
      PaintedIs(m, n - 1, fill, w, cells);
      forall i | 0 <= i < n - 1
        ensures Offset(m[i], w) != Offset(m[n - 1], w)
      {
        assert m[i] in m && m[n - 1] in m;
        CellOrder(m[i].row, m[i].col, m[n - 1].row, m[n - 1].col, w);
      }
    }
  }

  /** The matrix of the key list: the fill by count on a blank matrix. */
  ghost predicate IsMatrix(m: Keys, h: nat, w: nat, cells: seq<nat>) {
    && |cells| >= h * w && Fits(m, h, w) && OnePerPlace(m) && |m| <= NO_KEY
    && (forall i :: 0 <= i < |m| ==> Offset(m[i], w) < h * w && cells[Offset(m[i], w)] == i)
    && (forall p :: 0 <= p < h * w && (forall i :: 0 <= i < |m| ==> Offset(m[i], w) != p) ==> cells[p] == NO_KEY)
  }

  /** GetKeyMap by count fills in exactly that. */
  lemma CountMatrix(m: Keys, h: nat, w: nat, before: seq<nat>)
    requires Fits(m, h, w) && OnePerPlace(m) && |m| <= NO_KEY && h * w <= |before|
    ensures InBounds(m, w, |before|)
    ensures IsMatrix(m, h, w, Painted(m, |m|, ByCount, w, Blank(before, h * w)))
  {
    FitsInBounds(m, h, w, |before|);
    PaintedIs(m, |m|, ByCount, w, Blank(before, h * w));
  }

  /** The mark i stands in key i's cell and nowhere else. */
  lemma MarkExact(m: Keys, h: nat, w: nat, cells: seq<nat>, i: nat, p: nat)
    requires IsMatrix(m, h, w, cells) && i < |m| && p < h * w
    ensures cells[p] == i <==> p == Offset(m[i], w)
  {
  }

  // ----- searching for a mark -----

  type Position = Option<(nat, nat)>

  /** The first cell with the mark in row-major order, as column and row. */
  ghost predicate FirstCell(cells: seq<nat>, h: nat, w: nat, mark: nat, r: Position)
    requires |cells| >= h * w
  {
    match r
    case None => forall p :: 0 <= p < h * w ==> cells[p] != mark
    case Some((x, y)) =>
      && x < w && y < h && CellNo(y, w, x) < h * w && cells[CellNo(y, w, x)] == mark
      && forall p :: 0 <= p < CellNo(y, w, x) ==> cells[p] != mark
  }

  /** In the matrix of a key list, searching for i finds exactly key i's column and row. */
  lemma SearchFinds(m: Keys, h: nat, w: nat, cells: seq<nat>, i: nat, r: Position)
    requires IsMatrix(m, h, w, cells) && i < |m| && FirstCell(cells, h, w, i, r)
    ensures r == Some((m[i].col, m[i].row))
  {
    var k := m[i];
    assert k in m && Offset(k, w) < h * w && cells[Offset(k, w)] == i;
    var (x, y) := r.value;
    MarkExact(m, h, w, cells, i, CellNo(y, w, x));
    CellOrder(y, x, k.row, k.col, w);
  }

  /** The nested loops of the search. */
  method FindCell(cells: seq<nat>, h: nat, w: nat, mark: nat) returns (r: Position)
    requires |cells| >= h * w
    ensures FirstCell(cells, h, w, mark, r)
  {
    var y := 0;
    while y < h
      invariant y <= h && y * w <= h * w && forall p :: 0 <= p < y * w ==> cells[p] != mark
    {
      RowEnds(y, h, w);
      var x := 0;
      while x < w
        invariant x <= w && forall p :: 0 <= p < CellNo(y, w, x) ==> cells[p] != mark
      {
        if cells[(y * w) + x] == mark {
          return Some((x, y));
        }
        x := x + 1;
      }
      y := y + 1;
    }
    return None;
  }

  // ----- positions in the JSON-RPC answers -----

  datatype Matrix = Matrix(h: nat, w: nat, cells: seq<nat>)

  predicate WellSized(x: Matrix) {
    |x.cells| >= x.h * x.w
  }

  /** A zone of LEDs; only matrix zones have a matrix. */
  datatype Zone = Zone(matrix: Option<Matrix>, start: nat, count: nat)

  predicate Holds(z: Zone, led: nat) {
    z.matrix.Some? && z.start <= led < z.start + z.count
  }

  ghost predicate GoodZones(zones: seq<Zone>) {
    forall k :: 0 <= k < |zones| && zones[k].matrix.Some? ==> WellSized(zones[k].matrix.value)
  }

  /** The answer of the k-th zone. */
  ghost predicate ZoneSays(zones: seq<Zone>, k: nat, led: nat, r: Position)
    requires GoodZones(zones) && k < |zones| && Holds(zones[k], led)
  {
    var x := zones[k].matrix.value;
    assert WellSized(x);
    FirstCell(x.cells, x.h, x.w, led - zones[k].start, r)
  }

  ghost predicate NothingIn(zones: seq<Zone>, n: nat, led: nat)
    requires GoodZones(zones) && n <= |zones|
  {
    forall k :: 0 <= k < n && Holds(zones[k], led) ==> ZoneSays(zones, k, led, None)
  }

  /** The position LEDToJSON reports comes from the first zone that holds the LED and has
      it in its matrix. */
  ghost predicate Reported(zones: seq<Zone>, led: nat, r: Position)
    requires GoodZones(zones)
  {
    match r
    case None => NothingIn(zones, |zones|, led)
    case Some(_) =>
      exists k :: 0 <= k < |zones| && Holds(zones[k], led) && ZoneSays(zones, k, led, r) && NothingIn(zones, k, led)
  }

  method LedToJson(zones: seq<Zone>, led: nat) returns (r: Position)
    requires GoodZones(zones)
    ensures Reported(zones, led, r)
  {
    r := None;
    var k := 0;
    while k < |zones|
      invariant k <= |zones| && r == None && NothingIn(zones, k, led)
    {
      if Holds(zones[k], led) {
        var x := zones[k].matrix.value;
        assert WellSized(x);
        r := FindCell(x.cells, x.h, x.w, led - zones[k].start);
        assert ZoneSays(zones, k, led, r);
        if r.Some? { return; }
      }
      k := k + 1;
    }
  }

  /** For a zone filled from its key list, with no earlier zone that holds the LED,
      LEDToJSON reports for LED start + i exactly key i's column and row. */
  lemma KeyReported(m: Keys, zones: seq<Zone>, k: nat, i: nat, r: Position)
    requires GoodZones(zones) && k < |zones| && i < |m| && zones[k].matrix.Some?
    requires var z := zones[k];
             Holds(z, z.start + i) && IsMatrix(m, z.matrix.value.h, z.matrix.value.w, z.matrix.value.cells)
    requires forall j :: 0 <= j < k ==> !Holds(zones[j], zones[k].start + i)
    requires Reported(zones, zones[k].start + i, r)
    ensures r == Some((m[i].col, m[i].row))
  {
    var x, led := zones[k].matrix.value, zones[k].start + i;
    assert !ZoneSays(zones, k, led, None) by {
      if ZoneSays(zones, k, led, None) {
        SearchFinds(m, x.h, x.w, x.cells, i, None);
      }
    }
    var j :| 0 <= j < |zones| && Holds(zones[j], led) && ZoneSays(zones, j, led, r) && NothingIn(zones, j, led);
    SearchFinds(m, x.h, x.w, x.cells, i, r);
  }

  // ----- the scan-complete list -----

  /** An LED with its number and its place, column first. */
  datatype Entry = Entry(led: nat, x: nat, y: nat)

  /** The mark in a cell names one of the zone's LEDs. */
  predicate Named(mark: nat, count: nat, start: nat, total: nat) {
    mark != NO_KEY && mark < count && start + mark < total
  }

  /** The LEDs of the cells before p, in row-major order, for a matrix of w columns. */
  function Listed(cells: seq<nat>, w: nat, count: nat, start: nat, total: nat, p: nat): seq<Entry>
    requires p <= |cells| && w > 0
  {
    if p == 0 then []
    else Listed(cells, w, count, start, total, p - 1) + CellEntry(cells, w, count, start, total, p - 1)
  }

  function CellEntry(cells: seq<nat>, w: nat, count: nat, start: nat, total: nat, p: nat): seq<Entry>
    requires p < |cells| && w > 0
  {
    if Named(cells[p], count, start, total) then [Entry(start + cells[p], p % w, p / w)] else []
  }

  lemma DivideCell(y: nat, w: nat, x: nat)
    requires x < w
    ensures CellNo(y, w, x) / w == y && CellNo(y, w, x) % w == x
  {
    var n := CellNo(y, w, x);
    var q, r := n / w, n % w;
    assert n == CellNo(q, w, r);
    CellOrder(q, r, y, x, w);
  }

  lemma ListCell(cells: seq<nat>, w: nat, count: nat, start: nat, total: nat, y: nat, x: nat, p: nat)
    requires x < w && p == CellNo(y, w, x) < |cells|
    ensures p + 1 == CellNo(y, w, x + 1)
    ensures Listed(cells, w, count, start, total, p + 1) ==
            Listed(cells, w, count, start, total, p)
              + (if Named(cells[p], count, start, total) then [Entry(start + cells[p], x, y)] else [])
  {
    DivideCell(y, w, x);
  }

  /** MatrixLEDsToScanCompleteJSON: the nested loops that list the LEDs of a matrix zone. */
  method ListLeds(cells: seq<nat>, h: nat, w: nat, count: nat, start: nat, total: nat) returns (out: seq<Entry>)
    requires |cells| >= h * w
    ensures w > 0 ==> out == Listed(cells, w, count, start, total, h * w)
    ensures w == 0 ==> out == []
  {
    out := [];
    var y := 0;
    while y < h
      invariant y <= h && y * w <= h * w
      invariant if w > 0 then out == Listed(cells, w, count, start, total, y * w) else out == []
    {
      RowEnds(y, h, w);
      var x := 0;
      while x < w
        invariant x <= w && CellNo(y, w, x) <= h * w
        invariant if w > 0 then out == Listed(cells, w, count, start, total, CellNo(y, w, x)) else out == []
      {
        var mark := cells[(y * w) + x];
        ListCell(cells, w, count, start, total, y, x, CellNo(y, w, x));
        if Named(mark, count, start, total) {
          out := out + [Entry(start + mark, x, y)];
        }
        x := x + 1;
      }
      y := y + 1;
    }
  }

  function EntriesOf(m: Keys, start: nat, n: nat): (es: seq<Entry>)
    requires n <= |m|
    ensures |es| == n
  {
    seq(n, i requires 0 <= i < n => Entry(start + i, m[i].col, m[i].row))
  }

  /** The first n keys are those whose cells come before p. */
  ghost predicate SplitAt(m: Keys, w: nat, n: nat, p: nat) {
    && n <= |m|
    && (forall i :: 0 <= i < n ==> Offset(m[i], w) < p)
    && (forall i :: n <= i < |m| ==> Offset(m[i], w) >= p)
  }

  lemma OffsetsAscend(m: Keys, h: nat, w: nat, i: nat, j: nat)
    requires Sorted(m) && Fits(m, h, w) && i < j < |m|
    ensures Offset(m[i], w) < Offset(m[j], w)
  {
    assert m[i] in m && m[j] in m;
    CellOrder(m[i].row, m[i].col, m[j].row, m[j].col, w);
  }

  /** The next cell is key n's or nobody's. */
  lemma NextCell(m: Keys, h: nat, w: nat, cells: seq<nat>, n: nat, p: nat)
    requires Sorted(m) && IsMatrix(m, h, w, cells) && p < h * w && SplitAt(m, w, n, p)
    ensures if n < |m| && Offset(m[n], w) == p then cells[p] == n && SplitAt(m, w, n + 1, p + 1)
            else cells[p] == NO_KEY && SplitAt(m, w, n, p + 1)
  {
    forall i | n < i < |m|
      ensures Offset(m[n], w) < Offset(m[i], w)
    {
      OffsetsAscend(m, h, w, n, i);
    }
  }

  lemma NextListed(m: Keys, h: nat, w: nat, cells: seq<nat>, start: nat, n: nat, p: nat) returns (n': nat)
    requires Sorted(m) && IsMatrix(m, h, w, cells) && w > 0 && p < h * w && SplitAt(m, w, n, p)
    ensures SplitAt(m, w, n', p + 1)
    ensures EntriesOf(m, start, n) + CellEntry(cells, w, |m|, start, start + |m|, p) == EntriesOf(m, start, n')
  {
    NextCell(m, h, w, cells, n, p);
    n' := n;
    if n < |m| && Offset(m[n], w) == p {
      assert m[n] in m;
      DivideCell(m[n].row, w, m[n].col);
      n' := n + 1;
    }
  }

  lemma {:induction false} ListedKeys(m: Keys, h: nat, w: nat, cells: seq<nat>, start: nat, p: nat) returns (n: nat)
    requires Sorted(m) && IsMatrix(m, h, w, cells) && w > 0 && p <= h * w
    ensures SplitAt(m, w, n, p)
    ensures Listed(cells, w, |m|, start, start + |m|, p) == EntriesOf(m, start, n)
    decreases p
  {
    if p == 0 {
      n := 0;
    } else {
      n := ListedKeys(m, h, w, cells, start, p - 1);
      n := NextListed(m, h, w, cells, start, n, p - 1);
    }
  }

  /** All keys come before the end of the matrix. */
  lemma SplitAtEnd(m: Keys, h: nat, w: nat, cells: seq<nat>, n: nat, size: nat)
    requires IsMatrix(m, h, w, cells) && size == h * w && SplitAt(m, w, n, size)
    ensures n == |m|
  {
    if n < |m| {
      InMatrix(m, h, w, cells, n);
    }
  }

  lemma InMatrix(m: Keys, h: nat, w: nat, cells: seq<nat>, i: nat)
    requires IsMatrix(m, h, w, cells) && i < |m|
    ensures Offset(m[i], w) < h * w
  {
  }

  /** For a sorted key list, the list has every key once, in key order, at its own place. */
  lemma ScanListsKeys(m: Keys, h: nat, w: nat, cells: seq<nat>, start: nat, size: nat)
    requires Sorted(m) && IsMatrix(m, h, w, cells) && w > 0 && size == h * w
    ensures Listed(cells, w, |m|, start, start + |m|, size) == EntriesOf(m, start, |m|)
  {
    var n := ListedKeys(m, h, w, cells, start, size);
    SplitAtEnd(m, h, w, cells, n, size);
  }
}
