/** What stands in a flattened matrix after each kind of fill, and which LEDs its
    searches and listings find. */
module Fills {
  import opened Memories
  import opened Keymap
  import opened MatrixMap
  import opened KeyboardLayout

  /** The last of the first n keys that lies at cell p, or n for none. */
  function LastAt(m: Keys, n: nat, w: nat, p: nat): (i: nat)
    requires n <= |m|
    ensures i <= n
    ensures i < n ==> m[i].row * w + m[i].col == p
    ensures forall j :: 0 <= j < n && (i == n || i < j) ==> m[j].row * w + m[j].col != p
  {
    if n == 0 then 0
    else if m[n - 1].row * w + m[n - 1].col == p then n - 1
    else
      var i := LastAt(m, n - 1, w, p);
      if i == n - 1 then n else i
  }

  /** What a key puts into its cell: its number in the list, its value, or the number of the cell. */
  ghost predicate Marks(m: Keys, i: nat, fill: Fill, w: nat, x: nat)
    requires i < |m|
  {
    match fill
    case ByCount => x == i
    case ByValue => x == m[i].led.value
    case ByIndex => x == m[i].row * w + m[i].col
  }

  /** For any list and any fill, each cell holds the mark of the last key that lies there, and
      a cell without a key is untouched. */
  lemma {:induction false} LastKeyWins(m: Keys, n: nat, fill: Fill, w: nat, cells: seq<nat>, p: nat)
    requires n <= |m| && (forall i :: 0 <= i < n ==> Offset(m[i], w) < |cells|) && p < |cells|
    ensures var i := LastAt(m, n, w, p);
            if i < n then Marks(m, i, fill, w, Painted(m, n, fill, w, cells)[p])
            else Painted(m, n, fill, w, cells)[p] == cells[p]
    decreases n
  {
    if n > 0 {
      LastKeyWins(m, n - 1, fill, w, cells, p);
    }
  }

  /** GetKeyMap into a matrix of h rows and w columns, the larger of what the caller asks for
      and what the list has: cell by cell the mark of the last key there, or no key; behind the
      matrix, where no key lies, what the caller's array held. */
  lemma KeyMapIs(m: Keys, fill: Fill, height: nat, width: nat, rows: nat, cols: nat, h: nat, w: nat,
                 before: seq<nat>, p: nat)
    requires h >= height && h >= rows && (h == height || h == rows)
    requires w >= width && w >= cols && (w == width || w == cols)
    requires InBounds(m, w, |before|) && p < |before|
    ensures h == Larger(height, rows) && w == Larger(width, cols)
    ensures var x, i := Painted(m, |m|, fill, w, Blank(before, h * w))[p], LastAt(m, |m|, w, p);
            if i < |m| then Marks(m, i, fill, w, x) else x == if p < h * w then 0xFFFF_FFFF else before[p]
  {
    LastKeyWins(m, |m|, fill, w, Blank(before, h * w), p);
  }

  // ----- which LEDs a zone answers for -----

  /** The LED is one of a zone with a matrix. */
  predicate OfZone(z: Zone, led: nat) {
    z.matrix.Some? && led >= z.start && led - z.start < z.count
  }

  /** A LED that no zone with a matrix has is not reported. */
  lemma OutsideZones(zones: seq<Zone>, led: nat, r: Position)
    requires GoodZones(zones) && Reported(zones, led, r)
    requires forall k :: 0 <= k < |zones| ==> !OfZone(zones[k], led)
    ensures r == None
  {
    assert forall k :: 0 <= k < |zones| ==> !Holds(zones[k], led);
  }

  /** One that a zone's matrix shows, no earlier zone having it, is reported at the first cell
      of that matrix with its number within the zone. */
  lemma FirstZone(zones: seq<Zone>, k: nat, led: nat, r: Position, p: nat)
    requires GoodZones(zones) && Reported(zones, led, r) && k < |zones| && OfZone(zones[k], led)
    requires forall j :: 0 <= j < k ==> !OfZone(zones[j], led)
    requires var x := zones[k].matrix.value;
             WellSized(x) && p < x.h * x.w && x.cells[p] == led - zones[k].start
    ensures var x := zones[k].matrix.value;
            && r.Some? && r.value.0 < x.w && r.value.1 < x.h
            && r.value.1 * x.w + r.value.0 < |x.cells|
            && x.cells[r.value.1 * x.w + r.value.0] == led - zones[k].start
            && forall q :: 0 <= q < r.value.1 * x.w + r.value.0 ==> x.cells[q] != led - zones[k].start
  {
    var x := zones[k].matrix.value;
    assert forall j :: 0 <= j <= k ==> (Holds(zones[j], led) <==> j == k);
    assert !ZoneSays(zones, k, led, None);
    var j :| 0 <= j < |zones| && Holds(zones[j], led) && ZoneSays(zones, j, led, r) && NothingIn(zones, j, led);
    assert j == k;
    assert FirstCell(x.cells, x.h, x.w, led - zones[k].start, r);
  }

  // ----- the listing -----

  /** The cell is listed: it has a mark, of one of the zone's LEDs, which the controller has. */
  predicate Shown(mark: nat, count: nat, start: nat, total: nat) {
    mark != 0xFFFF_FFFF && mark < count && start + mark < total
  }

  /** The listing has exactly the shown cells, each with its LED, column and row ... */
  lemma {:induction false} ListedExact(cells: seq<nat>, w: nat, count: nat, start: nat, total: nat, p: nat, e: Entry)
    requires p <= |cells| && w > 0
    ensures e in Listed(cells, w, count, start, total, p) <==>
            exists q :: 0 <= q < p && Shown(cells[q], count, start, total) && e == Entry(start + cells[q], q % w, q / w)
    decreases p
  {
    if p > 0 {
      ListedExact(cells, w, count, start, total, p - 1, e);
    }
  }

  function PlaceOf(e: Entry, w: nat): nat {
    e.y * w + e.x
  }

  /** Each listed place comes before p and after the ones listed before it. */
  ghost predicate Ascending(es: seq<Entry>, w: nat, p: nat) {
    && (forall i :: 0 <= i < |es| ==> PlaceOf(es[i], w) < p)
    && (forall i, j :: 0 <= i < j < |es| ==> PlaceOf(es[i], w) < PlaceOf(es[j], w))
  }

  lemma AscendingMore(es: seq<Entry>, w: nat, p: nat, e: Entry)
    requires Ascending(es, w, p) && PlaceOf(e, w) == p
    ensures Ascending(es + [e], w, p + 1)
  {
  }

  /** ... row by row and from left to right. */
  lemma {:induction false} ListedAscends(cells: seq<nat>, w: nat, count: nat, start: nat, total: nat, p: nat)
    requires p <= |cells| && w > 0
    ensures Ascending(Listed(cells, w, count, start, total, p), w, p)
    decreases p
  {
    if p > 0 {
      ListedAscends(cells, w, count, start, total, p - 1);
      if Named(cells[p - 1], count, start, total) {
        var e := Entry(start + cells[p - 1], (p - 1) % w, (p - 1) / w);
        Divided(p - 1, w);
        assert CellEntry(cells, w, count, start, total, p - 1) == [e];
        AscendingMore(Listed(cells, w, count, start, total, p - 1), w, p - 1, e);
      }
    }
  }

  lemma Divided(p: nat, w: nat)
    requires w > 0
    ensures p / w >= 0 && p % w >= 0 && p / w * w + p % w == p
  {
  }
}
