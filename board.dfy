/** The cell registry of the map board: grid cells, their bounds in degrees,
    and the enumeration of the cells around a point. */
module Board {

  /** Scale from degrees to cell indices. */
  const CellDegrees: real := 10000.0

  /** Scale from cell indices back to degrees. */
  const PointDegrees: real := 0.0001

  /** A grid cell, identified by its integer indices. */
  datatype Cell = Cell(i: int, j: int)

  /** A geographic point in degrees. */
  datatype Point = Point(lat: real, lng: real)

  /** A rectangle in degrees: latitudes south..north, longitudes west..east. */
  datatype Bounds = Bounds(south: real, west: real, north: real, east: real)

  /** The registry key of a cell: its coordinate pair. */
  type Key = (int, int)

  function KeyOf(c: Cell): Key {
    (c.i, c.j)
  }

  /** Every registry entry is stored under its own coordinates. */
  ghost predicate Canonical(m: map<Key, Cell>) {
    forall k :: k in m ==> KeyOf(m[k]) == k
  }

  /** The cell a point falls in; `quantize` turns a coordinate scaled by
      CellDegrees into an index. */
  function CellOf(p: Point, quantize: real -> int): Cell {
    Cell(quantize(p.lat * CellDegrees), quantize(p.lng * CellDegrees))
  }

  /** The degree coordinate of a cell index. */
  function Degrees(n: int): real {
    n as real * PointDegrees
  }

  function Min(a: real, b: real): real { if a <= b then a else b }
  function Max(a: real, b: real): real { if a <= b then b else a }

  /** Whether a rectangle contains the point (x, y). */
  predicate Contains(b: Bounds, x: real, y: real) {
    b.south <= x <= b.north && b.west <= y <= b.east
  }

  /** Whether rectangle `inner` lies within rectangle `outer`. */
  predicate Within(inner: Bounds, outer: Bounds) {
    outer.south <= inner.south && inner.north <= outer.north &&
    outer.west <= inner.west && inner.east <= outer.east
  }

  // ---------------------------------------------------------------------
  // The offsets visited by the neighbourhood loops

  /** The loop values lo, lo + w, lo + 2w, ... that stay below hi. */
  function Steps(lo: int, hi: int, w: int): seq<int>
    requires w > 0 || hi <= lo
    decreases hi - lo
  {
    if lo >= hi then [] else [lo] + Steps(lo + w, hi, w)
  }

  /** The number of loop iterations, ceil((hi - lo) / w). */
  function StepCount(lo: int, hi: int, w: int): nat
    requires w > 0 || hi <= lo
  {
    if lo >= hi then 0 else (hi - lo + w - 1) / w
  }

  lemma {:induction false} StepsLength(lo: int, hi: int, w: int)
    requires w > 0 || hi <= lo
    ensures |Steps(lo, hi, w)| == StepCount(lo, hi, w)
  {
    if lo < hi {
      var n := |Steps(lo, hi, w)|;
      StepsEnd(lo, hi, w);
      StepsAt(lo, hi, w, n - 1);
      // hi - lo == (n - 1) * w + t with 1 <= t <= w
      var t := hi - lo - (n - 1) * w;
      assert hi - lo + w - 1 == n * w + (t - 1);
      DivModUnique(hi - lo + w - 1, w, n, t - 1);
    }
  }

  /** One more step would reach hi: lo + |Steps| * w >= hi. */
  lemma {:induction false} StepsEnd(lo: int, hi: int, w: int)
    requires w > 0 || hi <= lo
    ensures lo + |Steps(lo, hi, w)| * w >= hi
    decreases hi - lo
  {
    if lo < hi {
      StepsEnd(lo + w, hi, w);
      var n := |Steps(lo + w, hi, w)|;
      assert lo + w + n * w == lo + (n + 1) * w;
    }
  }

  /** Quotient and remainder are unique. */
  lemma DivModUnique(x: int, w: int, q: int, r: int)
    requires w > 0 && x == q * w + r && 0 <= r < w
    ensures x / w == q && x % w == r
  {
    var q', r' := x / w, x % w;
    assert x == q' * w + r' && 0 <= r' < w;
    if q' < q {
      assert (q' + 1) * w == q' * w + w;
      MulMono(q' + 1, q, w);
    } else if q < q' {
      assert (q + 1) * w == q * w + w;
      MulMono(q + 1, q', w);
    }
  }

  lemma MulMono(a: int, b: int, w: int)
    requires a <= b && w >= 0
    ensures a * w <= b * w
  {
    MulNonneg(b - a, w);
    assert b * w == a * w + (b - a) * w;
  }

  lemma {:induction false} MulNonneg(d: int, w: int)
    requires d >= 0 && w >= 0
    ensures d * w >= 0
    decreases d
  {
    if d > 0 {
      MulNonneg(d - 1, w);
      assert d * w == (d - 1) * w + w;
    }
  }

  /** The k-th visited offset is lo + k*w, and it lies in [lo, hi). */
  lemma {:induction false} StepsAt(lo: int, hi: int, w: int, k: nat)
    requires w > 0 || hi <= lo
    requires k < |Steps(lo, hi, w)|
    ensures Steps(lo, hi, w)[k] == lo + k * w
    ensures lo <= Steps(lo, hi, w)[k] < hi
    decreases hi - lo
  {
    if k > 0 {
      StepsAt(lo + w, hi, w, k - 1);
      assert lo + w + (k - 1) * w == lo + k * w;
    }
  }

  /** The visited offsets are strictly ascending. */
  lemma StepsAscending(lo: int, hi: int, w: int)
    requires w > 0 || hi <= lo
    ensures Ascending(Steps(lo, hi, w))
  {
    var s := Steps(lo, hi, w);
    forall a, b | 0 <= a < b < |s| ensures s[a] < s[b] {
      StepsAt(lo, hi, w, a);
      StepsAt(lo, hi, w, b);
      assert w > 0;
      MulMono(a + 1, b, w);
      assert (a + 1) * w == a * w + w;
    }
  }

  /** An offset is visited exactly when it lies in [lo, hi) and is a whole
      number of steps from lo. */
  lemma StepsMember(lo: int, hi: int, w: int, x: int)
    requires w > 0
    ensures x in Steps(lo, hi, w) <==> lo <= x < hi && (x - lo) % w == 0
  {
    var s := Steps(lo, hi, w);
    if x in s {
      var k :| 0 <= k < |s| && s[k] == x;
      StepsAt(lo, hi, w, k);
      DivModUnique(x - lo, w, k, 0);
    }
    if lo <= x < hi && (x - lo) % w == 0 {
      var k := (x - lo) / w;
      assert x - lo == k * w;
      if k < 0 { MulMono(k, -1, w); }
      StepsEnd(lo, hi, w);
      if k >= |s| { MulMono(|s|, k, w); }
      StepsAt(lo, hi, w, k);
    }
  }

  ghost predicate Ascending(s: seq<int>) {
    forall a, b :: 0 <= a < b < |s| ==> s[a] < s[b]
  }

  // ---------------------------------------------------------------------
  // The cells visited by the neighbourhood loops

  /** One pass of the inner loop: the cells at i-offset `di` and the
      j-offsets `cols`, in order. */
  function Row(o: Cell, di: int, cols: seq<int>): seq<Cell> {
    seq(|cols|, k requires 0 <= k < |cols| => Cell(o.i + di, o.j + cols[k]))
  }

  /** The outer loop: one Row per i-offset in `rows`, in order. */
  function Grid(o: Cell, rows: seq<int>, cols: seq<int>): seq<Cell> {
    if rows == [] then [] else Grid(o, rows[..|rows| - 1], cols) + Row(o, rows[|rows| - 1], cols)
  }

  /** The offsets of the neighbourhood of radius r with step w. */
  function Offsets(r: int, w: int): seq<int>
    requires w > 0 || r <= 0
  {
    Steps(-r, r, w)
  }

  /** The cells around `o` in the order the nested loops visit them. */
  function NearCells(o: Cell, r: int, w: int): seq<Cell>
    requires w > 0 || r <= 0
  {
    Grid(o, Offsets(r, w), Offsets(r, w))
  }

  /** Strict lexicographic order on cells: by i, then by j. */
  predicate Before(a: Cell, b: Cell) {
    a.i < b.i || (a.i == b.i && a.j < b.j)
  }

  lemma {:induction false} GridLength(o: Cell, rows: seq<int>, cols: seq<int>)
    ensures |Grid(o, rows, cols)| == |rows| * |cols|
    decreases |rows|
  {
    if rows != [] {
      GridLength(o, rows[..|rows| - 1], cols);
      assert (|rows| - 1) * |cols| + |cols| == |rows| * |cols|;
    }
  }

  /** Row-major layout: the cell at position a*|cols| + b has i-offset
      rows[a] and j-offset cols[b]. */
  lemma {:induction false} GridAt(o: Cell, rows: seq<int>, cols: seq<int>, a: nat, b: nat)
    requires a < |rows| && b < |cols|
    ensures |Grid(o, rows, cols)| == |rows| * |cols|
    ensures a * |cols| + b < |rows| * |cols|
    ensures Grid(o, rows, cols)[a * |cols| + b] == Cell(o.i + rows[a], o.j + cols[b])
    decreases |rows|
  {
    GridLength(o, rows, cols);
    var n, m := |rows|, |cols|;
    var front := rows[..n - 1];
    GridLength(o, front, cols);
    assert a * m + b < n * m by {
      assert a <= n - 1;
      assert a * m <= (n - 1) * m;
      assert (n - 1) * m + m == n * m;
    }
    if a == n - 1 {
      assert Grid(o, rows, cols) == Grid(o, front, cols) + Row(o, rows[n - 1], cols);
    } else {
      GridAt(o, front, cols, a, b);
      assert front[a] == rows[a];
    }
  }

  /** A cell is visited exactly when its i-offset is a row offset and its
      j-offset a column offset. */
  lemma {:induction false} GridMember(o: Cell, rows: seq<int>, cols: seq<int>, c: Cell)
    ensures c in Grid(o, rows, cols) <==> (c.i - o.i) in rows && (c.j - o.j) in cols
    decreases |rows|
  {
    if rows != [] {
      var front := rows[..|rows| - 1];
      var last := rows[|rows| - 1];
      GridMember(o, front, cols, c);
      assert rows == front + [last];
      var row := Row(o, last, cols);
      if c in row {
        var k :| 0 <= k < |row| && row[k] == c;
        assert cols[k] == c.j - o.j;
      }
      if c.i - o.i == last && (c.j - o.j) in cols {
        var k :| 0 <= k < |cols| && cols[k] == c.j - o.j;
        assert row[k] == c;
      }
    }
  }

  /** With ascending offsets, the visited cells are strictly ascending in
      the (i, j) order: the outer offset first, the inner one second. */
  lemma {:induction false} GridSorted(o: Cell, rows: seq<int>, cols: seq<int>)
    requires Ascending(rows) && Ascending(cols)
    ensures forall p, q :: 0 <= p < q < |Grid(o, rows, cols)| ==>
      Before(Grid(o, rows, cols)[p], Grid(o, rows, cols)[q])
    decreases |rows|
  {
    if rows != [] {
      var front := rows[..|rows| - 1];
      var last := rows[|rows| - 1];
      GridSorted(o, front, cols);
      var g, f, row := Grid(o, rows, cols), Grid(o, front, cols), Row(o, last, cols);
      assert g == f + row;
      forall p, q | 0 <= p < q < |g| ensures Before(g[p], g[q]) {
        if q < |f| {
          assert g[p] == f[p] && g[q] == f[q];
        } else if p >= |f| {
          assert g[p] == row[p - |f|] && g[q] == row[q - |f|];
        } else {
          assert g[p] == f[p];
          GridMember(o, front, cols, f[p]);
          var a :| 0 <= a < |front| && front[a] == f[p].i - o.i;
          assert rows[a] == front[a];
        }
      }
    }
  }

  /** Cells in strict order are pairwise distinct. */
  lemma SortedDistinct(s: seq<Cell>)
    requires forall p, q :: 0 <= p < q < |s| ==> Before(s[p], s[q])
    ensures forall p, q :: 0 <= p < |s| && 0 <= q < |s| && p != q ==> s[p] != s[q]
  {
    forall p, q | 0 <= p < |s| && 0 <= q < |s| && p != q ensures s[p] != s[q] {
      if p < q { assert Before(s[p], s[q]); } else { assert Before(s[q], s[p]); }
    }
  }

  // ---------------------------------------------------------------------
  // Properties of the neighbourhood

  /** The neighbourhood has ceil(2r/w)^2 cells. */
  lemma NearCellsLength(o: Cell, r: int, w: int)
    requires w > 0 || r <= 0
    ensures |NearCells(o, r, w)| == StepCount(-r, r, w) * StepCount(-r, r, w)
  {
    StepsLength(-r, r, w);
    GridLength(o, Offsets(r, w), Offsets(r, w));
  }

  /** The board of the game (tile width 1, radius 8) visits 256 cells. */
  lemma GameNeighbourhoodSize(o: Cell)
    ensures |NearCells(o, 8, 1)| == 256
  {
    NearCellsLength(o, 8, 1);
    assert StepCount(-8, 8, 1) == 16;
  }

  /** The cell at position a*n + b is offset by (-r + a*w, -r + b*w) from
      the origin, where n = ceil(2r/w): row-major, both offsets ascending. */
  lemma NearCellsAt(o: Cell, r: int, w: int, a: nat, b: nat)
    requires w > 0 || r <= 0
    requires a < StepCount(-r, r, w) && b < StepCount(-r, r, w)
    ensures a * StepCount(-r, r, w) + b < |NearCells(o, r, w)|
    ensures NearCells(o, r, w)[a * StepCount(-r, r, w) + b] == Cell(o.i - r + a * w, o.j - r + b * w)
  {
    var offsets, n := Offsets(r, w), StepCount(-r, r, w);
    StepsLength(-r, r, w);
    assert |offsets| == n;
    GridAt(o, offsets, offsets, a, b);
    StepsAt(-r, r, w, a);
    StepsAt(-r, r, w, b);
  }

  /** A cell is in the neighbourhood exactly when both its offsets from the
      origin lie in [-r, r) and are whole numbers of steps from -r. */
  lemma NearCellsMember(o: Cell, r: int, w: int, c: Cell)
    requires w > 0
    ensures c in NearCells(o, r, w) <==>
      -r <= c.i - o.i < r && (c.i - o.i + r) % w == 0 &&
      -r <= c.j - o.j < r && (c.j - o.j + r) % w == 0
  {
    GridMember(o, Offsets(r, w), Offsets(r, w), c);
    StepsMember(-r, r, w, c.i - o.i);
    StepsMember(-r, r, w, c.j - o.j);
  }

  /** The neighbourhood is listed in strict (i, j) order, hence without
      repetition. */
  lemma NearCellsSorted(o: Cell, r: int, w: int)
    requires w > 0 || r <= 0
    ensures forall p, q :: 0 <= p < q < |NearCells(o, r, w)| ==>
      Before(NearCells(o, r, w)[p], NearCells(o, r, w)[q])
    ensures forall p, q :: 0 <= p < |NearCells(o, r, w)| && 0 <= q < |NearCells(o, r, w)| && p != q ==>
      NearCells(o, r, w)[p] != NearCells(o, r, w)[q]
  {
    StepsAscending(-r, r, w);
    GridSorted(o, Offsets(r, w), Offsets(r, w));
    SortedDistinct(NearCells(o, r, w));
  }

  /** One inner-loop step appends the visited cell to the row. */
  lemma RowSnoc(o: Cell, di: int, cols: seq<int>, dj: int)
    ensures Row(o, di, cols + [dj]) == Row(o, di, cols) + [Cell(o.i + di, o.j + dj)]
  {
    var lhs, rhs := Row(o, di, cols + [dj]), Row(o, di, cols) + [Cell(o.i + di, o.j + dj)];
    assert |lhs| == |rhs|;
    forall k | 0 <= k < |lhs| ensures lhs[k] == rhs[k] {
      if k < |cols| {
        assert (cols + [dj])[k] == cols[k];
      }
    }
  }

  /** One loop step moves the next offset from the remaining ones to the
      visited ones. */
  lemma StepsSnoc(visited: seq<int>, x: int, hi: int, w: int)
    requires w > 0 && x < hi
    ensures visited + Steps(x, hi, w) == (visited + [x]) + Steps(x + w, hi, w)
  {
    var rest := Steps(x + w, hi, w);
    assert Steps(x, hi, w) == [x] + rest;
    assert visited + ([x] + rest) == (visited + [x]) + rest;
  }

  /** Appending row k to the grid of the first k rows gives the grid of the
      first k + 1 rows. */
  lemma GridSnoc(o: Cell, offsets: seq<int>, k: nat)
    requires k < |offsets|
    ensures Grid(o, offsets[..k], offsets) + Row(o, offsets[k], offsets) == Grid(o, offsets[..k + 1], offsets)
  {
    assert offsets[..k + 1][..k] == offsets[..k];
    assert offsets[..k + 1][k] == offsets[k];
  }

  /** Row k of the outer loop is at offset -r + k*w, and the next offset
      -r + (k+1)*w is below r exactly when another row remains. */
  lemma OuterStep(offsets: seq<int>, k: nat, di: int, r: int, w: int)
    requires w > 0 && offsets == Steps(-r, r, w)
    requires k < |offsets| && di == -r + k * w
    ensures offsets[k] == di
    ensures di + w == -r + (k + 1) * w
    ensures k + 1 < |offsets| <==> di + w < r
  {
    StepsAt(-r, r, w, k);
    assert di + w == -r + (k + 1) * w;
    if k + 1 < |offsets| {
      StepsAt(-r, r, w, k + 1);
    } else {
      StepsEnd(-r, r, w);
    }
  }

  // ---------------------------------------------------------------------
  // Registering cells

  /** The registry after storing each cell of `cs` in turn, overwriting. */
  function RegisterAll(m: map<Key, Cell>, cs: seq<Cell>): map<Key, Cell> {
    if cs == [] then m else RegisterAll(m, cs[..|cs| - 1])[KeyOf(cs[|cs| - 1]) := cs[|cs| - 1]]
  }

  ghost function KeysOf(cs: seq<Cell>): set<Key> {
    set c | c in cs :: KeyOf(c)
  }

  /** Storing one cell: its key now maps to it, at most one key is added,
      every other entry keeps its key and value, and the registry stays
      canonical. */
  lemma RegisterOne(m: map<Key, Cell>, c: Cell)
    ensures KeyOf(c) in m[KeyOf(c) := c] && m[KeyOf(c) := c][KeyOf(c)] == c
    ensures m[KeyOf(c) := c].Keys == m.Keys + {KeyOf(c)}
    ensures |m[KeyOf(c) := c]| <= |m| + 1
    ensures forall k :: k in m && k != KeyOf(c) ==> m[KeyOf(c) := c][k] == m[k]
    ensures Canonical(m) ==> Canonical(m[KeyOf(c) := c])
  {
    var m' := m[KeyOf(c) := c];
    assert m'.Keys == m.Keys + {KeyOf(c)};
    if KeyOf(c) in m {
      assert m'.Keys == m.Keys;
    } else {
      assert |m.Keys + {KeyOf(c)}| == |m.Keys| + 1;
    }
  }

  lemma RegisterSnoc(m: map<Key, Cell>, cs: seq<Cell>, c: Cell)
    ensures RegisterAll(m, cs + [c]) == RegisterAll(m, cs)[KeyOf(c) := c]
  {
    assert (cs + [c])[..|cs|] == cs;
  }

  lemma {:induction false} RegisterAllAppend(m: map<Key, Cell>, a: seq<Cell>, b: seq<Cell>)
    ensures RegisterAll(m, a + b) == RegisterAll(RegisterAll(m, a), b)
    decreases |b|
  {
    if b != [] {
      var front, last := b[..|b| - 1], b[|b| - 1];
      assert a + b == (a + front) + [last];
      assert b == front + [last];
      RegisterSnoc(m, a + front, last);
      RegisterSnoc(RegisterAll(m, a), front, last);
      RegisterAllAppend(m, a, front);
    } else {
      assert a + b == a;
    }
  }

  /** Storing a sequence of cells adds exactly their keys. */
  lemma {:induction false} RegisterAllKeys(m: map<Key, Cell>, cs: seq<Cell>)
    ensures RegisterAll(m, cs).Keys == m.Keys + KeysOf(cs)
    decreases |cs|
  {
    if cs != [] {
      var front, last := cs[..|cs| - 1], cs[|cs| - 1];
      assert cs == front + [last];
      RegisterAllKeys(m, front);
      assert KeysOf(cs) == KeysOf(front) + {KeyOf(last)};
    }
  }

  /** After storing a sequence of cells, each of them is the entry for its
      own key. */
  lemma {:induction false} RegisterAllStores(m: map<Key, Cell>, cs: seq<Cell>, c: Cell)
    requires c in cs
    ensures KeyOf(c) in RegisterAll(m, cs) && RegisterAll(m, cs)[KeyOf(c)] == c
    decreases |cs|
  {
    var front, last := cs[..|cs| - 1], cs[|cs| - 1];
    assert cs == front + [last];
    if c != last {
      assert c in front;
      RegisterAllStores(m, front, c);
    }
  }

  /** Storing a sequence of cells leaves the entries of other keys alone. */
  lemma {:induction false} RegisterAllKeeps(m: map<Key, Cell>, cs: seq<Cell>, k: Key)
    requires k in m && forall c :: c in cs ==> KeyOf(c) != k
    ensures k in RegisterAll(m, cs) && RegisterAll(m, cs)[k] == m[k]
    decreases |cs|
  {
    if cs != [] {
      var front := cs[..|cs| - 1];
      assert forall c :: c in front ==> c in cs;
      RegisterAllKeeps(m, front, k);
    }
  }

  /** Storing a sequence of cells keeps the registry canonical. */
  lemma {:induction false} RegisterAllCanonical(m: map<Key, Cell>, cs: seq<Cell>)
    requires Canonical(m)
    ensures Canonical(RegisterAll(m, cs))
    decreases |cs|
  {
    if cs != [] {
      RegisterAllCanonical(m, cs[..|cs| - 1]);
      RegisterOne(RegisterAll(m, cs[..|cs| - 1]), cs[|cs| - 1]);
    }
  }

  // ---------------------------------------------------------------------
  // The board

  class Board {
    const tileWidth: int
    const tileVisibilityRadius: int

    /** The registry: coordinate pair to the cell stored for it. */
    var knownCells: map<Key, Cell>

    ghost predicate Valid()
      reads this
    {
      Canonical(knownCells)
    }

    constructor (tileWidth: int, tileVisibilityRadius: int)
      ensures this.tileWidth == tileWidth && this.tileVisibilityRadius == tileVisibilityRadius
      ensures knownCells == map[] && Valid()
    {
      this.tileWidth := tileWidth;
      this.tileVisibilityRadius := tileVisibilityRadius;
      knownCells := map[];
    }

    /** Stores `cell` under its coordinates, replacing any earlier entry,
        and returns the stored entry, which is `cell` itself. */
    method GetCanonicalCell(cell: Cell) returns (r: Cell)
      requires Valid()
      modifies this
      ensures Valid()
      ensures knownCells == old(knownCells)[KeyOf(cell) := cell]
      ensures r == cell
      ensures |knownCells| <= |old(knownCells)| + 1
      ensures forall k :: k in old(knownCells) && k != KeyOf(cell) ==> k in knownCells && knownCells[k] == old(knownCells)[k]
    {
      RegisterOne(knownCells, cell);
      var key := KeyOf(cell);
      knownCells := knownCells[key := cell];
      r := knownCells[key];
    }

    /** The cell of a point, registered. */
    method GetCellForPoint(point: Point, quantize: real -> int) returns (c: Cell)
      requires Valid()
      modifies this
      ensures Valid()
      ensures c == CellOf(point, quantize)
      ensures knownCells == old(knownCells)[KeyOf(c) := c]
    {
      var i := quantize(point.lat * CellDegrees);
      var j := quantize(point.lng * CellDegrees);
      c := GetCanonicalCell(Cell(i, j));
    }

    /** The rectangle, in degrees, spanned by the cell's own corner and the
        corner one tile width further on, normalised to the smallest box
        containing both (as Leaflet's latLngBounds does). */
    function GetCellBounds(cell: Cell): (b: Bounds)
      ensures Contains(b, Degrees(cell.i), Degrees(cell.j))
      ensures Contains(b, Degrees(cell.i + tileWidth), Degrees(cell.j + tileWidth))
      ensures forall b' ::
        (Contains(b', Degrees(cell.i), Degrees(cell.j)) &&
         Contains(b', Degrees(cell.i + tileWidth), Degrees(cell.j + tileWidth))) ==> Within(b, b')
      ensures tileWidth >= 0 ==>
        b == Bounds(Degrees(cell.i), Degrees(cell.j), Degrees(cell.i + tileWidth), Degrees(cell.j + tileWidth))
    {
      var south, west := Degrees(cell.i), Degrees(cell.j);
      var north, east := Degrees(cell.i + tileWidth), Degrees(cell.j + tileWidth);
      Bounds(Min(south, north), Min(west, east), Max(south, north), Max(west, east))
    }

    /** The inner loop: registers the cells at i-offset `di` from `origin`
        and every j-offset -r, -r + w, ... below r, and returns them in
        visiting order. */
    method VisitRow(origin: Cell, di: int) returns (row: seq<Cell>)
      requires Valid()
      requires tileWidth > 0
      modifies this
      ensures Valid()
      ensures row == Row(origin, di, Offsets(tileVisibilityRadius, tileWidth))
      ensures knownCells == RegisterAll(old(knownCells), row)
    {
      ghost var start := knownCells;
      var r, w := tileVisibilityRadius, tileWidth;
      ghost var cols: seq<int> := [];
      row := [];
      var dj := -r;
      while dj < r
        invariant Offsets(r, w) == cols + Steps(dj, r, w)
        invariant row == Row(origin, di, cols)
        invariant knownCells == RegisterAll(start, row)
        invariant Valid()
        decreases r - dj
      {
        var c := GetCanonicalCell(Cell(origin.i + di, origin.j + dj));
        RegisterSnoc(start, row, c);
        RowSnoc(origin, di, cols, dj);
        StepsSnoc(cols, dj, r, w);
        row := row + [c];
        cols := cols + [dj];
        dj := dj + w;
      }
      assert cols == Offsets(r, w);
    }

    /** Registers the origin cell of `point` and every cell offset from it by
        (di, dj) with di, dj running over -r, -r + w, ... below r (r the
        visibility radius, w the tile width), i-offset outermost; returns
        the cells in visiting order. */
    method GetCellsNearPoint(point: Point, quantize: real -> int) returns (cells: seq<Cell>)
      requires Valid()
      requires tileWidth > 0 || tileVisibilityRadius <= 0
      modifies this
      ensures Valid()
      ensures cells == NearCells(CellOf(point, quantize), tileVisibilityRadius, tileWidth)
      ensures knownCells == RegisterAll(old(knownCells)[KeyOf(CellOf(point, quantize)) := CellOf(point, quantize)], cells)
      ensures KeyOf(CellOf(point, quantize)) in knownCells
      ensures forall c :: c in cells ==> KeyOf(c) in knownCells && knownCells[KeyOf(c)] == c
      ensures old(knownCells).Keys <= knownCells.Keys
    {
      var origin := GetCellForPoint(point, quantize);
      ghost var start := knownCells;
      var r, w := tileVisibilityRadius, tileWidth;
      ghost var offsets := Offsets(r, w);
      StepsLength(-r, r, w);
      cells := [];
      ghost var k: nat := 0;
      var di := -r;
      while di < r
        invariant w > 0 || r <= di
        invariant k <= |offsets| && di == -r + k * w
        invariant k < |offsets| <==> di < r
        invariant cells == Grid(origin, offsets[..k], offsets)
        invariant knownCells == RegisterAll(start, cells)
        invariant Valid()
        decreases r - di
      {
        var row := VisitRow(origin, di);
        OuterStep(offsets, k, di, r, w);
        GridSnoc(origin, offsets, k);
        RegisterAllAppend(start, cells, row);
        cells := cells + row;
        k := k + 1;
        di := di + w;
      }
      assert offsets[..k] == offsets;
      RegisterOne(old(knownCells), origin);
      RegisterAllKeys(start, cells);
      forall c | c in cells ensures KeyOf(c) in knownCells && knownCells[KeyOf(c)] == c {
        RegisterAllStores(start, cells, c);
      }
    }
  }

  /** A quantizer that rounds a scaled coordinate down to an index. */
  ghost predicate RoundsDown(quantize: real -> int) {
    forall x :: quantize(x) as real <= x < quantize(x) as real + 1.0
  }

  /** With indices rounded down and a tile width of at least one, the
      bounds of the cell of a point contain the point. */
  lemma PointInItsCell(board: Board, p: Point, quantize: real -> int)
    requires RoundsDown(quantize)
    requires board.tileWidth >= 1
    ensures Contains(board.GetCellBounds(CellOf(p, quantize)), p.lat, p.lng)
  {
    var c := CellOf(p, quantize);
    assert c.i as real <= p.lat * CellDegrees < c.i as real + 1.0;
    assert c.j as real <= p.lng * CellDegrees < c.j as real + 1.0;
  }
}
