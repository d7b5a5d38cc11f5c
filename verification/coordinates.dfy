/** Day 6: seed coordinates on a grid, the cells each seed is uniquely
    nearest to under the Manhattan distance, and the regions that reach the
    edge of the bounding box. */
module Coordinates {
  import opened Wrappers
  import opened Numbers
  import Text

  /** A grid position, `(i32, i32)` in the solver. */
  datatype Point = Point(x: int, y: int)

  function Abs(n: int): (r: nat)
    ensures r == n || r == -n
  {
    if n < 0 then -n else n
  }

  function Max(a: int, b: int): (r: int)
    ensures a <= r && b <= r
    ensures r == a || r == b
  {
    if a < b then b else a
  }

  /** `calculate_distance`: the taxicab distance. */
  function Distance(p: Point, q: Point): (d: int)
    ensures d >= 0
    ensures d == 0 <==> p == q
    ensures d >= Abs(p.x - q.x) && d >= Abs(p.y - q.y)
  {
    Abs(p.x - q.x) + Abs(p.y - q.y)
  }

  lemma DistanceSymmetric(p: Point, q: Point)
    ensures Distance(p, q) == Distance(q, p)
  {
  }

  lemma DistanceTriangle(p: Point, q: Point, r: Point)
    ensures Distance(p, r) <= Distance(p, q) + Distance(q, r)
  {
  }

  /** `calculate_map_bounds`: the largest x and the largest y over all
      seeds, as the far corner of the box. The solver unwraps the maxima,
      so the seed list must not be empty. */
  function Bounds(seeds: seq<Point>): (b: Point)
    requires |seeds| > 0
    ensures forall i :: 0 <= i < |seeds| ==> seeds[i].x <= b.x && seeds[i].y <= b.y
    ensures exists i :: 0 <= i < |seeds| && seeds[i].x == b.x
    ensures exists i :: 0 <= i < |seeds| && seeds[i].y == b.y
  {
    if |seeds| == 1 then seeds[0]
    else
      var rest := Bounds(seeds[1..]);
      assert forall i :: 1 <= i < |seeds| ==> seeds[i] == seeds[1..][i - 1];
      Point(Max(seeds[0].x, rest.x), Max(seeds[0].y, rest.y))
  }

  /** The starting value of the nearest-seed scan: a seed counts only when
      it is closer than this. */
  const Sentinel: int := 1000

  /** The three variables of the scan over the seeds: `lowest_distance`,
      `input_index` and `all_equal`. */
  datatype Probe = Probe(lowest: int, index: nat, tied: bool)

  /** One iteration of the scan, for seed `i` at distance `d`: an equal
      distance marks a tie, a smaller one takes over and clears the tie, a
      larger one is skipped. */
  function Visit(p: Probe, i: nat, d: int): (r: Probe)
    ensures r.lowest <= p.lowest && r.lowest <= d && (r.lowest == p.lowest || r.lowest == d)
    ensures d < p.lowest ==> r.index == i
    ensures d >= p.lowest ==> r.index == p.index
    ensures r.tied <==> (d == p.lowest || (p.tied && d > p.lowest))
  {
    if d == p.lowest then p.(tied := true)
    else if d > p.lowest then p
    else Probe(d, i, false)
  }

  /** The scan over `seeds` in order for one cell, `lowest` starting at the
      sentinel. */
  function Scan(seeds: seq<Point>, cell: Point): (r: Probe)
    ensures r.lowest <= Sentinel
    ensures forall j :: 0 <= j < |seeds| ==> r.lowest <= Distance(seeds[j], cell)
    ensures r.lowest < Sentinel ==> r.index < |seeds| && Distance(seeds[r.index], cell) == r.lowest
    ensures r.lowest < Sentinel ==> forall j :: 0 <= j < r.index ==> r.lowest < Distance(seeds[j], cell)
    ensures r.lowest == Sentinel ==> r.index == 0
  {
    if |seeds| == 0 then Probe(Sentinel, 0, false)
    else
      var i := |seeds| - 1;
      var p := Scan(seeds[..i], cell);
      assert forall j :: 0 <= j < i ==> seeds[j] == seeds[..i][j];
      Visit(p, i, Distance(seeds[i], cell))
  }

  /** Seed `j` meets the lowest distance of `p` and counts as a tie: it is
      not the seed `p` holds, or the lowest distance is still the sentinel. */
  predicate Rival(seeds: seq<Point>, cell: Point, p: Probe, j: int) {
    0 <= j < |seeds| && Distance(seeds[j], cell) == p.lowest && (p.lowest == Sentinel || j != p.index)
  }

  /** Visiting the last seed keeps "tied exactly when some seed is a rival". */
  lemma VisitTie(seeds: seq<Point>, cell: Point, p: Probe)
    requires |seeds| > 0 && p.lowest <= Sentinel
    requires forall j :: 0 <= j < |seeds| - 1 ==> p.lowest <= Distance(seeds[j], cell)
    requires p.lowest < Sentinel ==> p.index < |seeds| - 1
    requires p.tied <==> exists j :: j < |seeds| - 1 && Rival(seeds, cell, p, j)
    ensures var i := |seeds| - 1;
      Visit(p, i, Distance(seeds[i], cell)).tied <==> exists j :: Rival(seeds, cell, Visit(p, i, Distance(seeds[i], cell)), j)
  {
    var i := |seeds| - 1;
    var d := Distance(seeds[i], cell);
    var r := Visit(p, i, d);
    if d == p.lowest {
      assert Rival(seeds, cell, r, i);
    } else if d > p.lowest {
      forall j | Rival(seeds, cell, r, j)
        ensures j < i
      {
      }
    } else {
      forall j | 0 <= j < |seeds|
        ensures !Rival(seeds, cell, r, j)
      {
        if j < i {
          assert Distance(seeds[j], cell) >= p.lowest;
        }
      }
    }
  }

  /** The scan ends tied exactly when some seed is a rival. */
  lemma {:induction false} ScanTie(seeds: seq<Point>, cell: Point)
    ensures Scan(seeds, cell).tied <==> exists j :: Rival(seeds, cell, Scan(seeds, cell), j)
  {
    if |seeds| > 0 {
      var i := |seeds| - 1;
      var front := seeds[..i];
      ScanTie(front, cell);
      var p := Scan(front, cell);
      assert forall j :: 0 <= j < i ==> seeds[j] == front[j];
      assert forall j :: Rival(front, cell, p, j) <==> j < i && Rival(seeds, cell, p, j);
      VisitTie(seeds, cell, p);
    }
  }

  /** A seed strictly nearest, and nearer than the sentinel, ends the scan
      as its index with no tie. */
  lemma ScanFindsUnique(seeds: seq<Point>, cell: Point)
    ensures forall i: nat :: UniqueNearest(seeds, cell, i) ==> Scan(seeds, cell) == Probe(Distance(seeds[i], cell), i, false)
  {
    forall i: nat | UniqueNearest(seeds, cell, i)
      ensures Scan(seeds, cell) == Probe(Distance(seeds[i], cell), i, false)
    {
      var p := Scan(seeds, cell);
      assert p.lowest <= Distance(seeds[i], cell);
      assert p.lowest == Distance(seeds[i], cell) < Sentinel;
      assert p.index == i;
    }
  }

  /** A scan that ends untied holds the unique nearest seed, or every seed
      lies beyond the sentinel and the index is still 0; seeds all beyond
      the sentinel leave the scan untied at index 0. */
  lemma ScanUntied(seeds: seq<Point>, cell: Point)
    ensures var p := Scan(seeds, cell);
      && (!p.tied ==> UniqueNearest(seeds, cell, p.index) || (BeyondSentinel(seeds, cell) && p.index == 0))
      && (BeyondSentinel(seeds, cell) ==> !p.tied && p.index == 0)
  {
    var p := Scan(seeds, cell);
    ScanTie(seeds, cell);
    if !p.tied {
      forall j | 0 <= j < |seeds|
        ensures p.lowest < Distance(seeds[j], cell) || (p.lowest < Sentinel && j == p.index)
      {
        assert !Rival(seeds, cell, p, j);
      }
    }
  }

  /** Seed `i` is strictly nearer to `cell` than every other seed, and
      nearer than the sentinel. */
  predicate UniqueNearest(seeds: seq<Point>, cell: Point, i: nat) {
    i < |seeds| && Distance(seeds[i], cell) < Sentinel
    && forall j :: 0 <= j < |seeds| && j != i ==> Distance(seeds[i], cell) < Distance(seeds[j], cell)
  }

  /** Every seed lies beyond the sentinel. */
  predicate BeyondSentinel(seeds: seq<Point>, cell: Point) {
    forall j :: 0 <= j < |seeds| ==> Sentinel < Distance(seeds[j], cell)
  }

  /** The seed a cell is given to, or `None` when the scan ends tied. */
  function Nearest(seeds: seq<Point>, cell: Point): (r: Option<nat>)
    ensures r.Some? ==> UniqueNearest(seeds, cell, r.value) || (BeyondSentinel(seeds, cell) && r.value == 0)
    ensures forall i: nat :: UniqueNearest(seeds, cell, i) ==> r == Some(i)
    ensures BeyondSentinel(seeds, cell) ==> r == Some(0)
  {
    ScanFindsUnique(seeds, cell);
    ScanUntied(seeds, cell);
    var p := Scan(seeds, cell);
    if p.tied then None else Some(p.index)
  }

  /** Two seeds at the same smallest distance, below or at the sentinel,
      leave the cell to nobody. */
  lemma TieDropped(seeds: seq<Point>, cell: Point, i: nat, j: nat)
    requires i < |seeds| && j < |seeds| && i != j
    requires Distance(seeds[i], cell) == Distance(seeds[j], cell) <= Sentinel
    requires forall k :: 0 <= k < |seeds| ==> Distance(seeds[i], cell) <= Distance(seeds[k], cell)
    ensures Nearest(seeds, cell) == None
  {
  }

  /** The sentinel quirk: with no seed nearer than the sentinel, one seed
      exactly at it drops the cell. */
  lemma SentinelDropped(seeds: seq<Point>, cell: Point, i: nat)
    requires i < |seeds| && Distance(seeds[i], cell) == Sentinel
    requires forall k :: 0 <= k < |seeds| ==> Sentinel <= Distance(seeds[k], cell)
    ensures Nearest(seeds, cell) == None
  {
  }

  /** The cells of the box `[0, xMax] × [0, yMax]`. */
  predicate InBox(c: Point, corner: Point) {
    0 <= c.x <= corner.x && 0 <= c.y <= corner.y
  }

  predicate Distinct<T(==)>(s: seq<T>) {
    forall a, b :: 0 <= a < b < |s| ==> s[a] != s[b]
  }

  /** The inner loop `for y in 0..=y_max` at column `x`. */
  function Column(x: int, yMax: int): (r: seq<Point>)
    ensures forall c :: c in r <==> c.x == x && 0 <= c.y <= yMax
    ensures Distinct(r)
  {
    if yMax < 0 then []
    else
      var r := seq(yMax + 1, y => Point(x, y));
      assert forall c: Point :: c.x == x && 0 <= c.y <= yMax ==> r[c.y] == c;
      r
  }

  /** The two nested loops: columns `0..=x_max` in order, each column
      bottom to top. */
  function Cells(corner: Point): (r: seq<Point>)
    ensures forall c :: c in r <==> InBox(c, corner)
    ensures Distinct(r)
    decreases if corner.x < 0 then 0 else corner.x + 1
  {
    if corner.x < 0 then []
    else
      var front := Cells(Point(corner.x - 1, corner.y));
      var column := Column(corner.x, corner.y);
      assert forall a :: 0 <= a < |front| ==> front[a] in front;
      assert forall b :: 0 <= b < |column| ==> column[b] in column;
      DistinctAppend(front, column);
      front + column
  }

  lemma DistinctAppend<T>(a: seq<T>, b: seq<T>)
    requires Distinct(a) && Distinct(b)
    requires forall i, j :: 0 <= i < |a| && 0 <= j < |b| ==> a[i] != b[j]
    ensures Distinct(a + b)
  {
  }

  /** The cells of `cells` given to seed `i`, in scan order. */
  function Select(seeds: seq<Point>, cells: seq<Point>, i: nat): (r: seq<Point>)
    ensures forall c :: c in r <==> c in cells && Nearest(seeds, c) == Some(i)
  {
    if |cells| == 0 then []
    else
      var n := |cells| - 1;
      var c := cells[n];
      assert cells == cells[..n] + [c];
      Select(seeds, cells[..n], i) + (if Nearest(seeds, c) == Some(i) then [c] else [])
  }

  /** A region lists each of its cells once. */
  lemma {:induction false} SelectDistinct(seeds: seq<Point>, cells: seq<Point>, i: nat)
    requires Distinct(cells)
    ensures Distinct(Select(seeds, cells, i))
  {
    if |cells| > 0 {
      var n := |cells| - 1;
      assert Distinct(cells[..n]);
      SelectDistinct(seeds, cells[..n], i);
      assert cells[n] !in cells[..n];
      DistinctAppend(Select(seeds, cells[..n], i), if Nearest(seeds, cells[n]) == Some(i) then [cells[n]] else []);
    }
  }

  /** The map the solver builds: for every cell, in order,
      `entry(index).or_insert(Vec::new()).push(cell)` unless the scan tied. */
  function Allot(seeds: seq<Point>, cells: seq<Point>): (r: map<nat, seq<Point>>)
    ensures forall i :: i in r <==> Select(seeds, cells, i) != []
    ensures forall i :: i in r ==> r[i] == Select(seeds, cells, i)
  {
    if |cells| == 0 then map[]
    else
      var n := |cells| - 1;
      var c := cells[n];
      var acc := Allot(seeds, cells[..n]);
      SelectStep(seeds, cells);
      match Nearest(seeds, c)
      case None => acc
      case Some(i) => acc[i := (if i in acc then acc[i] else []) + [c]]
  }

  /** One more cell extends exactly the region of its seed. */
  lemma SelectStep(seeds: seq<Point>, cells: seq<Point>)
    requires |cells| > 0
    ensures forall i: nat :: Select(seeds, cells, i)
                          == Select(seeds, cells[..|cells| - 1], i)
                             + (if Nearest(seeds, cells[|cells| - 1]) == Some(i) then [cells[|cells| - 1]] else [])
  {
  }

  /** `determine_closest_points`: each cell of the bounding box goes to the
      seed it is uniquely nearest to; tied cells go nowhere. */
  function ClosestPoints(seeds: seq<Point>): (r: map<nat, seq<Point>>)
    requires |seeds| > 0
    ensures forall i, c :: i in r && c in r[i] ==> InBox(c, Bounds(seeds)) && Nearest(seeds, c) == Some(i)
    ensures forall i: nat, c :: InBox(c, Bounds(seeds)) && Nearest(seeds, c) == Some(i) ==> i in r && c in r[i]
    ensures forall i :: i in r ==> r[i] != [] && Distinct(r[i])
  {
    var cells := Cells(Bounds(seeds));
    var r := Allot(seeds, cells);
    forall i | i in r
      ensures Distinct(r[i])
    {
      SelectDistinct(seeds, cells, i);
    }
    r
  }

  /** No cell lies in two regions. */
  lemma RegionsDisjoint(seeds: seq<Point>, i: nat, j: nat, c: Point)
    requires |seeds| > 0
    ensures var r := ClosestPoints(seeds);
            i in r && j in r && c in r[i] && c in r[j] ==> i == j
  {
  }

  /** A cell on the border of the box. */
  predicate OnEdge(c: Point, corner: Point) {
    c.x == 0 || c.y == 0 || c.x == corner.x || c.y == corner.y
  }

  predicate TouchesEdge(cells: seq<Point>, corner: Point) {
    exists c :: c in cells && OnEdge(c, corner)
  }

  /** `remove_edge_locations`: drop every region with a cell on the border
      of the box the seeds span. */
  function RemoveEdgeLocations(seeds: seq<Point>, regions: map<nat, seq<Point>>): (r: map<nat, seq<Point>>)
    requires |seeds| > 0
    ensures r.Keys <= regions.Keys
    ensures forall i :: i in r ==> r[i] == regions[i]
    ensures forall i :: i in regions ==>
              (i in r <==> forall c :: c in regions[i] ==> !OnEdge(c, Bounds(seeds)))
  {
    var corner := Bounds(seeds);
    map i | i in regions && !TouchesEdge(regions[i], corner) :: regions[i]
  }

  /** Removing edge regions a second time changes nothing. */
  lemma RemoveEdgeLocationsIdempotent(seeds: seq<Point>, regions: map<nat, seq<Point>>)
    requires |seeds| > 0
    ensures RemoveEdgeLocations(seeds, RemoveEdgeLocations(seeds, regions)) == RemoveEdgeLocations(seeds, regions)
  {
  }

  /** Every cell of a region that survives edge removal lies strictly
      inside the box. */
  lemma InteriorRegions(seeds: seq<Point>, i: nat, c: Point)
    requires |seeds| > 0
    ensures var kept := RemoveEdgeLocations(seeds, ClosestPoints(seeds));
            i in kept && c in kept[i] ==> 0 < c.x < Bounds(seeds).x && 0 < c.y < Bounds(seeds).y
  {
    var kept := RemoveEdgeLocations(seeds, ClosestPoints(seeds));
    if i in kept && c in kept[i] {
      assert c in ClosestPoints(seeds)[i];
    }
  }

  /** The line format `"x, y"`. */
  function Render(p: Point): string {
    SignedDecimal(p.x) + ", " + SignedDecimal(p.y)
  }

  /** `parse_point`: split on `", "` and parse the first two pieces as
      `i32`; `None` where indexing or unwrapping would panic. Pieces past
      the second are ignored. */
  function ParsePoint(line: string): (r: Option<Point>)
    ensures r.Some? ==> I32_MIN <= r.value.x <= I32_MAX && I32_MIN <= r.value.y <= I32_MAX
    ensures var pieces := Text.SplitOn(line, ", ");
      r.Some? <==> |pieces| >= 2 && ParseI32(pieces[0]).Some? && ParseI32(pieces[1]).Some?
    ensures var pieces := Text.SplitOn(line, ", ");
      r.Some? ==> r.value == Point(ParseI32(pieces[0]).value, ParseI32(pieces[1]).value)
  {
    var pieces := Text.SplitOn(line, ", ");
    if |pieces| < 2 then None
    else
      match (ParseI32(pieces[0]), ParseI32(pieces[1]))
      case (Some(x), Some(y)) => Some(Point(x, y))
      case _ => None
  }

  /** A line without the separator is rejected. */
  lemma ParsePointNeedsSeparator(line: string)
    requires !Text.Contains(line, ", ")
    ensures ParsePoint(line) == None
  {
    Text.ContainsFind(line, ", ");
  }

  /** A numeral holds digits and at most a '-', never a ','. */
  lemma NoCommaInNumeral(n: int)
    ensures forall k :: 0 <= k < |SignedDecimal(n)| ==> SignedDecimal(n)[k] != ','
  {
    if n < 0 {
      DecimalDigits(-n);
      assert forall k :: 1 <= k < |SignedDecimal(n)| ==> SignedDecimal(n)[k] == Decimal(-n)[k - 1];
    } else {
      DecimalDigits(n);
    }
  }

  /** Parsing a rendered point gives the point back. */
  lemma ParseRender(p: Point)
    requires I32_MIN <= p.x <= I32_MAX && I32_MIN <= p.y <= I32_MAX
    ensures ParsePoint(Render(p)) == Some(p)
  {
    NoCommaInNumeral(p.x);
    NoCommaInNumeral(p.y);
    Text.SplitOnPair(SignedDecimal(p.x), ", ", SignedDecimal(p.y));
    ParseI32SignedDecimal(p.x);
    ParseI32SignedDecimal(p.y);
  }
}
