/** The worked examples of day 6: distances, parsing, the sentinel, and the
    six-seed grid whose two inner regions hold 9 and 17 cells. */
module CoordinatesExamples {
  import opened Wrappers
  import opened Coordinates

  lemma DistanceExamples()
    ensures Distance(Point(1, 1), Point(5, 0)) == 5
    ensures Distance(Point(5, 5), Point(5, 0)) == 5
  {
  }

  lemma ParseExample()
    ensures ParsePoint("46, 246") == Some(Point(46, 246))
  {
    assert Render(Point(46, 246)) == "46, 246";
    ParseRender(Point(46, 246));
  }

  /** A lone seed exactly at the sentinel drops the cell; one beyond it
      takes the cell as index 0, and a second seed exactly at the sentinel
      drops the cell again although it is the nearer one. */
  lemma SentinelExamples()
    ensures Nearest([Point(1000, 0)], Point(0, 0)) == None
    ensures Nearest([Point(1001, 0)], Point(0, 0)) == Some(0)
    ensures Nearest([Point(1001, 0), Point(0, 1000)], Point(0, 0)) == None
  {
    SentinelDropped([Point(1000, 0)], Point(0, 0), 0);
    SentinelSecond([Point(1001, 0), Point(0, 1000)]);
  }

  lemma SentinelSecond(seeds: seq<Point>)
    requires |seeds| == 2 && seeds[0] == Point(1001, 0) && seeds[1] == Point(0, 1000)
    ensures Nearest(seeds, Point(0, 0)) == None
  {
    assert Distance(seeds[0], Point(0, 0)) == 1001 && Distance(seeds[1], Point(0, 0)) == 1000;
    SentinelDropped(seeds, Point(0, 0), 1);
  }

  /** The six seeds of the example, element by element. The regions are
      stated for any list with these elements: naming the literal list
      itself would make the verifier unfold the whole grid. */
  predicate ExampleSeeds(seeds: seq<Point>) {
    |seeds| == 6
    && seeds[0] == Point(1, 1) && seeds[1] == Point(1, 6) && seeds[2] == Point(8, 3)
    && seeds[3] == Point(3, 4) && seeds[4] == Point(5, 5) && seeds[5] == Point(8, 9)
  }

  lemma ExampleSeedsLiteral()
    ensures ExampleSeeds([Point(1, 1), Point(1, 6), Point(8, 3), Point(3, 4), Point(5, 5), Point(8, 9)])
  {
  }

  /** The example grid spans `[0, 8] × [0, 9]`. */
  lemma ExampleBounds(seeds: seq<Point>)
    requires ExampleSeeds(seeds)
    ensures Bounds(seeds).x == 8 && Bounds(seeds).y == 9
  {
    var b := Bounds(seeds);
    assert seeds[2].x <= b.x && seeds[5].y <= b.y;
  }

  predicate InExampleBox(c: Point) {
    0 <= c.x <= 8 && 0 <= c.y <= 9
  }

  /** The region of seed 3 at (3, 4), column by column. */
  const Three: seq<Point> := [
    Point(2, 3), Point(2, 4), Point(3, 2), Point(3, 3), Point(3, 4),
    Point(3, 5), Point(4, 2), Point(4, 3), Point(4, 4)
  ]

  /** The region of seed 4 at (5, 5), column by column. */
  const Four: seq<Point> := [
    Point(4, 5), Point(4, 6), Point(4, 7), Point(4, 8), Point(5, 2),
    Point(5, 3), Point(5, 4), Point(5, 5), Point(5, 6), Point(5, 7),
    Point(5, 8), Point(6, 4), Point(6, 5), Point(6, 6), Point(6, 7),
    Point(7, 5), Point(7, 6)
  ]

  /** Seed `i` is strictly nearest to `c` among the six, spelled out seed by seed. */
  predicate NearestOfSix(seeds: seq<Point>, c: Point, i: nat)
    requires |seeds| == 6 && i < 6
  {
    Distance(seeds[i], c) < Sentinel
    && (i == 0 || Distance(seeds[i], c) < Distance(seeds[0], c))
    && (i == 1 || Distance(seeds[i], c) < Distance(seeds[1], c))
    && (i == 2 || Distance(seeds[i], c) < Distance(seeds[2], c))
    && (i == 3 || Distance(seeds[i], c) < Distance(seeds[3], c))
    && (i == 4 || Distance(seeds[i], c) < Distance(seeds[4], c))
    && (i == 5 || Distance(seeds[i], c) < Distance(seeds[5], c))
  }

  lemma NearestOfSixMeans(seeds: seq<Point>, c: Point, i: nat)
    requires |seeds| == 6 && i < 6
    ensures UniqueNearest(seeds, c, i) <==> NearestOfSix(seeds, c, i)
  {
    if NearestOfSix(seeds, c, i) {
      forall j | 0 <= j < |seeds| && j != i
        ensures Distance(seeds[i], c) < Distance(seeds[j], c)
      {
        assert j == 0 || j == 1 || j == 2 || j == 3 || j == 4 || j == 5;
      }
    }
  }

  /** Region 3 column by column. */
  predicate ThreeShape(c: Point) {
    (c.x == 2 && 3 <= c.y <= 4) || (c.x == 3 && 2 <= c.y <= 5) || (c.x == 4 && 2 <= c.y <= 4)
  }

  /** Region 4 column by column. */
  predicate FourShape(c: Point) {
    (c.x == 4 && 5 <= c.y <= 8) || (c.x == 5 && 2 <= c.y <= 8)
    || (c.x == 6 && 4 <= c.y <= 7) || (c.x == 7 && 5 <= c.y <= 6)
  }

  lemma ThreeShapeList(c: Point)
    ensures ThreeShape(c) <==> c in Three
  {
  }

  lemma FourShapeList(c: Point)
    ensures FourShape(c) <==> c in Four
  {
  }

  lemma ThreeDistinct()
    ensures Distinct(Three)
  {
  }

  lemma FourDistinct()
    ensures Distinct(Four)
  {
  }

  lemma ThreeCells(seeds: seq<Point>, c: Point)
    requires ExampleSeeds(seeds) && InExampleBox(c)
    ensures NearestOfSix(seeds, c, 3) <==> ThreeShape(c)
  {
    if c.x == 0 {
    } else if c.x == 1 {
    } else if c.x == 2 {
    } else if c.x == 3 {
    } else if c.x == 4 {
    } else if c.x == 5 {
    } else if c.x == 6 {
    } else if c.x == 7 {
    } else if c.x == 8 {
    }
  }

  lemma FourCells(seeds: seq<Point>, c: Point)
    requires ExampleSeeds(seeds) && InExampleBox(c)
    ensures NearestOfSix(seeds, c, 4) <==> FourShape(c)
  {
    if c.x <= 4 {
      FourCellsLeft(seeds, c);
    } else {
      FourCellsRight(seeds, c);
    }
  }

  lemma FourCellsLeft(seeds: seq<Point>, c: Point)
    requires ExampleSeeds(seeds) && InExampleBox(c) && c.x <= 4
    ensures NearestOfSix(seeds, c, 4) <==> FourShape(c)
  {
    if c.x == 0 {
    } else if c.x == 1 {
    } else if c.x == 2 {
    } else if c.x == 3 {
    } else if c.x == 4 {
    }
  }

  lemma FourCellsRight(seeds: seq<Point>, c: Point)
    requires ExampleSeeds(seeds) && InExampleBox(c) && 5 <= c.x
    ensures NearestOfSix(seeds, c, 4) <==> FourShape(c)
  {
    if c.x == 5 {
    } else if c.x == 6 {
    } else if c.x == 7 {
    } else if c.x == 8 {
    }
  }

  /** A region's cells are distinct, so the region has as many cells as
      its set of cells has members. */
  lemma {:induction false} DistinctCardinality(s: seq<Point>)
    requires Distinct(s)
    ensures |set c | c in s| == |s|
  {
    if |s| > 0 {
      assert Distinct(s[1..]);
      DistinctCardinality(s[1..]);
      assert (set c | c in s) == {s[0]} + (set c | c in s[1..]);
      assert s[0] !in s[1..];
    }
  }

  /** What the grid scan promises about its map `r`: the regions partition
      the uniquely owned cells of the box, each cell once. */
  ghost predicate Partition(seeds: seq<Point>, r: map<nat, seq<Point>>)
    requires |seeds| > 0
  {
    (forall i, c :: i in r && c in r[i] ==> InBox(c, Bounds(seeds)) && Nearest(seeds, c) == Some(i))
    && (forall c :: InBox(c, Bounds(seeds)) && Nearest(seeds, c).Some? ==>
          Nearest(seeds, c).value in r && c in r[Nearest(seeds, c).value])
    && (forall i :: i in r ==> r[i] != [] && Distinct(r[i]))
  }

  lemma ClosestPointsPartition(seeds: seq<Point>)
    requires |seeds| > 0
    ensures Partition(seeds, ClosestPoints(seeds))
  {
  }

  /** When `cells` lists, once each, exactly the in-box cells seed `i` is
      strictly nearest to, region `i` is present and holds those cells,
      once per cell. */
  lemma RegionIs(seeds: seq<Point>, r: map<nat, seq<Point>>, i: nat, cells: seq<Point>)
    requires ExampleSeeds(seeds) && Partition(seeds, r) && i < 6
    requires forall c :: c in cells <==> InExampleBox(c) && NearestOfSix(seeds, c, i)
    requires |cells| > 0 && Distinct(cells)
    ensures i in r && (forall c :: c in r[i] <==> c in cells) && |r[i]| == |cells|
  {
    RegionCovers(seeds, r, i, cells);
    RegionWithin(seeds, r, i, cells);
    assert (set c | c in r[i]) == (set c | c in cells);
    DistinctCardinality(r[i]);
    DistinctCardinality(cells);
  }

  lemma RegionCovers(seeds: seq<Point>, r: map<nat, seq<Point>>, i: nat, cells: seq<Point>)
    requires ExampleSeeds(seeds) && Partition(seeds, r) && i < 6 && |cells| > 0
    requires forall c :: c in cells ==> InExampleBox(c) && NearestOfSix(seeds, c, i)
    ensures i in r && forall c :: c in cells ==> c in r[i]
  {
    ExampleBounds(seeds);
    forall c | c in cells
      ensures i in r && c in r[i]
    {
      NearestOfSixMeans(seeds, c, i);
      assert Nearest(seeds, c) == Some(i);
      assert InBox(c, Bounds(seeds));
    }
    assert cells[0] in cells;
  }

  /** Inside the example box no seed is beyond the sentinel, so the owner
      of a cell is its strictly nearest seed. */
  lemma OwnerIsNearest(seeds: seq<Point>, c: Point, i: nat)
    requires ExampleSeeds(seeds) && InExampleBox(c) && i < 6 && Nearest(seeds, c) == Some(i)
    ensures NearestOfSix(seeds, c, i)
  {
    assert Distance(seeds[0], c) < Sentinel;
    assert UniqueNearest(seeds, c, i);
    NearestOfSixMeans(seeds, c, i);
  }

  lemma RegionWithin(seeds: seq<Point>, r: map<nat, seq<Point>>, i: nat, cells: seq<Point>)
    requires ExampleSeeds(seeds) && Partition(seeds, r) && i < 6 && i in r
    requires forall c :: InExampleBox(c) && NearestOfSix(seeds, c, i) ==> c in cells
    ensures forall c :: c in r[i] ==> c in cells
  {
    ExampleBounds(seeds);
    forall c | c in r[i]
      ensures c in cells
    {
      assert InBox(c, Bounds(seeds)) && Nearest(seeds, c) == Some(i);
      OwnerIsNearest(seeds, c, i);
    }
  }

  lemma RegionThree(seeds: seq<Point>, r: map<nat, seq<Point>>)
    requires ExampleSeeds(seeds) && Partition(seeds, r)
    ensures 3 in r && (forall c :: c in r[3] <==> c in Three) && |r[3]| == 9
  {
    forall c
      ensures c in Three <==> InExampleBox(c) && NearestOfSix(seeds, c, 3)
    {
      ThreeShapeList(c);
      if InExampleBox(c) {
        ThreeCells(seeds, c);
      }
    }
    ThreeDistinct();
    RegionIs(seeds, r, 3, Three);
  }

  lemma RegionFour(seeds: seq<Point>, r: map<nat, seq<Point>>)
    requires ExampleSeeds(seeds) && Partition(seeds, r)
    ensures 4 in r && (forall c :: c in r[4] <==> c in Four) && |r[4]| == 17
  {
    forall c
      ensures c in Four <==> InExampleBox(c) && NearestOfSix(seeds, c, 4)
    {
      FourShapeList(c);
      if InExampleBox(c) {
        FourCells(seeds, c);
      }
    }
    FourDistinct();
    RegionIs(seeds, r, 4, Four);
  }

  /** Seeds 0, 1, 2 and 5 each own a cell on the border. */
  lemma EdgeOwners(seeds: seq<Point>)
    requires ExampleSeeds(seeds)
    ensures NearestOfSix(seeds, Point(0, 0), 0) && NearestOfSix(seeds, Point(0, 5), 1)
    ensures NearestOfSix(seeds, Point(6, 0), 2) && NearestOfSix(seeds, Point(4, 9), 5)
  {
  }

  /** Seed `i` owns the cell `c` on the border, so its region goes. */
  lemma EdgeRegion(seeds: seq<Point>, r: map<nat, seq<Point>>, i: nat, c: Point)
    requires ExampleSeeds(seeds) && Partition(seeds, r) && i < 6
    requires InExampleBox(c) && (c.x == 0 || c.y == 0 || c.x == 8 || c.y == 9) && NearestOfSix(seeds, c, i)
    ensures i !in RemoveEdgeLocations(seeds, r)
  {
    ExampleBounds(seeds);
    NearestOfSixMeans(seeds, c, i);
    assert Nearest(seeds, c) == Some(i);
    assert InBox(c, Bounds(seeds)) && OnEdge(c, Bounds(seeds));
    assert i in r && c in r[i];
  }

  /** A region whose cells all lie strictly inside the box survives. */
  lemma InteriorKept(seeds: seq<Point>, r: map<nat, seq<Point>>, i: nat, cells: seq<Point>)
    requires ExampleSeeds(seeds) && i in r
    requires forall c :: c in r[i] <==> c in cells
    requires forall c :: c in cells ==> 0 < c.x < 8 && 0 < c.y < 9
    ensures i in RemoveEdgeLocations(seeds, r)
  {
    ExampleBounds(seeds);
  }

  lemma ThreeKept(seeds: seq<Point>, r: map<nat, seq<Point>>)
    requires ExampleSeeds(seeds) && Partition(seeds, r)
    ensures 3 in RemoveEdgeLocations(seeds, r)
  {
    RegionThree(seeds, r);
    InteriorKept(seeds, r, 3, Three);
  }

  lemma FourKept(seeds: seq<Point>, r: map<nat, seq<Point>>)
    requires ExampleSeeds(seeds) && Partition(seeds, r)
    ensures 4 in RemoveEdgeLocations(seeds, r)
  {
    RegionFour(seeds, r);
    InteriorKept(seeds, r, 4, Four);
  }

  /** Every region belongs to one of the six seeds. */
  lemma KeysBelowSix(seeds: seq<Point>, r: map<nat, seq<Point>>, i: nat)
    requires ExampleSeeds(seeds) && Partition(seeds, r) && i in r
    ensures i < 6
  {
    var c := r[i][0];
    assert c in r[i];
    assert Nearest(seeds, c) == Some(i);
  }

  lemma AllKeysBelowSix(seeds: seq<Point>, r: map<nat, seq<Point>>)
    requires ExampleSeeds(seeds) && Partition(seeds, r)
    ensures forall i :: i in r ==> i < 6
  {
    forall i | i in r
      ensures i < 6
    {
      KeysBelowSix(seeds, r, i);
    }
  }

  /** Of the keys below six, removal dropped 0, 1, 2 and 5 and kept 3 and 4. */
  lemma KeysExactly(e: map<nat, seq<Point>>, r: map<nat, seq<Point>>)
    requires e.Keys <= r.Keys && forall i :: i in r ==> i < 6
    requires 0 !in e && 1 !in e && 2 !in e && 5 !in e && 3 in e && 4 in e
    ensures e.Keys == {3, 4}
  {
  }

  /** After edge removal only the regions of 3 and 4 remain. */
  lemma InnerRegions(seeds: seq<Point>, r: map<nat, seq<Point>>)
    requires ExampleSeeds(seeds) && Partition(seeds, r)
    ensures RemoveEdgeLocations(seeds, r).Keys == {3, 4}
  {
    ExampleBounds(seeds);
    var e := RemoveEdgeLocations(seeds, r);
    EdgeOwners(seeds);
    EdgeRegion(seeds, r, 0, Point(0, 0));
    EdgeRegion(seeds, r, 1, Point(0, 5));
    EdgeRegion(seeds, r, 2, Point(6, 0));
    EdgeRegion(seeds, r, 5, Point(4, 9));
    ThreeKept(seeds, r);
    FourKept(seeds, r);
    AllKeysBelowSix(seeds, r);
    KeysExactly(e, r);
  }

  /** The grid scan of the example: seed 3 owns 9 cells and seed 4 owns 17. */
  lemma ExampleClosestPoints(seeds: seq<Point>)
    requires ExampleSeeds(seeds)
    ensures 3 in ClosestPoints(seeds) && |ClosestPoints(seeds)[3]| == 9
    ensures 4 in ClosestPoints(seeds) && |ClosestPoints(seeds)[4]| == 17
  {
    var r := ClosestPoints(seeds);
    ClosestPointsPartition(seeds);
    RegionThree(seeds, r);
    RegionFour(seeds, r);
  }

  /** Edge removal on the example keeps exactly the regions of 3 and 4. */
  lemma ExampleRemoval(seeds: seq<Point>)
    requires ExampleSeeds(seeds)
    ensures RemoveEdgeLocations(seeds, ClosestPoints(seeds)).Keys == {3, 4}
  {
    var r := ClosestPoints(seeds);
    ClosestPointsPartition(seeds);
    InnerRegions(seeds, r);
  }
}
