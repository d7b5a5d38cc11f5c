/** The source's test cases for day 3, proved of the model. */
module FabricExamples {
  import opened Wrappers
  import opened Numbers
  import opened Fabric

  lemma ExampleRender(r: Rectangle)
    requires r == Rectangle(123, 3, 2, 5, 4)
    ensures Render(r) == "#123 @ 3,2: 5x4"
  {
    assert Decimal(123) == "123";
  }

  /** The claim line of the source's parsing test reads back as its five numbers. */
  lemma ParseExample(line: string)
    requires line == "#123 @ 3,2: 5x4"
    ensures ParseRectangle(line) == Some(Rectangle(123, 3, 2, 5, 4))
  {
    var r := Rectangle(123, 3, 2, 5, 4);
    ExampleRender(r);
    ParseRender(r);
  }

  /** The three claims of the source's coverage tests. */
  const ExampleLines: seq<string> := ["#1 @ 1,3: 4x4", "#2 @ 3,1: 4x4", "#3 @ 5,5: 2x2"]
  const ClaimOne := Rectangle(1, 1, 3, 4, 4)
  const ClaimTwo := Rectangle(2, 3, 1, 4, 4)
  const ClaimThree := Rectangle(3, 5, 5, 2, 2)
  const ExampleClaims: seq<Rectangle> := [ClaimOne, ClaimTwo, ClaimThree]

  /** `rects` are the three example claims, in order. */
  predicate AreExampleClaims(rects: seq<Rectangle>) {
    |rects| == 3 && rects[0] == ClaimOne && rects[1] == ClaimTwo && rects[2] == ClaimThree
  }

  lemma SmallDecimals()
    ensures Decimal(1) == "1" && Decimal(2) == "2" && Decimal(3) == "3"
    ensures Decimal(4) == "4" && Decimal(5) == "5"
  {
  }

  lemma ExampleLineParses(line: string, r: Rectangle)
    requires (line == "#1 @ 1,3: 4x4" && r == ClaimOne) || (line == "#2 @ 3,1: 4x4" && r == ClaimTwo)
             || (line == "#3 @ 5,5: 2x2" && r == ClaimThree)
    ensures ParseRectangle(line) == Some(r)
  {
    SmallDecimals();
    assert Render(r) == line;
    ParseRender(r);
  }

  /** All three lines parse, to the three claims. */
  lemma ExampleLinesParse(lines: seq<string>, rects: seq<Rectangle>)
    requires |lines| == 3 && lines[0] == "#1 @ 1,3: 4x4" && lines[1] == "#2 @ 3,1: 4x4" && lines[2] == "#3 @ 5,5: 2x2"
    requires AreExampleClaims(rects)
    ensures ParseAll(lines) == Some(rects)
  {
    ExampleLineParses(lines[0], rects[0]);
    ExampleLineParses(lines[1], rects[1]);
    ExampleLineParses(lines[2], rects[2]);
    forall i | 0 <= i < 3
      ensures ParseRectangle(lines[i]) == Some(rects[i])
    {
      if i == 0 {
      } else if i == 1 {
      }
    }
    ParseAllOfParsed(lines, rects);
  }

  /** Three claims, written out. */
  lemma ClaimsOfThree(rects: seq<Rectangle>, c: Cell)
    requires |rects| == 3
    ensures Claims(rects, c)
            == (if Covers(rects[0], c) then 1 else 0) + (if Covers(rects[1], c) then 1 else 0)
               + (if Covers(rects[2], c) then 1 else 0)
    ensures ClaimedCells(rects) == CellsOf(rects[0]) + CellsOf(rects[1]) + CellsOf(rects[2])
  {
    var one, two := rects[..1], rects[..2];
    assert two[..1] == one && two[1] == rects[1] && rects[..|rects| - 1] == two;
    assert one[..0] == [] && one[0] == rects[0] && two[..|two| - 1] == one;
    assert Claims(one, c) == if Covers(rects[0], c) then 1 else 0;
    assert ClaimedCells(one) == {} + CellsOf(rects[0]);
  }

  /** The inches claimed by both of the first two claims, and by none of
      them and the third. */
  lemma ExampleSharedInches(rects: seq<Rectangle>)
    requires AreExampleClaims(rects)
    ensures CellsOf(rects[0]) * CellsOf(rects[1]) == Block(3, 2, 3, 2)
    ensures (CellsOf(rects[0]) + CellsOf(rects[1])) * CellsOf(rects[2]) == {}
  {
    forall c: Cell
      ensures c in CellsOf(rects[0]) * CellsOf(rects[1]) <==> c in Block(3, 2, 3, 2)
      ensures c !in (CellsOf(rects[0]) + CellsOf(rects[1])) * CellsOf(rects[2])
    {
      InCellsOf(rects[0], c);
      InCellsOf(rects[1], c);
      InCellsOf(rects[2], c);
      InBlock(3, 2, 3, 2, c);
    }
  }

  lemma ExampleAreas(rects: seq<Rectangle>)
    requires AreExampleClaims(rects)
    ensures |CellsOf(rects[0])| == 16 && |CellsOf(rects[1])| == 16 && |CellsOf(rects[2])| == 4
  {
    ClaimArea(rects[0]);
    ClaimArea(rects[1]);
    ClaimArea(rects[2]);
  }

  /** Inclusion and exclusion for three sets, the third disjoint from the
      other two. */
  lemma UnionSize<T>(a: set<T>, b: set<T>, c: set<T>)
    requires (a + b) * c == {}
    ensures |a + b + c| == |a| + |b| - |a * b| + |c|
  {
  }

  /** A map counting the claims of the three example claims on each inch
      has 32 entries. */
  lemma ExampleCoverageSize(rects: seq<Rectangle>, m: map<Cell, nat>)
    requires AreExampleClaims(rects)
    requires forall c: Cell :: c in m <==> Claims(rects, c) > 0
    ensures |m| == 32
  {
    ClaimsMeaning(rects);
    assert m.Keys == ClaimedCells(rects);
    ClaimsOfThree(rects, (0, 0));
    ExampleAreas(rects);
    ExampleSharedInches(rects);
    BlockSize(3, 2, 3, 2);
    UnionSize(CellsOf(rects[0]), CellsOf(rects[1]), CellsOf(rects[2]));
  }

  /** The four inches the first two claims share are claimed twice. */
  lemma ExampleSharedCounts(rects: seq<Rectangle>, c: Cell)
    requires AreExampleClaims(rects)
    requires c == (3, 3) || c == (3, 4) || c == (4, 3) || c == (4, 4)
    ensures Claims(rects, c) == 2
  {
    ClaimsOfThree(rects, c);
  }

  /** A map counting the claims of the three example claims on each inch
      has 4 inches above 1. */
  lemma ExampleOverlap(rects: seq<Rectangle>, m: map<Cell, nat>)
    requires AreExampleClaims(rects)
    requires forall c: Cell :: c in m <==> Claims(rects, c) > 0
    requires forall c: Cell :: Count(m, c) == Claims(rects, c)
    ensures |Overlapping(m)| == 4
  {
    var shared := Block(3, 2, 3, 2);
    forall c: Cell
      ensures c in Overlapping(m) <==> c in shared
    {
      ClaimsOfThree(rects, c);
      InBlock(3, 2, 3, 2, c);
      assert c in m ==> m[c] == Count(m, c);
    }
    assert Overlapping(m) == shared;
    BlockSize(3, 2, 3, 2);
  }

  /** The source's two day 3 tests: `map_rectangles` on the three lines has
      32 entries, 2 on each of the inches (3,3), (3,4), (4,3) and (4,4), and
      `count_overlap` of it is 4. */
  lemma CoverageExample(lines: seq<string>)
    requires lines == ExampleLines
    ensures MapRectangles(lines).Some?
    ensures |MapRectangles(lines).value| == 32
    ensures forall c: Cell :: c in {(3, 3), (3, 4), (4, 3), (4, 4)} ==> Count(MapRectangles(lines).value, c) == 2
    ensures |Overlapping(MapRectangles(lines).value)| == 4
  {
    var rects := ExampleClaims;
    assert AreExampleClaims(rects);
    ExampleLinesParse(lines, rects);
    var m := MapRectangles(lines).value;
    ExampleCoverageSize(rects, m);
    ExampleOverlap(rects, m);
    forall c: Cell | c in {(3, 3), (3, 4), (4, 3), (4, 4)}
      ensures Count(m, c) == 2
    {
      ExampleSharedCounts(rects, c);
    }
  }
}
