/** Day 3: fabric claims `#id @ x,y: wxh`, the number of claims covering
    each square inch, and the number of inches claimed more than once. */
module Fabric {
  import opened Wrappers
  import opened Numbers
  import Text

  /** `rectangle::Rectangle`: a claim on the half-open box
      `[x1, x1 + width) × [y1, y1 + height)`. */
  datatype Rectangle = Rectangle(id: nat, x1: nat, y1: nat, width: nat, height: nat)

  /** A square inch of fabric. */
  type Cell = (nat, nat)

  predicate IsClaimDelimiter(c: char) {
    c == ' ' || c == '#' || c == '@' || c == ',' || c == ':' || c == 'x'
  }

  /** `nums` are the `u32` values of the tokens at the strictly increasing
      positions `idx`, and every token at another position fails to parse. */
  predicate KeptAt(tokens: seq<string>, nums: seq<nat>, idx: seq<nat>) {
    && |idx| == |nums|
    && (forall k :: 0 <= k < |idx| ==> idx[k] < |tokens| && ParseU32(tokens[idx[k]]) == Some(nums[k]))
    && (forall k, l :: 0 <= k < l < |idx| ==> idx[k] < idx[l])
    && (forall t :: 0 <= t < |tokens| && ParseU32(tokens[t]).Some? ==> t in idx)
  }

  /** Every position one further on. */
  function Shift(idx: seq<nat>): (r: seq<nat>)
    ensures |r| == |idx|
    ensures forall k :: 0 <= k < |r| ==> r[k] == idx[k] + 1
  {
    seq(|idx|, k requires 0 <= k < |idx| => idx[k] + 1)
  }

  /** Shifted positions point at the same tokens of the whole list. */
  lemma ShiftValues(tokens: seq<string>, rest: seq<nat>, idx: seq<nat>)
    requires |tokens| > 0 && |idx| == |rest|
    requires forall k :: 0 <= k < |idx| ==> idx[k] < |tokens[1..]| && ParseU32(tokens[1..][idx[k]]) == Some(rest[k])
    ensures var w := Shift(idx);
      forall k :: 0 <= k < |w| ==> 0 < w[k] < |tokens| && ParseU32(tokens[w[k]]) == Some(rest[k])
  {
    var w := Shift(idx);
    var tail := tokens[1..];
    forall k | 0 <= k < |w|
      ensures 0 < w[k] < |tokens| && ParseU32(tokens[w[k]]) == Some(rest[k])
    {
      assert tokens[w[k]] == tail[idx[k]];
    }
  }

  /** Shifted positions cover every token after the first that parses. */
  lemma ShiftCovers(tokens: seq<string>, idx: seq<nat>)
    requires |tokens| > 0
    requires forall t :: 0 <= t < |tokens[1..]| && ParseU32(tokens[1..][t]).Some? ==> t in idx
    ensures forall t :: 0 < t < |tokens| && ParseU32(tokens[t]).Some? ==> t in Shift(idx)
  {
    var w := Shift(idx);
    var tail := tokens[1..];
    forall t | 0 < t < |tokens| && ParseU32(tokens[t]).Some?
      ensures t in w
    {
      assert tokens[t] == tail[t - 1];
      assert t - 1 in idx;
      var k :| 0 <= k < |idx| && idx[k] == t - 1;
      assert w[k] == t;
    }
  }

  /** A witness for the tokens after the first, shifted by one, covers every
      token after the first. */
  lemma KeptShift(tokens: seq<string>, rest: seq<nat>, idx: seq<nat>)
    requires |tokens| > 0 && KeptAt(tokens[1..], rest, idx)
    ensures var w := Shift(idx);
      && (forall k :: 0 <= k < |w| ==> 0 < w[k] < |tokens| && ParseU32(tokens[w[k]]) == Some(rest[k]))
      && (forall k, l :: 0 <= k < l < |w| ==> w[k] < w[l])
      && (forall t :: 0 < t < |tokens| && ParseU32(tokens[t]).Some? ==> t in w)
  {
    ShiftValues(tokens, rest, idx);
    ShiftCovers(tokens, idx);
  }

  /** A first token that does not parse adds nothing to a witness. */
  lemma KeptSkip(tokens: seq<string>, rest: seq<nat>, idx: seq<nat>)
    requires |tokens| > 0 && KeptAt(tokens[1..], rest, idx) && ParseU32(tokens[0]).None?
    ensures KeptAt(tokens, rest, Shift(idx))
  {
    KeptShift(tokens, rest, idx);
  }

  /** Positive, strictly increasing positions stay strictly increasing
      with position 0 in front. */
  lemma ZeroInFront(sh: seq<nat>)
    requires forall k :: 0 <= k < |sh| ==> 0 < sh[k]
    requires forall k, l :: 0 <= k < l < |sh| ==> sh[k] < sh[l]
    ensures var w := [0] + sh; forall k, l :: 0 <= k < l < |w| ==> w[k] < w[l]
  {
    var w := [0] + sh;
    forall k, l | 0 <= k < l < |w|
      ensures w[k] < w[l]
    {
      assert w[l] == sh[l - 1];
      if k > 0 {
        assert w[k] == sh[k - 1];
      }
    }
  }

  /** The first token's value and position in front of those of the
      tokens after it. */
  lemma ConsValues(tokens: seq<string>, rest: seq<nat>, sh: seq<nat>, n: nat)
    requires |tokens| > 0 && ParseU32(tokens[0]) == Some(n) && |sh| == |rest|
    requires forall k :: 0 <= k < |sh| ==> sh[k] < |tokens| && ParseU32(tokens[sh[k]]) == Some(rest[k])
    ensures var w := [0] + sh; var nums := [n] + rest;
      forall k :: 0 <= k < |w| ==> w[k] < |tokens| && ParseU32(tokens[w[k]]) == Some(nums[k])
  {
    var w := [0] + sh;
    var nums := [n] + rest;
    forall k | 0 <= k < |w|
      ensures w[k] < |tokens| && ParseU32(tokens[w[k]]) == Some(nums[k])
    {
      if k > 0 {
        assert w[k] == sh[k - 1] && nums[k] == rest[k - 1];
      }
    }
  }

  /** With position 0 in front, every token that parses is covered. */
  lemma ConsCovers(tokens: seq<string>, sh: seq<nat>)
    requires forall t :: 0 < t < |tokens| && ParseU32(tokens[t]).Some? ==> t in sh
    ensures forall t :: 0 <= t < |tokens| && ParseU32(tokens[t]).Some? ==> t in [0] + sh
  {
    forall t | 0 <= t < |tokens| && ParseU32(tokens[t]).Some?
      ensures t in [0] + sh
    {
      if t > 0 {
        assert t in sh;
      }
    }
  }

  /** A first token that parses puts its value and position in front. */
  lemma KeptCons(tokens: seq<string>, rest: seq<nat>, idx: seq<nat>, n: nat)
    requires |tokens| > 0 && KeptAt(tokens[1..], rest, idx) && ParseU32(tokens[0]) == Some(n)
    ensures KeptAt(tokens, [n] + rest, [0] + Shift(idx))
  {
    KeptShift(tokens, rest, idx);
    var sh := Shift(idx);
    ConsValues(tokens, rest, sh, n);
    ZeroInFront(sh);
    ConsCovers(tokens, sh);
  }

  /** `filter_map(|t| t.parse::<u32>().ok())`: the values of the tokens that
      parse, in their order, and nothing for the tokens that do not. */
  function ParsedNumbers(tokens: seq<string>): (r: seq<nat>)
    ensures |r| <= |tokens|
    ensures forall i :: 0 <= i < |r| ==> r[i] <= U32_MAX
  {
    if |tokens| == 0 then []
    else
      var head := match ParseU32(tokens[0]) case Some(n) => [n] case None => [];
      head + ParsedNumbers(tokens[1..])
  }

  /** The numbers kept are exactly the values of the tokens that parse, in
      the order of the tokens. */
  lemma {:induction false} ParsedNumbersKept(tokens: seq<string>)
    ensures exists idx :: KeptAt(tokens, ParsedNumbers(tokens), idx)
    decreases |tokens|
  {
    if |tokens| == 0 {
      assert ParsedNumbers(tokens) == [];
      assert KeptAt(tokens, [], []);
    } else {
      var rest := ParsedNumbers(tokens[1..]);
      ParsedNumbersKept(tokens[1..]);
      var idx :| KeptAt(tokens[1..], rest, idx);
      match ParseU32(tokens[0])
      case None =>
        KeptSkip(tokens, rest, idx);
        assert ParsedNumbers(tokens) == rest;
      case Some(n) =>
        KeptCons(tokens, rest, idx, n);
        assert ParsedNumbers(tokens) == [n] + rest;
    }
  }

  /** The numbers of a claim line: split at every delimiter, keep the
      tokens that parse as `u32`. */
  function ClaimNumbers(line: string): seq<nat> {
    ParsedNumbers(Text.SplitWhere(line, IsClaimDelimiter))
  }

  /** The numbers of a claim line are the values of exactly those pieces
      between delimiters that parse as `u32`, in line order. */
  lemma ClaimNumbersKept(line: string)
    ensures exists idx :: KeptAt(Text.SplitWhere(line, IsClaimDelimiter), ClaimNumbers(line), idx)
  {
    var tokens := Text.SplitWhere(line, IsClaimDelimiter);
    ParsedNumbersKept(tokens);
    var idx :| KeptAt(tokens, ParsedNumbers(tokens), idx);
    assert KeptAt(tokens, ClaimNumbers(line), idx);
  }

  /** `Rectangle::new`: the first five numbers are id, x1, y1, width and
      height; `None` where indexing the fifth number would panic. */
  function ParseRectangle(line: string): (r: Option<Rectangle>)
    ensures r.Some? <==> |ClaimNumbers(line)| >= 5
    ensures r.Some? ==>
              var n := ClaimNumbers(line);
              r.value == Rectangle(n[0], n[1], n[2], n[3], n[4])
  {
    var n := ClaimNumbers(line);
    if |n| < 5 then None else Some(Rectangle(n[0], n[1], n[2], n[3], n[4]))
  }

  /** The pieces of a rendered claim: the five numerals, with an empty
      piece before the leading '#' and between adjacent delimiters. */
  function RenderedPieces(r: Rectangle): seq<string> {
    ["", Decimal(r.id), "", "", Decimal(r.x1), Decimal(r.y1), "", Decimal(r.width), Decimal(r.height)]
  }

  /** The puzzle's notation for a claim, `#id @ x,y: wxh`. */
  function Render(r: Rectangle): string {
    "#" + Decimal(r.id) + " @ " + Decimal(r.x1) + "," + Decimal(r.y1) + ": " + Decimal(r.width) + "x" + Decimal(r.height)
  }

  const ClaimDelimiters := "# @ ,: x"

  /** Interleaving nine pieces, written out. */
  lemma InterleaveNine(p: seq<string>, ds: string)
    requires |p| == 9 && |ds| == 8
    ensures Text.Interleave(p, ds)
            == p[0] + [ds[0]] + (p[1] + [ds[1]] + (p[2] + [ds[2]] + (p[3] + [ds[3]] + (p[4] + [ds[4]]
               + (p[5] + [ds[5]] + (p[6] + [ds[6]] + (p[7] + [ds[7]] + p[8])))))))
  {
    assert Text.Interleave(p[8..], ds[8..]) == p[8];
    Text.InterleaveFrom(p, ds, 7);
    Text.InterleaveFrom(p, ds, 6);
    Text.InterleaveFrom(p, ds, 5);
    Text.InterleaveFrom(p, ds, 4);
    Text.InterleaveFrom(p, ds, 3);
    Text.InterleaveFrom(p, ds, 2);
    Text.InterleaveFrom(p, ds, 1);
    Text.InterleaveFrom(p, ds, 0);
    assert p[0..] == p && ds[0..] == ds;
  }

  lemma RenderRegrouped(d1: string, d2: string, d3: string, d4: string, d5: string)
    ensures "#" + d1 + " @ " + d2 + "," + d3 + ": " + d4 + "x" + d5
         == "" + ['#'] + (d1 + [' '] + ("" + ['@'] + ("" + [' '] + (d2 + [','] + (d3 + [':']
            + ("" + [' '] + (d4 + ['x'] + d5)))))))
  {
  }

  /** A rendered claim is its pieces interleaved with the delimiters
      '#', ' ', '@', ' ', ',', ':', ' ', 'x'. */
  lemma RenderInterleaves(r: Rectangle)
    ensures Render(r) == Text.Interleave(RenderedPieces(r), ClaimDelimiters)
  {
    InterleaveNine(RenderedPieces(r), ClaimDelimiters);
    RenderRegrouped(Decimal(r.id), Decimal(r.x1), Decimal(r.y1), Decimal(r.width), Decimal(r.height));
  }

  lemma RenderPieces(r: Rectangle)
    ensures Text.SplitWhere(Render(r), IsClaimDelimiter) == RenderedPieces(r)
  {
    RenderInterleaves(r);
    var p := RenderedPieces(r);
    forall i, j | 0 <= i < |p| && 0 <= j < |p[i]|
      ensures !IsClaimDelimiter(p[i][j])
    {
      DecimalDigits(r.id);
      DecimalDigits(r.x1);
      DecimalDigits(r.y1);
      DecimalDigits(r.width);
      DecimalDigits(r.height);
      assert IsDigit(p[i][j]);
    }
    Text.SplitWhereInterleave(p, ClaimDelimiters, IsClaimDelimiter);
  }

  lemma ParsedNumbersCons(t: string, rest: seq<string>)
    ensures ParsedNumbers([t] + rest)
            == (match ParseU32(t) case Some(n) => [n] case None => []) + ParsedNumbers(rest)
  {
    assert ([t] + rest)[1..] == rest;
  }

  lemma NumeralThen(d: string, rest: seq<string>, n: nat, ns: seq<nat>)
    requires ParseU32(d) == Some(n) && ParsedNumbers(rest) == ns
    ensures ParsedNumbers([d] + rest) == [n] + ns
  {
    ParsedNumbersCons(d, rest);
  }

  lemma EmptyThen(rest: seq<string>)
    ensures ParsedNumbers([""] + rest) == ParsedNumbers(rest)
  {
    ParsedNumbersCons("", rest);
    assert ParseU32("") == None;
  }

  lemma NumbersOfLastPieces(d3: string, d4: string, d5: string, c: nat, e: nat, f: nat)
    requires ParseU32(d3) == Some(c) && ParseU32(d4) == Some(e) && ParseU32(d5) == Some(f)
    ensures ParsedNumbers([d3, "", d4, d5]) == [c, e, f]
  {
    NumeralThen(d5, [], f, []);
    assert [d5] + [] == [d5];
    NumeralThen(d4, [d5], e, [f]);
    assert [d4] + [d5] == [d4, d5];
    EmptyThen([d4, d5]);
    assert [""] + [d4, d5] == ["", d4, d5];
    NumeralThen(d3, ["", d4, d5], c, [e, f]);
    assert [d3] + ["", d4, d5] == [d3, "", d4, d5];
  }

  lemma NumbersOfMiddlePieces(d2: string, rest: seq<string>, b: nat, ns: seq<nat>)
    requires ParseU32(d2) == Some(b) && ParsedNumbers(rest) == ns
    ensures ParsedNumbers(["", "", d2] + rest) == [b] + ns
  {
    NumeralThen(d2, rest, b, ns);
    EmptyThen([d2] + rest);
    EmptyThen([""] + ([d2] + rest));
    assert [""] + ([""] + ([d2] + rest)) == ["", "", d2] + rest;
  }

  lemma PiecesShape(d1: string, d2: string, d3: string, d4: string, d5: string)
    ensures [""] + ([d1] + (["", "", d2] + [d3, "", d4, d5])) == ["", d1, "", "", d2, d3, "", d4, d5]
  {
  }

  lemma NumbersShape(a: nat, b: nat, c: nat, e: nat, f: nat)
    ensures [a] + ([b] + [c, e, f]) == [a, b, c, e, f]
  {
  }

  /** The numbers kept from the pieces of a rendered claim. */
  lemma NumbersOfPieces(d1: string, d2: string, d3: string, d4: string, d5: string,
                        a: nat, b: nat, c: nat, e: nat, f: nat)
    requires ParseU32(d1) == Some(a) && ParseU32(d2) == Some(b) && ParseU32(d3) == Some(c)
    requires ParseU32(d4) == Some(e) && ParseU32(d5) == Some(f)
    ensures ParsedNumbers(["", d1, "", "", d2, d3, "", d4, d5]) == [a, b, c, e, f]
  {
    var tail := [d3, "", d4, d5];
    NumbersOfLastPieces(d3, d4, d5, c, e, f);
    NumbersOfMiddlePieces(d2, tail, b, [c, e, f]);
    var mid := ["", "", d2] + tail;
    NumeralThen(d1, mid, a, [b] + [c, e, f]);
    EmptyThen([d1] + mid);
    PiecesShape(d1, d2, d3, d4, d5);
    NumbersShape(a, b, c, e, f);
  }

  /** Rendering a claim whose fields fit in `u32` and parsing it back gives
      the same claim. */
  lemma ParseRender(r: Rectangle)
    requires r.id <= U32_MAX && r.x1 <= U32_MAX && r.y1 <= U32_MAX
    requires r.width <= U32_MAX && r.height <= U32_MAX
    ensures ParseRectangle(Render(r)) == Some(r)
  {
    var d1, d2, d3, d4, d5 := Decimal(r.id), Decimal(r.x1), Decimal(r.y1), Decimal(r.width), Decimal(r.height);
    RenderPieces(r);
    assert RenderedPieces(r) == ["", d1, "", "", d2, d3, "", d4, d5];
    ParseU32Decimal(r.id);
    ParseU32Decimal(r.x1);
    ParseU32Decimal(r.y1);
    ParseU32Decimal(r.width);
    ParseU32Decimal(r.height);
    NumbersOfPieces(d1, d2, d3, d4, d5, r.id, r.x1, r.y1, r.width, r.height);
    assert ClaimNumbers(Render(r)) == [r.id, r.x1, r.y1, r.width, r.height];
  }

  /** Claims of inch `c` recorded in a coverage map; 0 when it has no entry. */
  function Count(m: map<Cell, nat>, c: Cell): nat {
    if c in m then m[c] else 0
  }

  predicate Covers(r: Rectangle, c: Cell) {
    r.x1 <= c.0 < r.x1 + r.width && r.y1 <= c.1 < r.y1 + r.height
  }

  /** Number of claims in `rects` covering `c`. */
  function Claims(rects: seq<Rectangle>, c: Cell): nat {
    if |rects| == 0 then 0
    else Claims(rects[..|rects| - 1], c) + (if Covers(rects[|rects| - 1], c) then 1 else 0)
  }

  /** The inner loop of `map_rectangles`: one increment per inch of column
      `x` from row `y` up to, not including, `yEnd`. */
  function CoverColumn(m: map<Cell, nat>, x: nat, y: nat, yEnd: nat): (r: map<Cell, nat>)
    ensures forall c: Cell :: c in r <==> c in m || (c.0 == x && y <= c.1 < yEnd)
    ensures forall c: Cell :: Count(r, c) == Count(m, c) + (if c.0 == x && y <= c.1 < yEnd then 1 else 0)
    decreases yEnd - y
  {
    if y >= yEnd then m
    else CoverColumn(m[(x, y) := Count(m, (x, y)) + 1], x, y + 1, yEnd)
  }

  /** The middle loop: the columns from `x` up to the claim's right edge. */
  function CoverColumns(m: map<Cell, nat>, r: Rectangle, x: nat): (m': map<Cell, nat>)
    requires r.x1 <= x
    ensures forall c: Cell :: c in m' <==> c in m || (x <= c.0 && Covers(r, c))
    ensures forall c: Cell :: Count(m', c) == Count(m, c) + (if x <= c.0 && Covers(r, c) then 1 else 0)
    decreases r.x1 + r.width - x
  {
    if x >= r.x1 + r.width then m
    else
      var column := CoverColumn(m, x, r.y1, r.y1 + r.height);
      assert forall c: Cell :: (c.0 == x && r.y1 <= c.1 < r.y1 + r.height) <==> (c.0 == x && Covers(r, c));
      CoverColumns(column, r, x + 1)
  }

  /** One claim's contribution: every inch it covers counted once more. */
  function AddRectangle(m: map<Cell, nat>, r: Rectangle): (m': map<Cell, nat>)
    ensures forall c: Cell :: c in m' <==> c in m || Covers(r, c)
    ensures forall c: Cell :: Count(m', c) == Count(m, c) + (if Covers(r, c) then 1 else 0)
  {
    CoverColumns(m, r, r.x1)
  }

  /** The outer loop of `map_rectangles`: an inch has an entry exactly when
      some claim covers it, and the entry is the number of claims covering it. */
  function Coverage(rects: seq<Rectangle>): (m: map<Cell, nat>)
    ensures forall c: Cell :: c in m <==> Claims(rects, c) > 0
    ensures forall c: Cell :: Count(m, c) == Claims(rects, c)
    ensures forall c: Cell :: c in m ==> m[c] >= 1
  {
    if |rects| == 0 then map[]
    else AddRectangle(Coverage(rects[..|rects| - 1]), rects[|rects| - 1])
  }

  /** Every line parsed; `None` when one of them would panic. */
  function ParseAll(lines: seq<string>): (r: Option<seq<Rectangle>>)
    ensures r.Some? ==> |r.value| == |lines|
    ensures r.Some? ==> forall i :: 0 <= i < |lines| ==> ParseRectangle(lines[i]) == Some(r.value[i])
    ensures r.None? ==> exists i :: 0 <= i < |lines| && ParseRectangle(lines[i]).None?
  {
    MapAll(lines, ParseRectangle)
  }

  /** The inches of column `x` from row `y` up to, not including, `y + h`. */
  function Column(x: nat, y: nat, h: nat): set<Cell> {
    if h == 0 then {} else Column(x, y, h - 1) + {(x, y + h - 1)}
  }

  /** The inches of the box `[x, x + w) × [y, y + h)`, column by column. */
  function Block(x: nat, w: nat, y: nat, h: nat): set<Cell> {
    if w == 0 then {} else Block(x, w - 1, y, h) + Column(x + w - 1, y, h)
  }

  /** The inches a claim covers. */
  function CellsOf(r: Rectangle): set<Cell> {
    Block(r.x1, r.width, r.y1, r.height)
  }

  lemma InCellsOf(r: Rectangle, c: Cell)
    ensures c in CellsOf(r) <==> Covers(r, c)
  {
    InBlock(r.x1, r.width, r.y1, r.height, c);
  }

  /** The inches covered by at least one claim of `rects`. */
  function ClaimedCells(rects: seq<Rectangle>): set<Cell> {
    if |rects| == 0 then {} else ClaimedCells(rects[..|rects| - 1]) + CellsOf(rects[|rects| - 1])
  }

  /** A box `w` wide and `h` high holds `w * h` inches. */
  lemma {:induction false} BlockSize(x: nat, w: nat, y: nat, h: nat)
    ensures |Block(x, w, y, h)| == w * h
  {
    if w > 0 {
      var before, column := Block(x, w - 1, y, h), Column(x + w - 1, y, h);
      BlockSize(x, w - 1, y, h);
      ColumnSize(x + w - 1, y, h);
      assert before * column == {} by {
        forall c: Cell | c in before
          ensures c !in column
        {
          InBlock(x, w - 1, y, h, c);
          InColumn(x + w - 1, y, h, c);
        }
      }
      OneMoreColumn(w, h);
    }
  }

  lemma {:induction false} InColumn(x: nat, y: nat, h: nat, c: Cell)
    ensures c in Column(x, y, h) <==> c.0 == x && y <= c.1 < y + h
  {
    if h > 0 {
      InColumn(x, y, h - 1, c);
    }
  }

  lemma {:induction false} InBlock(x: nat, w: nat, y: nat, h: nat, c: Cell)
    ensures c in Block(x, w, y, h) <==> x <= c.0 < x + w && y <= c.1 < y + h
  {
    if w > 0 {
      InBlock(x, w - 1, y, h, c);
      InColumn(x + w - 1, y, h, c);
    }
  }

  lemma OneMoreColumn(w: nat, h: nat)
    requires w > 0
    ensures w * h == (w - 1) * h + h
  {
  }

  lemma {:induction false} ColumnSize(x: nat, y: nat, h: nat)
    ensures |Column(x, y, h)| == h
  {
    if h > 0 {
      ColumnSize(x, y, h - 1);
      InColumn(x, y, h - 1, (x, y + h - 1));
    }
  }

  /** Each claim covers its area, `width * height` inches. */
  lemma ClaimArea(r: Rectangle)
    ensures |CellsOf(r)| == r.width * r.height
  {
    BlockSize(r.x1, r.width, r.y1, r.height);
  }

  /** The coverage map has an entry for exactly the inches some claim
      covers, so its size is the area of the union of the claims. */
  lemma CoverageKeys(rects: seq<Rectangle>)
    ensures Coverage(rects).Keys == ClaimedCells(rects)
  {
    ClaimsMeaning(rects);
    forall c: Cell
      ensures c in Coverage(rects).Keys <==> c in ClaimedCells(rects)
    {
    }
  }

  lemma {:induction false} ClaimsMeaning(rects: seq<Rectangle>)
    ensures forall c: Cell :: Claims(rects, c) > 0 <==> c in ClaimedCells(rects)
  {
    if |rects| > 0 {
      ClaimsMeaning(rects[..|rects| - 1]);
      var last := rects[|rects| - 1];
      forall c: Cell
        ensures c in CellsOf(last) <==> Covers(last, c)
      {
        InCellsOf(last, c);
      }
    }
  }

  /** Conversely, lines that each parse to a claim parse, together, to
      those claims in order. */
  lemma ParseAllOfParsed(lines: seq<string>, rects: seq<Rectangle>)
    requires |lines| == |rects|
    requires forall i :: 0 <= i < |lines| ==> ParseRectangle(lines[i]) == Some(rects[i])
    ensures ParseAll(lines) == Some(rects)
  {
    var r := ParseAll(lines);
    if r.Some? {
      assert r.value == rects;
    }
  }

  /** `map_rectangles`: parse the claims, then count the claims on each inch. */
  function MapRectangles(lines: seq<string>): (r: Option<map<Cell, nat>>)
    ensures r.Some? <==> ParseAll(lines).Some?
    ensures r.Some? ==> forall c: Cell :: Count(r.value, c) == Claims(ParseAll(lines).value, c)
  {
    match ParseAll(lines)
    case None => None
    case Some(rects) => Some(Coverage(rects))
  }

  /** The inches a coverage map records as claimed more than once. */
  function Overlapping(m: map<Cell, nat>): set<Cell> {
    set c | c in m && m[c] > 1
  }

  /** `count_overlap`: one pass over the map's values, in whatever order it
      yields them, counting those above 1. */
  method CountOverlap(m: map<Cell, nat>) returns (n: nat)
    ensures n == |Overlapping(m)|
    ensures n <= |m|
  {
    n := 0;
    var pending := m.Keys;
    while pending != {}
      invariant pending <= m.Keys
      invariant n == |Overlapping(m) - pending|
      invariant n <= |m.Keys - pending|
      decreases pending
    {
      var c :| c in pending;
      VisitOne(m.Keys, pending, c);
      VisitOne(Overlapping(m), pending, c);
      if m[c] > 1 {
        n := n + 1;
      }
      pending := pending - {c};
    }
    assert m.Keys - pending == m.Keys;
    assert Overlapping(m) - pending == Overlapping(m);
  }

  /** Taking `c` off the pending set adds it to what has been visited. */
  lemma VisitOne<T>(all: set<T>, pending: set<T>, c: T)
    requires c in pending
    ensures |all - (pending - {c})| == |all - pending| + (if c in all then 1 else 0)
  {
    if c in all {
      assert all - (pending - {c}) == (all - pending) + {c};
    } else {
      assert all - (pending - {c}) == all - pending;
    }
  }

  /** The inches counted by `count_overlap` are those covered by two or
      more claims. */
  lemma OverlapMeansTwoClaims(rects: seq<Rectangle>, c: Cell)
    ensures c in Overlapping(Coverage(rects)) <==> Claims(rects, c) >= 2
  {
  }

  /** A claim of zero width or height changes nothing. */
  lemma EmptyClaimAddsNothing(rects: seq<Rectangle>, r: Rectangle)
    requires r.width == 0 || r.height == 0
    ensures Coverage(rects + [r]) == Coverage(rects)
  {
    var m, m' := Coverage(rects), Coverage(rects + [r]);
    assert (rects + [r])[..|rects|] == rects;
    forall c | c in m'
      ensures c in m && m'[c] == m[c]
    {
      assert Count(m', c) == Count(m, c);
    }
    assert m'.Keys == m.Keys;
  }
}
