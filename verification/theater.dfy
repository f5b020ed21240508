/**
  Movie theater tiles (2025 day 9).  Red tiles sit at integer coordinates;
  any two of them are opposite corners of a rectangle of tiles.  Part 1
  asks for the largest such rectangle; part 2 only admits rectangles made
  entirely of red and green tiles, where green tiles join consecutive red
  tiles and fill the polygon they enclose.
 */
module Theater {
  import opened Arith

  datatype Tile = Tile(x: int, y: int)

  function Abs(v: int): nat
  {
    if v < 0 then -v else v
  }

  function Min(a: int, b: int): int
  {
    if a <= b then a else b
  }

  function Max(a: int, b: int): int
  {
    if a <= b then b else a
  }

  /** The number of tiles in the rectangle with corners `a` and `b`, both
      corners included. */
  function Area(a: Tile, b: Tile): (area: nat)
    ensures area >= 1
  {
    var w, h := Abs(b.x - a.x) + 1, Abs(b.y - a.y) + 1;
    MulAtLeast(w, h);
    w * h
  }

  lemma AreaSymmetric(a: Tile, b: Tile)
    ensures Area(a, b) == Area(b, a)
  {
  }

  /** Pair `(p, q)` comes before `(i, j)` in the order of
      `combinations(tiles, 2)`. */
  predicate Before(p: int, q: int, i: int, j: int)
  {
    p < i || (p == i && q < j)
  }

  /** `m` is the largest area over the pairs `p < q` that pass `valid`
      among those before `(i, j)`, or 0 if none passes. */
  ghost predicate LargestBefore(tiles: seq<Tile>, valid: (Tile, Tile) -> bool, m: nat, i: int, j: int)
  {
    && (forall p, q {:trigger Area(tiles[p], tiles[q])} :: 0 <= p < q < |tiles| && Before(p, q, i, j) && valid(tiles[p], tiles[q]) ==>
          Area(tiles[p], tiles[q]) <= m)
    && (m == 0 ||
        exists p, q :: 0 <= p < q < |tiles| && Before(p, q, i, j) && valid(tiles[p], tiles[q]) && m == Area(tiles[p], tiles[q]))
  }

  /** `m` is the largest area over all pairs that pass `valid`, or 0. */
  ghost predicate LargestUnder(tiles: seq<Tile>, valid: (Tile, Tile) -> bool, m: nat)
  {
    LargestBefore(tiles, valid, m, |tiles|, 0)
  }

  /** `m` is the largest area over all pairs, or 0 without a pair. */
  ghost predicate IsLargest(tiles: seq<Tile>, m: nat)
  {
    && (forall p, q {:trigger Area(tiles[p], tiles[q])} :: 0 <= p < q < |tiles| ==> Area(tiles[p], tiles[q]) <= m)
    && (m == 0 || exists p, q :: 0 <= p < q < |tiles| && m == Area(tiles[p], tiles[q]))
  }

  /** `find_largest_rectangle`: the largest area over every pair of tiles,
      0 with fewer than two tiles. */
  method FindLargestRectangle(tiles: seq<Tile>) returns (maxArea: nat)
    ensures IsLargest(tiles, maxArea)
    ensures |tiles| < 2 <==> maxArea == 0
  {
    maxArea := 0;
    ghost var bp, bq := 0, 0;
    for i := 0 to |tiles|
      invariant forall p, q {:trigger Area(tiles[p], tiles[q])} :: 0 <= p < q < |tiles| && p < i ==> Area(tiles[p], tiles[q]) <= maxArea
      invariant maxArea > 0 ==> 0 <= bp < bq < |tiles| && maxArea == Area(tiles[bp], tiles[bq])
    {
      for j := i + 1 to |tiles|
        invariant forall p, q {:trigger Area(tiles[p], tiles[q])} :: 0 <= p < q < |tiles| && Before(p, q, i, j) ==> Area(tiles[p], tiles[q]) <= maxArea
        invariant maxArea > 0 ==> 0 <= bp < bq < |tiles| && maxArea == Area(tiles[bp], tiles[bq])
      {
        var area := Area(tiles[i], tiles[j]);
        if area > maxArea {
          maxArea := area;
          bp, bq := i, j;
        }
      }
    }
    LargestPositive(tiles, maxArea);
  }

  /** With two tiles there is a rectangle, and every rectangle has area 1
      or more. */
  lemma LargestPositive(tiles: seq<Tile>, m: nat)
    requires IsLargest(tiles, m)
    ensures |tiles| < 2 <==> m == 0
  {
    if |tiles| >= 2 {
      assert Area(tiles[0], tiles[1]) <= m;
    }
  }

  /** The pruned search of `find_largest_valid_rectangle_lazy`, with the
      rectangle test given as `valid`: a pair whose area cannot beat the
      best so far is skipped without testing it.  The skipping loses
      nothing: the result is the largest area among the pairs that pass. */
  method LargestValid(tiles: seq<Tile>, valid: (Tile, Tile) -> bool) returns (maxArea: nat)
    ensures LargestUnder(tiles, valid, maxArea)
    ensures maxArea == 0 <==> forall p, q :: 0 <= p < q < |tiles| ==> !valid(tiles[p], tiles[q])
  {
    maxArea := 0;
    ghost var bp, bq := 0, 0;
    for i := 0 to |tiles|
      invariant forall p, q {:trigger Area(tiles[p], tiles[q])} :: 0 <= p < q < |tiles| && p < i && valid(tiles[p], tiles[q]) ==> Area(tiles[p], tiles[q]) <= maxArea
      invariant maxArea > 0 ==> 0 <= bp < bq < |tiles| && valid(tiles[bp], tiles[bq]) && maxArea == Area(tiles[bp], tiles[bq])
    {
      for j := i + 1 to |tiles|
        invariant forall p, q {:trigger Area(tiles[p], tiles[q])} :: 0 <= p < q < |tiles| && Before(p, q, i, j) && valid(tiles[p], tiles[q]) ==> Area(tiles[p], tiles[q]) <= maxArea
        invariant maxArea > 0 ==> 0 <= bp < bq < |tiles| && valid(tiles[bp], tiles[bq]) && maxArea == Area(tiles[bp], tiles[bq])
      {
        var area := Area(tiles[i], tiles[j]);
        if area <= maxArea {
          continue;
        }
        if valid(tiles[i], tiles[j]) {
          if area > maxArea {
            maxArea := area;
            bp, bq := i, j;
          }
        }
      }
    }
    NoneValidIffZero(tiles, valid, maxArea);
  }

  /** The pruned search's result is 0 exactly when no pair passes. */
  lemma NoneValidIffZero(tiles: seq<Tile>, valid: (Tile, Tile) -> bool, m: nat)
    requires LargestUnder(tiles, valid, m)
    ensures m == 0 <==> forall p, q :: 0 <= p < q < |tiles| ==> !valid(tiles[p], tiles[q])
  {
    if m == 0 {
      forall p, q | 0 <= p < q < |tiles|
        ensures !valid(tiles[p], tiles[q])
      {
        var area := Area(tiles[p], tiles[q]);
      }
    }
  }

  /** The largest valid area, when it exists, is unique. */
  lemma LargestUnderUnique(tiles: seq<Tile>, valid: (Tile, Tile) -> bool, m1: nat, m2: nat)
    requires LargestUnder(tiles, valid, m1) && LargestUnder(tiles, valid, m2)
    ensures m1 == m2
  {
    if m1 != 0 {
      var p, q :| 0 <= p < q < |tiles| && valid(tiles[p], tiles[q]) && m1 == Area(tiles[p], tiles[q]);
      assert m1 <= m2;
    }
    if m2 != 0 {
      var p, q :| 0 <= p < q < |tiles| && valid(tiles[p], tiles[q]) && m2 == Area(tiles[p], tiles[q]);
      assert m2 <= m1;
    }
  }

  /** A validity test only removes candidates: the best valid rectangle is
      never larger than the best rectangle. */
  lemma ValidAtMostLargest(tiles: seq<Tile>, valid: (Tile, Tile) -> bool, mValid: nat, m: nat)
    requires LargestUnder(tiles, valid, mValid) && IsLargest(tiles, m)
    ensures mValid <= m
  {
    if mValid != 0 {
      var p, q :| 0 <= p < q < |tiles| && valid(tiles[p], tiles[q]) && mValid == Area(tiles[p], tiles[q]);
      assert Area(tiles[p], tiles[q]) <= m;
    }
  }

  /** A test that accepts everything leaves the unrestricted maximum. */
  lemma AllValidIsLargest(tiles: seq<Tile>, valid: (Tile, Tile) -> bool, m: nat)
    requires forall a, b :: valid(a, b)
    ensures LargestUnder(tiles, valid, m) <==> IsLargest(tiles, m)
  {
  }

  /** The largest area is determined by the tiles. */
  lemma LargestUnique(tiles: seq<Tile>, m1: nat, m2: nat)
    requires IsLargest(tiles, m1) && IsLargest(tiles, m2)
    ensures m1 == m2
  {
    if m1 != 0 {
      var p, q :| 0 <= p < q < |tiles| && m1 == Area(tiles[p], tiles[q]);
      assert m1 <= m2;
    }
    if m2 != 0 {
      var p, q :| 0 <= p < q < |tiles| && m2 == Area(tiles[p], tiles[q]);
      assert m2 <= m1;
    }
  }

  /** The tiles without position `k`, in order. */
  function Without(s: seq<Tile>, k: nat): (r: seq<Tile>)
    requires k < |s|
    ensures |r| == |s| - 1
    ensures forall i :: 0 <= i < |r| ==> r[i] == s[if i < k then i else i + 1]
  {
    s[..k] + s[k + 1..]
  }

  lemma WithoutMultiset(s: seq<Tile>, k: nat)
    requires k < |s|
    ensures multiset(s) == multiset(Without(s, k)) + multiset{s[k]}
  {
    assert s == s[..k] + [s[k]] + s[k + 1..];
  }

  /** Taking one copy of the same value out of two rearrangements of each
      other leaves rearrangements of each other. */
  lemma WithoutCancel(s: seq<Tile>, t: seq<Tile>, p: nat, p': nat)
    requires multiset(s) == multiset(t) && p < |s| && p' < |t| && s[p] == t[p']
    ensures multiset(Without(s, p)) == multiset(Without(t, p'))
  {
    WithoutMultiset(s, p);
    WithoutMultiset(t, p');
    assert multiset(Without(s, p)) == multiset(s) - multiset{s[p]};
    assert multiset(Without(t, p')) == multiset(t) - multiset{t[p']};
  }

  /** Two different positions of one sequence hold values found at two
      different positions of any rearrangement of it. */
  lemma PairInPermutation(s: seq<Tile>, t: seq<Tile>, p: nat, q: nat) returns (p': nat, q': nat)
    requires multiset(s) == multiset(t) && p < |s| && q < |s| && p != q
    ensures p' < |t| && q' < |t| && p' != q' && t[p'] == s[p] && t[q'] == s[q]
  {
    assert s[p] in multiset(t);
    p' :| 0 <= p' < |t| && t[p'] == s[p];
    WithoutCancel(s, t, p, p');
    var sp, tp := Without(s, p), Without(t, p');
    var qs := if q < p then q else q - 1;
    assert sp[qs] == s[q];
    assert s[q] in multiset(sp);
    var k :| 0 <= k < |tp| && tp[k] == s[q];
    q' := if k < p' then k else k + 1;
  }

  /** The largest area does not depend on the order of the tiles. */
  lemma LargestOrderFree(tiles: seq<Tile>, other: seq<Tile>, m: nat)
    requires multiset(tiles) == multiset(other) && IsLargest(tiles, m)
    ensures IsLargest(other, m)
  {
    assert |tiles| == |multiset(tiles)| == |other|;
    forall p, q | 0 <= p < q < |other|
      ensures Area(other[p], other[q]) <= m
    {
      var p', q' := PairInPermutation(other, tiles, p, q);
      if p' < q' {
        assert Area(tiles[p'], tiles[q']) <= m;
      } else {
        assert Area(tiles[q'], tiles[p']) <= m;
        AreaSymmetric(tiles[q'], tiles[p']);
      }
    }
    if m != 0 {
      var p, q :| 0 <= p < q < |tiles| && m == Area(tiles[p], tiles[q]);
      var p', q' := PairInPermutation(tiles, other, p, q);
      if p' < q' {
        assert m == Area(other[p'], other[q']);
      } else {
        AreaSymmetric(other[q'], other[p']);
        assert m == Area(other[q'], other[p']);
      }
    }
  }

  /** The rectangle `lx .. hx` by `ly .. hy`, both ends included. */
  datatype Rect = Rect(lx: int, hx: int, ly: int, hy: int)

  /** The rectangle with opposite corners `(x1, y1)` and `(x2, y2)`. */
  function Corners(x1: int, y1: int, x2: int, y2: int): (r: Rect)
    ensures r.lx <= r.hx && r.ly <= r.hy
  {
    Rect(Min(x1, x2), Max(x1, x2), Min(y1, y2), Max(y1, y2))
  }

  function Width(r: Rect): int
  {
    r.hx - r.lx + 1
  }

  function Height(r: Rect): int
  {
    r.hy - r.ly + 1
  }

  /** Every cell of the rectangle is in `cells`. */
  ghost predicate CellsIn(r: Rect, cells: set<Tile>)
  {
    forall x, y :: r.lx <= x <= r.hx && r.ly <= y <= r.hy ==> Tile(x, y) in cells
  }

  /** The top and bottom rows, then the left and right columns without
      their end cells. */
  ghost predicate EdgesIn(r: Rect, cells: set<Tile>)
  {
    && (forall x :: r.lx <= x <= r.hx ==> Tile(x, r.ly) in cells && Tile(x, r.hy) in cells)
    && (forall y :: r.ly < y < r.hy ==> Tile(r.lx, y) in cells && Tile(r.hx, y) in cells)
  }

  /** The `i`-th sample coordinate after `lo`. */
  function SampleAt(lo: int, rate: nat, i: nat): int
  {
    lo + i * rate
  }

  /** The interior samples: every `rate`-th column and row, starting
      `rate` after the low edge and stopping before the high edge. */
  ghost predicate SamplesIn(r: Rect, rate: nat, cells: set<Tile>)
  {
    forall i: nat, j: nat :: 1 <= i && 1 <= j && SampleAt(r.lx, rate, i) < r.hx && SampleAt(r.ly, rate, j) < r.hy ==>
      Tile(SampleAt(r.lx, rate, i), SampleAt(r.ly, rate, j)) in cells
  }

  /** One sample per twentieth of the shorter side, but at least every cell. */
  function SampleRate(r: Rect): (rate: nat)
    requires r.lx <= r.hx && r.ly <= r.hy
    ensures rate >= 1
  {
    Max(1, Min(Width(r), Height(r)) / 20)
  }

  /** The cell-count threshold below which every cell is checked. */
  const FullCheckLimit := 10000

  /** What `is_rectangle_valid` accepts: up to the threshold, every cell;
      above it, the four edges and the interior samples. */
  ghost predicate RectangleValid(r: Rect, cells: set<Tile>)
    requires r.lx <= r.hx && r.ly <= r.hy
  {
    if Width(r) * Height(r) <= FullCheckLimit then CellsIn(r, cells)
    else EdgesIn(r, cells) && SamplesIn(r, SampleRate(r), cells)
  }

  /** Every edge cell and every sample is a cell of the rectangle, so a
      rectangle of valid cells passes either branch. */
  lemma CellsInIsValid(r: Rect, cells: set<Tile>)
    requires r.lx <= r.hx && r.ly <= r.hy && CellsIn(r, cells)
    ensures RectangleValid(r, cells) && EdgesIn(r, cells)
  {
    var rate := SampleRate(r);
    forall i: nat, j: nat | 1 <= i && 1 <= j && SampleAt(r.lx, rate, i) < r.hx && SampleAt(r.ly, rate, j) < r.hy
      ensures Tile(SampleAt(r.lx, rate, i), SampleAt(r.ly, rate, j)) in cells
    {
      MulAtLeast(i, rate);
      MulAtLeast(j, rate);
    }
  }

  /** Samples grow with their index. */
  lemma SampleGrows(lo: int, rate: nat, i: nat, k: nat)
    requires i <= k && rate >= 1
    ensures SampleAt(lo, rate, i) <= SampleAt(lo, rate, k)
  {
    MulAtLeast(k - i, rate);
    assert k * rate == i * rate + (k - i) * rate;
  }

  /** The full check of a small rectangle: column by column, row by row,
      stopping at the first cell not in `cells`. */
  method CheckAllCells(r: Rect, cells: set<Tile>) returns (ok: bool)
    requires r.lx <= r.hx && r.ly <= r.hy
    ensures ok <==> CellsIn(r, cells)
  {
    for x := r.lx to r.hx + 1
      invariant forall x', y :: r.lx <= x' < x && r.ly <= y <= r.hy ==> Tile(x', y) in cells
    {
      for y := r.ly to r.hy + 1
        invariant forall x', y' :: (r.lx <= x' < x && r.ly <= y' <= r.hy) || (x' == x && r.ly <= y' < y) ==> Tile(x', y') in cells
      {
        if Tile(x, y) !in cells {
          return false;
        }
      }
    }
    return true;
  }

  /** The perimeter check of a large rectangle. */
  method CheckEdges(r: Rect, cells: set<Tile>) returns (ok: bool)
    requires r.lx <= r.hx && r.ly <= r.hy
    ensures ok <==> EdgesIn(r, cells)
  {
    for x := r.lx to r.hx + 1
      invariant forall x' :: r.lx <= x' < x ==> Tile(x', r.ly) in cells && Tile(x', r.hy) in cells
    {
      if Tile(x, r.ly) !in cells || Tile(x, r.hy) !in cells {
        return false;
      }
    }
    var y := r.ly + 1;
    while y < r.hy
      invariant r.ly < y <= r.hy || y == r.ly + 1
      invariant forall x' :: r.lx <= x' <= r.hx ==> Tile(x', r.ly) in cells && Tile(x', r.hy) in cells
      invariant forall y' :: r.ly < y' < y ==> Tile(r.lx, y') in cells && Tile(r.hx, y') in cells
      decreases r.hy - y
    {
      if Tile(r.lx, y) !in cells || Tile(r.hx, y) !in cells {
        return false;
      }
      y := y + 1;
    }
    return true;
  }

  /** The interior sampling of a large rectangle: `range(lo + rate, hi,
      rate)` in both directions. */
  method CheckSamples(r: Rect, rate: nat, cells: set<Tile>) returns (ok: bool)
    requires rate >= 1
    ensures ok <==> SamplesIn(r, rate, cells)
  {
    var i: nat, x := 1, r.lx + rate;
    while x < r.hx
      invariant i >= 1 && x == SampleAt(r.lx, rate, i)
      invariant forall i': nat, j: nat :: 1 <= i' < i && 1 <= j && SampleAt(r.ly, rate, j) < r.hy ==>
        Tile(SampleAt(r.lx, rate, i'), SampleAt(r.ly, rate, j)) in cells
      decreases r.hx - x
    {
      var j: nat, y := 1, r.ly + rate;
      while y < r.hy
        invariant j >= 1 && y == SampleAt(r.ly, rate, j)
        invariant forall j': nat :: 1 <= j' < j ==> Tile(x, SampleAt(r.ly, rate, j')) in cells
        decreases r.hy - y
      {
        if Tile(x, y) !in cells {
          return false;
        }
        j, y := j + 1, y + rate;
      }
      forall j': nat | j' >= j
        ensures SampleAt(r.ly, rate, j') >= r.hy
      {
        SampleGrows(r.ly, rate, j, j');
      }
      i, x := i + 1, x + rate;
    }
    forall i': nat | i' >= i
      ensures SampleAt(r.lx, rate, i') >= r.hx
    {
      SampleGrows(r.lx, rate, i, i');
    }
    return true;
  }

  /** `is_rectangle_valid`.  A rectangle of valid cells always passes; up to
      the threshold the answer is exact; a large rectangle that passes has
      at least a valid perimeter. */
  method IsRectangleValid(x1: int, y1: int, x2: int, y2: int, cells: set<Tile>) returns (ok: bool)
    ensures ok == RectangleValid(Corners(x1, y1, x2, y2), cells)
    ensures CellsIn(Corners(x1, y1, x2, y2), cells) ==> ok
    ensures var r := Corners(x1, y1, x2, y2);
      Width(r) * Height(r) <= FullCheckLimit ==> (ok <==> CellsIn(r, cells))
    ensures ok ==> EdgesIn(Corners(x1, y1, x2, y2), cells)
  {
    var r := Corners(x1, y1, x2, y2);
    if CellsIn(r, cells) {
      CellsInIsValid(r, cells);
    }
    var width, height := r.hx - r.lx + 1, r.hy - r.ly + 1;
    if width * height <= FullCheckLimit {
      ok := CheckAllCells(r, cells);
      if ok {
        CellsInIsValid(r, cells);
      }
      return;
    }
    ok := CheckEdges(r, cells);
    if !ok {
      return;
    }
    var rate := Max(1, Min(width, height) / 20);
    ok := CheckSamples(r, rate, cells);
  }

  /** `is_rectangle_valid` as a test on a pair of corner tiles. */
  ghost function ValidIn(cells: set<Tile>): (Tile, Tile) -> bool
  {
    (a: Tile, b: Tile) => PairValid(cells, a, b)
  }

  ghost predicate PairValid(cells: set<Tile>, a: Tile, b: Tile)
  {
    RectangleValid(Corners(a.x, a.y, b.x, b.y), cells)
  }

  /** `is_rectangle_valid` called on two corner tiles. */
  method IsPairValid(a: Tile, b: Tile, cells: set<Tile>) returns (ok: bool)
    ensures ok == PairValid(cells, a, b)
  {
    ok := IsRectangleValid(a.x, a.y, b.x, b.y, cells);
  }

  /** `find_largest_valid_rectangle`: the pruned search with the
      precomputed valid cells.  The result is the largest area among the
      pairs `is_rectangle_valid` accepts. */
  method FindLargestValidRectangle(tiles: seq<Tile>, cells: set<Tile>) returns (maxArea: nat)
    ensures LargestUnder(tiles, ValidIn(cells), maxArea)
    ensures maxArea == 0 <==> forall p, q :: 0 <= p < q < |tiles| ==> !ValidIn(cells)(tiles[p], tiles[q])
  {
    ghost var valid := ValidIn(cells);
    maxArea := 0;
    ghost var bp, bq := 0, 0;
    for i := 0 to |tiles|
      invariant forall p, q {:trigger Area(tiles[p], tiles[q])} :: 0 <= p < q < |tiles| && p < i && valid(tiles[p], tiles[q]) ==> Area(tiles[p], tiles[q]) <= maxArea
      invariant maxArea > 0 ==> 0 <= bp < bq < |tiles| && valid(tiles[bp], tiles[bq]) && maxArea == Area(tiles[bp], tiles[bq])
    {
      for j := i + 1 to |tiles|
        invariant forall p, q {:trigger Area(tiles[p], tiles[q])} :: 0 <= p < q < |tiles| && Before(p, q, i, j) && valid(tiles[p], tiles[q]) ==> Area(tiles[p], tiles[q]) <= maxArea
        invariant maxArea > 0 ==> 0 <= bp < bq < |tiles| && valid(tiles[bp], tiles[bq]) && maxArea == Area(tiles[bp], tiles[bq])
      {
        var area := Area(tiles[i], tiles[j]);
        if area <= maxArea {
          continue;
        }
        var ok := IsPairValid(tiles[i], tiles[j], cells);
        if ok {
          if area > maxArea {
            maxArea := area;
            bp, bq := i, j;
          }
        }
      }
    }
    NoneValidIffZero(tiles, valid, maxArea);
  }

  /** The cells of the straight line from `a` to `b`: a column when the two
      share `x`, otherwise a row when they share `y`, otherwise none. */
  predicate OnSegment(a: Tile, b: Tile, t: Tile)
  {
    if a.x == b.x then t.x == a.x && Min(a.y, b.y) <= t.y <= Max(a.y, b.y)
    else if a.y == b.y then t.y == a.y && Min(a.x, b.x) <= t.x <= Max(a.x, b.x)
    else false
  }

  /** The tile after position `i`, wrapping from the last to the first. */
  function Next(tiles: seq<Tile>, i: nat): Tile
    requires i < |tiles|
  {
    tiles[(i + 1) % |tiles|]
  }

  /** A cell on one of the lines from tile `k` to the next, for `k < i`. */
  ghost predicate OnSegmentBefore(tiles: seq<Tile>, i: nat, t: Tile)
    requires i <= |tiles|
  {
    exists k :: 0 <= k < i && OnSegment(tiles[k], Next(tiles, k), t)
  }

  lemma OnSegmentBeforeStep(tiles: seq<Tile>, i: nat, t: Tile)
    requires i < |tiles|
    ensures OnSegmentBefore(tiles, i + 1, t) <==> OnSegmentBefore(tiles, i, t) || OnSegment(tiles[i], Next(tiles, i), t)
  {
    if OnSegmentBefore(tiles, i + 1, t) && !OnSegment(tiles[i], Next(tiles, i), t) {
      var k :| 0 <= k < i + 1 && OnSegment(tiles[k], Next(tiles, k), t);
      assert k < i;
    }
  }

  /** A red tile, or a cell on a line between cyclically consecutive red
      tiles. */
  ghost predicate OnBoundary(tiles: seq<Tile>, t: Tile)
  {
    t in tiles || OnSegmentBefore(tiles, |tiles|, t)
  }

  /** The cells from `a` to `b` added to `cells`, one at a time. */
  method AddSegment(cells: set<Tile>, a: Tile, b: Tile) returns (result: set<Tile>)
    ensures forall t :: t in result <==> t in cells || OnSegment(a, b, t)
  {
    result := cells;
    if a.x == b.x {
      var y := Min(a.y, b.y);
      while y <= Max(a.y, b.y)
        invariant Min(a.y, b.y) <= y <= Max(a.y, b.y) + 1
        invariant forall t :: t in result <==> t in cells || (t.x == a.x && Min(a.y, b.y) <= t.y < y)
        decreases Max(a.y, b.y) - y
      {
        result := result + {Tile(a.x, y)};
        y := y + 1;
      }
    } else if a.y == b.y {
      var x := Min(a.x, b.x);
      while x <= Max(a.x, b.x)
        invariant Min(a.x, b.x) <= x <= Max(a.x, b.x) + 1
        invariant forall t :: t in result <==> t in cells || (t.y == a.y && Min(a.x, b.x) <= t.x < x)
        decreases Max(a.x, b.x) - x
      {
        result := result + {Tile(x, a.y)};
        x := x + 1;
      }
    }
  }

  /** `build_polygon_boundary`: the red tiles, then the line of cells from
      each tile to the next, the last connected back to the first. */
  method BuildPolygonBoundary(tiles: seq<Tile>) returns (boundary: set<Tile>)
    ensures forall t :: t in boundary <==> OnBoundary(tiles, t)
    ensures forall i :: 0 <= i < |tiles| ==> tiles[i] in boundary
  {
    boundary := set t | t in tiles;
    for i := 0 to |tiles|
      invariant forall t :: t in boundary <==> t in tiles || OnSegmentBefore(tiles, i, t)
    {
      boundary := AddSegment(boundary, tiles[i], Next(tiles, i));
      forall t
        ensures t in boundary <==> t in tiles || OnSegmentBefore(tiles, i + 1, t)
      {
        OnSegmentBeforeStep(tiles, i, t);
      }
    }
  }
}
