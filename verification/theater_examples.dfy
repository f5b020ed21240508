/**
  Worked tile layouts: the largest rectangle of a few small inputs, and
  the boundary of a square.
 */
module TheaterExamples {
  import opened Theater

  /** Two tiles: the rectangle they span is the only candidate. */
  lemma TwoTilesLargest(a: Tile, b: Tile, m: nat)
    requires IsLargest([a, b], m)
    ensures m == Area(a, b)
  {
    var tiles := [a, b];
    assert Area(tiles[0], tiles[1]) == Area(a, b);
    LargestUnique(tiles, m, Area(a, b));
  }

  /** `(0,0)` and `(3,4)` span 4 by 5 tiles. */
  lemma DiagonalPair(m: nat)
    requires IsLargest([Tile(0, 0), Tile(3, 4)], m)
    ensures m == 20
  {
    TwoTilesLargest(Tile(0, 0), Tile(3, 4), m);
  }

  /** Negative coordinates: `(-5,-5)` and `(5,5)` span 11 by 11 tiles. */
  lemma NegativeCorners(m: nat)
    requires IsLargest([Tile(-5, -5), Tile(5, 5)], m)
    ensures m == 121
  {
    TwoTilesLargest(Tile(-5, -5), Tile(5, 5), m);
  }

  /** The same two tiles in the other order give the same answer. */
  lemma SwappedPair(m: nat)
    requires IsLargest([Tile(5, 5), Tile(0, 0)], m)
    ensures m == 36
  {
    TwoTilesLargest(Tile(5, 5), Tile(0, 0), m);
  }

  /** Of three tiles on a diagonal, the outer two win. */
  lemma ThreeOnDiagonal(m: nat)
    requires IsLargest([Tile(0, 0), Tile(1, 1), Tile(10, 10)], m)
    ensures m == 121
  {
    var tiles := [Tile(0, 0), Tile(1, 1), Tile(10, 10)];
    assert Area(tiles[0], tiles[1]) == 4 && Area(tiles[0], tiles[2]) == 121 && Area(tiles[1], tiles[2]) == 100;
    assert IsLargest(tiles, 121);
    LargestUnique(tiles, m, 121);
  }

  /** Three tiles in a row: the rectangle is a single row of 11 tiles. */
  lemma ThreeInARow(m: nat)
    requires IsLargest([Tile(0, 0), Tile(5, 0), Tile(10, 0)], m)
    ensures m == 11
  {
    var tiles := [Tile(0, 0), Tile(5, 0), Tile(10, 0)];
    assert Area(tiles[0], tiles[1]) == 6 && Area(tiles[0], tiles[2]) == 11 && Area(tiles[1], tiles[2]) == 6;
    assert IsLargest(tiles, 11);
    LargestUnique(tiles, m, 11);
  }

  /** Two tiles in a row are joined both ways round by the cells between. */
  lemma RowConnection(boundary: set<Tile>)
    requires forall t :: t in boundary <==> OnBoundary([Tile(0, 0), Tile(5, 0)], t)
    ensures forall x :: 0 <= x <= 5 ==> Tile(x, 0) in boundary
  {
    var tiles := [Tile(0, 0), Tile(5, 0)];
    forall x | 0 <= x <= 5
      ensures Tile(x, 0) in boundary
    {
      assert OnSegment(tiles[0], Next(tiles, 0), Tile(x, 0));
    }
  }

  /** The same for two tiles in a column. */
  lemma ColumnConnection(boundary: set<Tile>)
    requires forall t :: t in boundary <==> OnBoundary([Tile(0, 0), Tile(0, 5)], t)
    ensures forall y :: 0 <= y <= 5 ==> Tile(0, y) in boundary
  {
    var tiles := [Tile(0, 0), Tile(0, 5)];
    forall y | 0 <= y <= 5
      ensures Tile(0, y) in boundary
    {
      assert OnSegment(tiles[0], Next(tiles, 0), Tile(0, y));
    }
  }

  const Square := [Tile(0, 0), Tile(3, 0), Tile(3, 3), Tile(0, 3)]

  /** The twelve cells around the 4 by 4 square. */
  const SquareRing := {
    Tile(0, 0), Tile(1, 0), Tile(2, 0), Tile(3, 0),
    Tile(3, 1), Tile(3, 2), Tile(3, 3),
    Tile(2, 3), Tile(1, 3), Tile(0, 3),
    Tile(0, 2), Tile(0, 1)
  }

  /** Each side of the square lies in the ring. */
  lemma SideInRing(k: nat, t: Tile)
    requires k < 4 && OnSegment(Square[k], Next(Square, k), t)
    ensures t in SquareRing
  {
    var c := if k == 0 || k == 2 then t.x else t.y;
    assert c == 0 || c == 1 || c == 2 || c == 3;
  }

  lemma BoundaryInRing(t: Tile)
    requires OnBoundary(Square, t)
    ensures t in SquareRing
  {
    if t !in Square {
      var k :| 0 <= k < 4 && OnSegment(Square[k], Next(Square, k), t);
      SideInRing(k, t);
    }
  }

  lemma RingOnBoundary(t: Tile)
    requires t in SquareRing
    ensures OnBoundary(Square, t)
  {
    var k := if t.y == 0 then 0 else if t.x == 3 then 1 else if t.y == 3 then 2 else 3;
    assert OnSegment(Square[k], Next(Square, k), t);
  }

  /** The boundary of the square `(0,0), (3,0), (3,3), (0,3)` is its ring of
      12 cells; the interior cells are not on it. */
  lemma SquareBoundary(boundary: set<Tile>)
    requires forall t :: t in boundary <==> OnBoundary(Square, t)
    ensures boundary == SquareRing
    ensures |boundary| == 12
  {
    forall t | t in boundary
      ensures t in SquareRing
    {
      BoundaryInRing(t);
    }
    forall t | t in SquareRing
      ensures t in boundary
    {
      RingOnBoundary(t);
    }
    assert boundary == SquareRing;
    RingSize();
  }

  lemma RingSize()
    ensures |SquareRing| == 12
  {
  }
}
