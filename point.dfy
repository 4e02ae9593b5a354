/**
 * Board geometry: the 81 points, the 27 peer groups (nine rows, nine columns, nine
 * 3x3 blocks) and, for one point, the nine points of its row, column and block.
 * A point is `Point(x, y)`: x is the column and y the row, both unsigned bytes.
 */
module Points {

  /** An unsigned 8-bit integer, the coordinate type of a point. */
  type Byte = n: int | 0 <= n < 256

  datatype Point = Point(x: Byte, y: Byte)

  /** The point names a cell of the 9x9 board. */
  predicate InGrid(p: Point) {
    p.x < 9 && p.y < 9
  }

  predicate SameBlock(p: Point, q: Point) {
    p.x / 3 == q.x / 3 && p.y / 3 == q.y / 3
  }

  /** `q` is a peer of `p`: another point in the same row, column or block. */
  predicate Sees(p: Point, q: Point) {
    p != q && (p.x == q.x || p.y == q.y || SameBlock(p, q))
  }

  predicate Distinct(s: seq<Point>) {
    forall i, j :: 0 <= i < j < |s| ==> s[i] != s[j]
  }

  /** Every board point once, x outer and y inner: (0,0), (0,1), ..., (0,8), (1,0), ... */
  function AllPoints(): (r: seq<Point>)
    ensures |r| == 81
    ensures forall i :: 0 <= i < 81 ==> InGrid(r[i])
  {
    seq(81, k requires 0 <= k < 81 => Point(k / 9, k % 9))
  }

  /** all_points lists each of the 81 points exactly once, ordered by x and then by y. */
  lemma AllPointsInOrder()
    ensures forall p :: p in AllPoints() <==> InGrid(p)
    ensures forall i, j :: 0 <= i < j < 81 ==>
      AllPoints()[i].x < AllPoints()[j].x || (AllPoints()[i].x == AllPoints()[j].x && AllPoints()[i].y < AllPoints()[j].y)
    ensures Distinct(AllPoints())
  {
    var r := AllPoints();
    forall p | InGrid(p) ensures p in r {
      assert r[p.x * 9 + p.y] == p;
    }
  }

  /** The nine rows, row y holding the points (0, y) .. (8, y). */
  function HorizontalLines(): (r: seq<seq<Point>>)
    ensures |r| == 9
    ensures forall i :: 0 <= i < 9 ==> |r[i]| == 9 && forall j :: 0 <= j < 9 ==> InGrid(r[i][j])
    ensures forall k, p :: 0 <= k < 9 && p in r[k] ==> InGrid(p)
  {
    seq(9, y requires 0 <= y < 9 => seq(9, x requires 0 <= x < 9 => Point(x, y)))
  }

  /** Row i is the nine distinct points with y == i, the row of each of its points. */
  lemma HorizontalLinesAreRows()
    ensures forall i :: 0 <= i < 9 ==> Distinct(HorizontalLines()[i])
    ensures forall i, p :: 0 <= i < 9 ==> (p in HorizontalLines()[i] <==> InGrid(p) && p.y == i)
    ensures forall i, j :: 0 <= i < 9 && 0 <= j < 9 ==>
      HorizontalLines()[i] == HorizontalMatching(HorizontalLines()[i][j])
  {
    var r := HorizontalLines();
    forall i, p | 0 <= i < 9 && InGrid(p) && p.y == i ensures p in r[i] {
      assert r[i][p.x] == p;
    }
  }

  /** The nine columns, column x holding the points (x, 0) .. (x, 8). */
  function VerticalLines(): (r: seq<seq<Point>>)
    ensures |r| == 9
    ensures forall i :: 0 <= i < 9 ==> |r[i]| == 9 && forall j :: 0 <= j < 9 ==> InGrid(r[i][j])
    ensures forall k, p :: 0 <= k < 9 && p in r[k] ==> InGrid(p)
  {
    seq(9, x requires 0 <= x < 9 => seq(9, y requires 0 <= y < 9 => Point(x, y)))
  }

  /** Column i is the nine distinct points with x == i, the column of each of its points. */
  lemma VerticalLinesAreColumns()
    ensures forall i :: 0 <= i < 9 ==> Distinct(VerticalLines()[i])
    ensures forall i, p :: 0 <= i < 9 ==> (p in VerticalLines()[i] <==> InGrid(p) && p.x == i)
    ensures forall i, j :: 0 <= i < 9 && 0 <= j < 9 ==>
      VerticalLines()[i] == VerticalMatching(VerticalLines()[i][j])
  {
    var r := VerticalLines();
    forall i, p | 0 <= i < 9 && InGrid(p) && p.x == i ensures p in r[i] {
      assert r[i][p.y] == p;
    }
  }

  /**
   * The nine 3x3 blocks. Block b has its corner at (3 * (b / 3), 3 * (b % 3)) and lists its
   * points with x outer and y inner.
   */
  function Blocks(): (r: seq<seq<Point>>)
    ensures |r| == 9
    ensures forall b :: 0 <= b < 9 ==> |r[b]| == 9 && forall j :: 0 <= j < 9 ==> InGrid(r[b][j])
    ensures forall k, p :: 0 <= k < 9 && p in r[k] ==> InGrid(p)
  {
    seq(9, b requires 0 <= b < 9 =>
      seq(9, k requires 0 <= k < 9 => Point(k / 3 + b / 3 * 3, k % 3 + b % 3 * 3)))
  }

  /** Block b is the nine distinct points of its 3x3 square, the block of each of its points. */
  lemma BlocksAreSquares()
    ensures forall b :: 0 <= b < 9 ==> Distinct(Blocks()[b])
    ensures forall b, p :: 0 <= b < 9 ==> (p in Blocks()[b] <==> InGrid(p) && p.x / 3 == b / 3 && p.y / 3 == b % 3)
    ensures forall b, j :: 0 <= b < 9 && 0 <= j < 9 ==> Blocks()[b] == BlockMatching(Blocks()[b][j])
  {
    var r := Blocks();
    forall b, p | 0 <= b < 9 && InGrid(p) && p.x / 3 == b / 3 && p.y / 3 == b % 3 ensures p in r[b] {
      assert r[b][(p.x % 3) * 3 + p.y % 3] == p;
    }
  }

  /** The nine points of the row of `p`, which include `p`. */
  function HorizontalMatching(p: Point): (r: seq<Point>)
    ensures |r| == 9
    ensures InGrid(p) ==> forall i :: 0 <= i < 9 ==> InGrid(r[i])
  {
    seq(9, i requires 0 <= i < 9 => Point(i, p.y))
  }

  /** The row of `p` lists x = 0 .. 8 in order, each once, and nothing outside the row. */
  lemma HorizontalMatchingIsRow(p: Point)
    ensures Distinct(HorizontalMatching(p))
    ensures forall q :: q in HorizontalMatching(p) <==> q.x < 9 && q.y == p.y
    ensures forall i :: 0 <= i < 9 ==> HorizontalMatching(p)[i].x == i
  {
    var r := HorizontalMatching(p);
    forall q: Point | q.x < 9 && q.y == p.y ensures q in r {
      assert r[q.x] == q;
    }
  }

  /** The nine points of the column of `p`, which include `p`. */
  function VerticalMatching(p: Point): (r: seq<Point>)
    ensures |r| == 9
    ensures InGrid(p) ==> forall i :: 0 <= i < 9 ==> InGrid(r[i])
  {
    seq(9, i requires 0 <= i < 9 => Point(p.x, i))
  }

  /** The column of `p` lists y = 0 .. 8 in order, each once, and nothing outside the column. */
  lemma VerticalMatchingIsColumn(p: Point)
    ensures Distinct(VerticalMatching(p))
    ensures forall q :: q in VerticalMatching(p) <==> q.x == p.x && q.y < 9
    ensures forall i :: 0 <= i < 9 ==> VerticalMatching(p)[i].y == i
  {
    var r := VerticalMatching(p);
    forall q: Point | q.x == p.x && q.y < 9 ensures q in r {
      assert r[q.y] == q;
    }
  }

  /**
   * The nine points of the 3x3 block of `p`, starting at its corner (p rounded down to
   * multiples of 3). The corner plus 2 must fit in a byte, which holds exactly when both
   * coordinates are below 255.
   */
  function BlockMatching(p: Point): (r: seq<Point>)
    requires p.x < 255 && p.y < 255
    ensures |r| == 9
    ensures r[0] == Point(p.x / 3 * 3, p.y / 3 * 3)
    ensures InGrid(p) ==> forall i :: 0 <= i < 9 ==> InGrid(r[i])
  {
    var roundedX := p.x / 3 * 3;
    var roundedY := p.y / 3 * 3;
    seq(9, k requires 0 <= k < 9 => Point(k / 3 + roundedX, k % 3 + roundedY))
  }

  /** The block of `p` lists each point of the 3x3 square of `p` once, and nothing else. */
  lemma BlockMatchingIsSquare(p: Point)
    requires p.x < 255 && p.y < 255
    ensures Distinct(BlockMatching(p))
    ensures forall q :: q in BlockMatching(p) <==> SameBlock(p, q)
  {
    var r := BlockMatching(p);
    forall q | SameBlock(p, q) ensures q in r {
      assert r[(q.x % 3) * 3 + q.y % 3] == q;
    }
  }

  /** A point is a peer of `p`, or `p` itself, exactly when it is in one of p's three groups. */
  lemma MatchingArePeers(p: Point, q: Point)
    requires InGrid(p)
    ensures q in HorizontalMatching(p) || q in VerticalMatching(p) || q in BlockMatching(p)
        <==> q == p || (InGrid(q) && Sees(p, q))
  {
    HorizontalMatchingIsRow(p);
    VerticalMatchingIsColumn(p);
    BlockMatchingIsSquare(p);
  }
}
