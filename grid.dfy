/**
 * The board as a value, `values[row][col]`, with the read-only queries the reducer is built
 * from: reading a cell, counting Empty cells, the values of a point's row, column and block,
 * the candidate list of a cell, and the points of a group that can take a value.
 */
module Grids {
  import opened SudokuValues
  import opened Points

  /** Nine rows of nine cells; row y, column x is the cell of Point(x, y). */
  type Grid = g: seq<seq<SudokuValue>> | |g| == 9 && forall y :: 0 <= y < 9 ==> |g[y]| == 9
    witness seq(9, _ => seq(9, _ => Empty))

  /** get: the cell of `p`, read as values[p.y][p.x]. */
  function Get(g: Grid, p: Point): SudokuValue
    requires InGrid(p)
  {
    g[p.y][p.x]
  }

  /** set: the board with the cell of `p` replaced by `v`. */
  function Assigned(g: Grid, p: Point, v: SudokuValue): (r: Grid)
    requires InGrid(p)
    ensures Get(r, p) == v
    ensures forall q :: InGrid(q) && q != p ==> Get(r, q) == Get(g, q)
  {
    g[p.y := g[p.y][p.x := v]]
  }

  /** Two boards that agree on every point are equal. */
  lemma GridsEqual(g: Grid, h: Grid)
    requires forall p :: InGrid(p) ==> Get(g, p) == Get(h, p)
    ensures g == h
  {
    forall y | 0 <= y < 9 ensures g[y] == h[y] {
      forall x | 0 <= x < 9 ensures g[y][x] == h[y][x] {
        assert Get(g, Point(x, y)) == Get(h, Point(x, y));
      }
    }
  }

  // ---------------------------------------------------------------------------------------
  // Counting Empty cells
  // ---------------------------------------------------------------------------------------

  /** The number of points of `pts` whose cell is Empty. */
  function CountEmpty(g: Grid, pts: seq<Point>): (n: nat)
    requires forall p :: p in pts ==> InGrid(p)
    ensures n <= |pts|
  {
    if pts == [] then 0
    else (if Get(g, pts[0]) == Empty then 1 else 0) + CountEmpty(g, pts[1..])
  }

  lemma {:induction false} CountEmptyZero(g: Grid, pts: seq<Point>)
    requires forall p :: p in pts ==> InGrid(p)
    ensures CountEmpty(g, pts) == 0 <==> forall p :: p in pts ==> Get(g, p) != Empty
  {
    if pts != [] {
      CountEmptyZero(g, pts[1..]);
      assert forall p :: p in pts ==> p == pts[0] || p in pts[1..];
    }
  }

  /** When every listed cell is Empty, the count is the number of points listed. */
  lemma {:induction false} CountEmptyAll(g: Grid, pts: seq<Point>)
    requires forall p :: p in pts ==> InGrid(p) && Get(g, p) == Empty
    ensures CountEmpty(g, pts) == |pts|
  {
    if pts != [] {
      assert pts[0] in pts;
      assert forall p :: p in pts[1..] ==> p in pts;
      CountEmptyAll(g, pts[1..]);
    }
  }

  /** empty_count: the number of Empty cells of the board. */
  function EmptyCount(g: Grid): (n: nat)
    ensures n <= 81
    ensures n == 0 <==> forall p :: InGrid(p) ==> Get(g, p) != Empty
  {
    AllPointsInOrder();
    CountEmptyZero(g, AllPoints());
    CountEmpty(g, AllPoints())
  }

  // ---------------------------------------------------------------------------------------
  // Peer values and candidates
  // ---------------------------------------------------------------------------------------

  /** find_horizontal_matching_point: the values of the row of `p`. */
  function FindHorizontalMatchingPoint(g: Grid, p: Point): (r: seq<SudokuValue>)
    requires InGrid(p)
    ensures |r| == 9
  {
    var pts := HorizontalMatching(p);
    seq(9, i requires 0 <= i < 9 => Get(g, pts[i]))
  }

  /** The values FindHorizontalMatchingPoint reads are exactly the values of the row of `p`. */
  lemma RowValues(g: Grid, p: Point)
    requires InGrid(p)
    ensures forall v :: v in FindHorizontalMatchingPoint(g, p) <==> exists q :: InGrid(q) && q.y == p.y && Get(g, q) == v
  {
    var pts := HorizontalMatching(p);
    var r := FindHorizontalMatchingPoint(g, p);
    forall v | exists q :: InGrid(q) && q.y == p.y && Get(g, q) == v ensures v in r {
      var q :| InGrid(q) && q.y == p.y && Get(g, q) == v;
      assert pts[q.x] in pts;
      assert r[q.x] == v;
    }
  }

  /** find_vertical_matching_point: the values of the column of `p`. */
  function FindVerticalMatchingPoint(g: Grid, p: Point): (r: seq<SudokuValue>)
    requires InGrid(p)
    ensures |r| == 9
  {
    var pts := VerticalMatching(p);
    seq(9, i requires 0 <= i < 9 => Get(g, pts[i]))
  }

  /** The values FindVerticalMatchingPoint reads are exactly the values of the column of `p`. */
  lemma ColumnValues(g: Grid, p: Point)
    requires InGrid(p)
    ensures forall v :: v in FindVerticalMatchingPoint(g, p) <==> exists q :: InGrid(q) && q.x == p.x && Get(g, q) == v
  {
    var pts := VerticalMatching(p);
    var r := FindVerticalMatchingPoint(g, p);
    forall v | exists q :: InGrid(q) && q.x == p.x && Get(g, q) == v ensures v in r {
      var q :| InGrid(q) && q.x == p.x && Get(g, q) == v;
      assert pts[q.y] in pts;
      assert r[q.y] == v;
    }
  }

  /** find_block_matching_point: the values of the 3x3 block of `p`. */
  function FindBlockMatchingPoint(g: Grid, p: Point): (r: seq<SudokuValue>)
    requires InGrid(p)
    ensures |r| == 9
  {
    var pts := BlockMatching(p);
    seq(9, i requires 0 <= i < 9 => Get(g, pts[i]))
  }

  /** The values FindBlockMatchingPoint reads are exactly the values of the block of `p`. */
  lemma BlockValues(g: Grid, p: Point)
    requires InGrid(p)
    ensures forall v :: v in FindBlockMatchingPoint(g, p) <==> exists q :: InGrid(q) && SameBlock(p, q) && Get(g, q) == v
  {
    var pts := BlockMatching(p);
    var r := FindBlockMatchingPoint(g, p);
    BlockMatchingIsSquare(p);
    forall v | exists q :: InGrid(q) && SameBlock(p, q) && Get(g, q) == v ensures v in r {
      var q :| InGrid(q) && SameBlock(p, q) && Get(g, q) == v;
      var i :| 0 <= i < 9 && pts[i] == q;
      assert r[i] == v;
    }
  }

  /** No peer of `p` holds `v`. */
  ghost predicate Free(g: Grid, p: Point, v: SudokuValue)
    requires InGrid(p)
  {
    forall q :: InGrid(q) && Sees(p, q) ==> Get(g, q) != v
  }

  /** The values are in strictly ascending order: sorted and without repetition. */
  predicate Ascending(s: seq<SudokuValue>) {
    forall i, j :: 0 <= i < j < |s| ==> Ordinal(s[i]) < Ordinal(s[j])
  }

  /** The values of `vals`, in their order, that occur in none of `row`, `col` and `block`. */
  function Absent(vals: seq<SudokuValue>, row: seq<SudokuValue>, col: seq<SudokuValue>,
                  block: seq<SudokuValue>): (r: seq<SudokuValue>)
    ensures forall v :: v in r <==> v in vals && v !in row && v !in col && v !in block
    ensures Ascending(vals) ==> Ascending(r)
  {
    if vals == [] then []
    else
      var last := vals[|vals| - 1];
      var front := vals[..|vals| - 1];
      assert forall v :: v in vals <==> v in front || v == last;
      var rest := Absent(front, row, col, block);
      assert Ascending(vals) ==> Ascending(front) && forall v :: v in rest ==> Ordinal(v) < Ordinal(last);
      rest + (if last !in row && last !in col && last !in block then [last] else [])
  }

  /**
   * find_values_at_point: the candidates of the cell of `p`. A filled cell has none; an Empty
   * cell has, in ascending order, every digit that no peer holds.
   */
  function Candidates(g: Grid, p: Point): (r: seq<SudokuValue>)
    requires InGrid(p)
  {
    if Get(g, p) != Empty then []
    else
      Absent(AllValues(), FindHorizontalMatchingPoint(g, p), FindVerticalMatchingPoint(g, p),
             FindBlockMatchingPoint(g, p))
  }

  /**
   * The candidates of `p` are, in ascending order, the digits no peer of `p` holds, and none
   * at all when the cell is filled.
   */
  lemma CandidatesAreFree(g: Grid, p: Point)
    requires InGrid(p)
    ensures forall v :: v in Candidates(g, p) <==> Get(g, p) == Empty && v != Empty && Free(g, p, v)
    ensures Ascending(Candidates(g, p))
  {
    if Get(g, p) == Empty {
      var row := FindHorizontalMatchingPoint(g, p);
      var col := FindVerticalMatchingPoint(g, p);
      var block := FindBlockMatchingPoint(g, p);
      RowValues(g, p);
      ColumnValues(g, p);
      BlockValues(g, p);
      var r := Candidates(g, p);
      forall v ensures v in r <==> v != Empty && Free(g, p, v) {
        if v != Empty && !Free(g, p, v) {
          var q :| InGrid(q) && Sees(p, q) && Get(g, q) == v;
          assert v in row || v in col || v in block;
        }
      }
    }
  }

  // ---------------------------------------------------------------------------------------
  // Consistency
  // ---------------------------------------------------------------------------------------

  /** No digit occurs twice in any row, column or block. */
  ghost predicate Consistent(g: Grid) {
    forall p :: InGrid(p) && Get(g, p) != Empty ==> Free(g, p, Get(g, p))
  }

  /** The points of `group` hold no digit twice. */
  predicate NoDuplicate(g: Grid, group: seq<Point>)
    requires forall q :: q in group ==> InGrid(q)
  {
    forall i, j :: 0 <= i < |group| && 0 <= j < |group| && i != j && Get(g, group[i]) != Empty ==>
      Get(g, group[i]) != Get(g, group[j])
  }

  /** The 27 peer groups have no duplicate digit. */
  ghost predicate NoDuplicateInGroups(g: Grid) {
    forall i :: 0 <= i < 9 ==>
      NoDuplicate(g, HorizontalLines()[i]) && NoDuplicate(g, VerticalLines()[i]) && NoDuplicate(g, Blocks()[i])
  }

  /** Two distinct members of a peer group see each other. */
  lemma {:induction false} GroupMembersSee(group: seq<Point>, a: int, b: int)
    requires |group| == 9 && 0 <= a < 9 && 0 <= b < 9 && a != b && Distinct(group)
    requires forall q :: q in group ==> InGrid(q)
    requires (forall q :: q in group ==> q.y == group[0].y) || (forall q :: q in group ==> q.x == group[0].x) ||
             (forall q :: q in group ==> SameBlock(q, group[0]))
    ensures Sees(group[a], group[b])
  {
    assert group[a] in group && group[b] in group && group[0] in group;
  }

  lemma ConsistentHasNoDuplicate(g: Grid)
    requires Consistent(g)
    ensures NoDuplicateInGroups(g)
  {
    var rows, cols, blocks := HorizontalLines(), VerticalLines(), Blocks();
    HorizontalLinesAreRows();
    VerticalLinesAreColumns();
    BlocksAreSquares();
    forall i | 0 <= i < 9
      ensures NoDuplicate(g, rows[i]) && NoDuplicate(g, cols[i]) && NoDuplicate(g, blocks[i])
    {
      forall a, b | 0 <= a < 9 && 0 <= b < 9 && a != b
        ensures Sees(rows[i][a], rows[i][b]) && Sees(cols[i][a], cols[i][b]) && Sees(blocks[i][a], blocks[i][b])
      {
        assert rows[i][0] in rows[i] && cols[i][0] in cols[i] && blocks[i][0] in blocks[i];
        GroupMembersSee(rows[i], a, b);
        GroupMembersSee(cols[i], a, b);
        GroupMembersSee(blocks[i], a, b);
      }
    }
  }

  /** Two points that see each other lie together in one of the 27 groups. */
  lemma {:induction false} PeersShareGroup(g: Grid, p: Point, q: Point)
    requires InGrid(p) && InGrid(q) && Sees(p, q) && Get(g, p) != Empty
    requires NoDuplicateInGroups(g)
    ensures Get(g, q) != Get(g, p)
  {
    if p.y == q.y {
      HorizontalLinesAreRows();
      GroupMembersDiffer(g, HorizontalLines()[p.y], p, q);
    } else if p.x == q.x {
      VerticalLinesAreColumns();
      GroupMembersDiffer(g, VerticalLines()[p.x], p, q);
    } else {
      BlocksAreSquares();
      GroupMembersDiffer(g, Blocks()[p.x / 3 * 3 + p.y / 3], p, q);
    }
  }

  /** Two different members of a group without duplicates do not hold the same digit. */
  lemma GroupMembersDiffer(g: Grid, group: seq<Point>, p: Point, q: Point)
    requires forall r :: r in group ==> InGrid(r)
    requires NoDuplicate(g, group) && p in group && q in group && p != q && Get(g, p) != Empty
    ensures Get(g, q) != Get(g, p)
  {
    var a :| 0 <= a < |group| && group[a] == p;
    var b :| 0 <= b < |group| && group[b] == q;
  }

  /** Consistency is the absence of duplicates in each of the 27 peer groups. */
  lemma ConsistentIffNoDuplicates(g: Grid)
    ensures Consistent(g) <==> NoDuplicateInGroups(g)
  {
    if Consistent(g) {
      ConsistentHasNoDuplicate(g);
    }
    if NoDuplicateInGroups(g) {
      forall p, q | InGrid(p) && InGrid(q) && Sees(p, q) && Get(g, p) != Empty ensures Get(g, q) != Get(g, p) {
        PeersShareGroup(g, p, q);
      }
    }
  }

  // ---------------------------------------------------------------------------------------
  // Hidden-single matching
  // ---------------------------------------------------------------------------------------

  /** Index `i` is the only one whose candidate list contains `value`. */
  predicate OnlyHolder(found: seq<seq<SudokuValue>>, value: SudokuValue, i: int) {
    0 <= i < |found| && value in found[i] &&
    forall j :: 0 <= j < |found| && j != i ==> value !in found[j]
  }

  /** The indices from `from` on whose candidate list contains `value`, in ascending order. */
  function Holders(found: seq<seq<SudokuValue>>, value: SudokuValue, from: nat): (r: seq<nat>)
    decreases |found| - from
    ensures forall i :: i in r <==> from <= i < |found| && value in found[i]
    ensures forall k :: 0 <= k < |r| ==> from <= r[k] < |found| && value in found[r[k]]
    ensures forall a, b :: 0 <= a < b < |r| ==> r[a] < r[b]
  {
    if from >= |found| then []
    else
      var rest := Holders(found, value, from + 1);
      (if value in found[from] then [from] else []) + rest
  }

  /** There is one holder exactly when exactly one index holds the value. */
  lemma SingleHolder(found: seq<seq<SudokuValue>>, value: SudokuValue)
    ensures |Holders(found, value, 0)| == 1 <==> exists i :: OnlyHolder(found, value, i)
    ensures forall i :: OnlyHolder(found, value, i) ==> Holders(found, value, 0) == [i]
  {
    var h := Holders(found, value, 0);
    if |h| == 1 {
      assert h[0] in h;
      assert OnlyHolder(found, value, h[0]);
    }
    forall i | OnlyHolder(found, value, i) ensures h == [i] {
      HoldersOfOnly(found, value, i, 0);
    }
  }

  lemma {:induction false} HoldersOfOnly(found: seq<seq<SudokuValue>>, value: SudokuValue, i: int, from: nat)
    requires OnlyHolder(found, value, i)
    decreases |found| - from
    ensures Holders(found, value, from) == if from <= i then [i] else []
  {
    if from < |found| {
      HoldersOfOnly(found, value, i, from + 1);
      if from == i {
        assert value in found[from];
      } else {
        assert value !in found[from];
      }
    }
  }

  lemma HolderPoints(points: seq<Point>, found: seq<seq<SudokuValue>>, value: SudokuValue, r: seq<Point>)
    requires |found| == |points|
    requires |r| == |Holders(found, value, 0)|
    requires forall k :: 0 <= k < |r| ==> r[k] == points[Holders(found, value, 0)[k]]
    ensures forall q :: q in r <==> exists i :: 0 <= i < |points| && points[i] == q && value in found[i]
  {
    var holders := Holders(found, value, 0);
    forall q | exists i :: 0 <= i < |points| && points[i] == q && value in found[i] ensures q in r {
      var i :| 0 <= i < |points| && points[i] == q && value in found[i];
      assert i in holders;
      var k :| 0 <= k < |holders| && holders[k] == i;
      assert r[k] == q;
    }
  }

  /**
   * get_points_that_can_be_value: the points whose candidate list (the entry of `found` at
   * the same index) contains `value`, in index order.
   */
  function GetPointsThatCanBeValue(points: seq<Point>, found: seq<seq<SudokuValue>>, value: SudokuValue): (r: seq<Point>)
    requires |found| == |points|
    ensures forall q :: q in r <==> exists i :: 0 <= i < |points| && points[i] == q && value in found[i]
    ensures |r| == 1 <==> exists i :: OnlyHolder(found, value, i)
    ensures forall i :: OnlyHolder(found, value, i) ==> r == [points[i]]
  {
    var holders := Holders(found, value, 0);
    SingleHolder(found, value);
    var r := seq(|holders|, k requires 0 <= k < |holders| => points[holders[k]]);
    HolderPoints(points, found, value, r);
    r
  }

  // ---------------------------------------------------------------------------------------
  // What every reduction step does to the board
  // ---------------------------------------------------------------------------------------

  /** The cell of `q` is as in `g`, or was Empty in `g` and now holds one of its candidates. */
  ghost predicate FillsAt(g: Grid, h: Grid, q: Point)
    requires InGrid(q)
  {
    Get(h, q) != Get(g, q) ==> Get(h, q) in Candidates(g, q)
  }

  /**
   * `h` is `g` with some of its Empty cells filled: every cell where the two differ was Empty
   * in `g` and holds in `h` a digit that was a candidate of that cell in `g`.
   */
  ghost predicate Fills(g: Grid, h: Grid) {
    forall q {:trigger FillsAt(g, h, q)} :: InGrid(q) ==> FillsAt(g, h, q)
  }

  /** Filling keeps every filled cell and never empties a cell. */
  lemma FillsKeepsDigits(g: Grid, h: Grid)
    requires Fills(g, h)
    ensures forall q :: InGrid(q) && Get(g, q) != Empty ==> Get(h, q) == Get(g, q)
    ensures forall q :: InGrid(q) && Get(h, q) == Empty ==> Get(g, q) == Empty
  {
    forall q | InGrid(q) ensures Get(h, q) != Get(g, q) ==> Get(g, q) == Empty && Get(h, q) != Empty {
      assert FillsAt(g, h, q);
    }
  }

  /** A digit free at a cell of a filled-in board was already free there before. */
  lemma FreeShrinks(g: Grid, h: Grid, p: Point, v: SudokuValue)
    requires Fills(g, h) && InGrid(p) && v != Empty
    requires Free(h, p, v)
    ensures Free(g, p, v)
  {
    FillsKeepsDigits(g, h);
  }

  /** Filling twice is filling. */
  lemma {:induction false} FillsTransitive(g: Grid, h: Grid, k: Grid)
    requires Fills(g, h) && Fills(h, k)
    ensures Fills(g, k)
  {
    forall q | InGrid(q) ensures FillsAt(g, k, q) {
      assert FillsAt(g, h, q) && FillsAt(h, k, q);
      if Get(k, q) != Get(h, q) && Get(k, q) != Get(g, q) {
        CandidatesAreFree(g, q);
        CandidatesAreFree(h, q);
        FreeShrinks(g, h, q, Get(k, q));
      }
    }
  }

  lemma {:induction false} CountEmptyShrinks(g: Grid, h: Grid, pts: seq<Point>)
    requires Fills(g, h)
    requires forall p :: p in pts ==> InGrid(p)
    ensures CountEmpty(h, pts) <= CountEmpty(g, pts)
    ensures CountEmpty(h, pts) == CountEmpty(g, pts) ==> forall p :: p in pts ==> Get(h, p) == Get(g, p)
  {
    FillsKeepsDigits(g, h);
    if pts != [] {
      CountEmptyShrinks(g, h, pts[1..]);
      assert forall p :: p in pts ==> p == pts[0] || p in pts[1..];
    }
  }

  /** Filling never adds Empty cells, and filling that keeps their number changes nothing. */
  lemma EmptyCountShrinks(g: Grid, h: Grid)
    requires Fills(g, h)
    ensures EmptyCount(h) <= EmptyCount(g)
    ensures EmptyCount(h) == EmptyCount(g) ==> h == g
  {
    AllPointsInOrder();
    CountEmptyShrinks(g, h, AllPoints());
    if EmptyCount(h) == EmptyCount(g) {
      GridsEqual(h, g);
    }
  }

  /** Placing a digit that no peer holds keeps a consistent board consistent. */
  lemma {:induction false} AssignFreeKeepsConsistent(g: Grid, p: Point, v: SudokuValue)
    requires InGrid(p) && Consistent(g) && v != Empty && Free(g, p, v)
    ensures Consistent(Assigned(g, p, v))
  {
    var h := Assigned(g, p, v);
    forall q | InGrid(q) && Get(h, q) != Empty ensures Free(h, q, Get(h, q)) {
      forall s | InGrid(s) && Sees(q, s) ensures Get(h, s) != Get(h, q) {
        if q == p {
          assert Get(h, s) == Get(g, s);
        } else if s == p {
          assert Sees(p, q);
        } else {
          assert Free(g, q, Get(g, q));
        }
      }
    }
  }
}
