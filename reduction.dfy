/**
 * What each in-place reduction step of the solver does to the board, written as functions
 * of the board value. The mutating methods of the state class are proved equal to these,
 * and the properties of the solver (givens kept, consistency kept, termination, fixpoint on
 * success, a stuck cell on failure) are proved here about the functions.
 */
module Reductions {
  import opened SudokuValues
  import opened Points
  import opened Grids

  /**
   * The outcome of a step together with the board the step leaves behind. A Contradiction
   * stops the step where it is, so its board is the partly reduced one.
   */
  datatype Reduction = Reduced(grid: Grid) | Contradiction(grid: Grid)

  /** The cell of `p` is Empty and no digit is free there. */
  ghost predicate Stuck(g: Grid, p: Point)
    requires InGrid(p)
  {
    Get(g, p) == Empty && forall v :: v != Empty ==> !Free(g, p, v)
  }

  /** The cell of `p` is Empty and `v` is the one digit free there. */
  ghost predicate Forced(g: Grid, p: Point, v: SudokuValue)
    requires InGrid(p)
  {
    Get(g, p) == Empty && v != Empty && Free(g, p, v) &&
    forall w :: w != Empty && Free(g, p, w) ==> w == v
  }

  // ---------------------------------------------------------------------------------------
  // Naked singles
  // ---------------------------------------------------------------------------------------

  /**
   * reduce_at_point: an Empty cell with one candidate gets it, an Empty cell with none is a
   * contradiction, anything else is left alone.
   */
  function ReducedAtPoint(g: Grid, p: Point): (r: Reduction)
    requires InGrid(p)
    ensures r.Contradiction? ==> r.grid == g
  {
    if Get(g, p) != Empty then Reduced(g)
    else
      var values := Candidates(g, p);
      if |values| == 1 then
        assert values[0] in values;
        Reduced(Assigned(g, p, values[0]))
      else if |values| == 0 then Contradiction(g)
      else Reduced(g)
  }

  lemma AscendingFirstTwo(s: seq<SudokuValue>)
    requires Ascending(s)
    ensures |s| >= 2 ==> s[0] in s && s[1] in s && s[0] != s[1]
  {
  }

  /** An ascending list whose only member is `v` is [v]. */
  lemma AscendingSingleton(s: seq<SudokuValue>, v: SudokuValue)
    requires Ascending(s) && v in s
    requires forall w :: w in s ==> w == v
    ensures s == [v]
  {
    AscendingFirstTwo(s);
  }

  /** The three outcomes of the naked-single rule at one point. */
  lemma ReducedAtPointOutcomes(g: Grid, p: Point)
    requires InGrid(p)
    ensures ReducedAtPoint(g, p).Contradiction? <==> Stuck(g, p)
    ensures forall v :: Forced(g, p, v) ==> ReducedAtPoint(g, p) == Reduced(Assigned(g, p, v))
    ensures !Stuck(g, p) && (forall v :: !Forced(g, p, v)) ==> ReducedAtPoint(g, p) == Reduced(g)
  {
    var values := Candidates(g, p);
    CandidatesAreFree(g, p);
    if Get(g, p) == Empty {
      if values != [] {
        assert values[0] in values;
      }
      forall v | Forced(g, p, v) ensures values == [v] {
        AscendingSingleton(values, v);
      }
      if |values| == 1 {
        assert values[0] in values;
        assert Forced(g, p, values[0]);
      }
    }
  }

  /**
   * The naked-single rule only fills an Empty cell with one of its candidates, and placing a
   * naked single keeps a consistent board consistent.
   */
  lemma ReducedAtPointSound(g: Grid, p: Point)
    requires InGrid(p)
    ensures Fills(g, ReducedAtPoint(g, p).grid)
    ensures Consistent(g) ==> Consistent(ReducedAtPoint(g, p).grid)
  {
    if Get(g, p) == Empty && |Candidates(g, p)| == 1 {
      var v := Candidates(g, p)[0];
      assert v in Candidates(g, p);
      HiddenSingleStep(g, g, p, v);
    }
  }

  /**
   * The naked-single rule applied at each point of `pts` from index `from` on, each on the
   * board the previous one left; the first contradiction stops the walk.
   */
  function NakedSingles(g: Grid, pts: seq<Point>, from: nat): (r: Reduction)
    requires forall p :: p in pts ==> InGrid(p)
    requires from <= |pts|
    decreases |pts| - from
  {
    if from == |pts| then Reduced(g)
    else
      assert pts[from] in pts;
      match ReducedAtPoint(g, pts[from])
      case Contradiction(h) => Contradiction(h)
      case Reduced(h) => NakedSingles(h, pts, from + 1)
  }

  /** The walk only fills cells, and keeps a consistent board consistent. */
  lemma {:induction false} NakedSinglesSound(g: Grid, pts: seq<Point>, from: nat)
    requires forall p :: p in pts ==> InGrid(p)
    requires from <= |pts|
    ensures Fills(g, NakedSingles(g, pts, from).grid)
    ensures Consistent(g) ==> Consistent(NakedSingles(g, pts, from).grid)
    decreases |pts| - from
  {
    if from < |pts| {
      assert pts[from] in pts;
      ReducedAtPointSound(g, pts[from]);
      var h := ReducedAtPoint(g, pts[from]).grid;
      if ReducedAtPoint(g, pts[from]).Reduced? {
        NakedSinglesSound(h, pts, from + 1);
        FillsTransitive(g, h, NakedSingles(h, pts, from + 1).grid);
      }
    }
  }

  /** A contradiction from the walk names a point of `pts` that is stuck on the board left. */
  lemma {:induction false} NakedSinglesContradiction(g: Grid, pts: seq<Point>, from: nat)
    requires forall p :: p in pts ==> InGrid(p)
    requires from <= |pts|
    ensures NakedSingles(g, pts, from).Contradiction? ==>
      exists p :: p in pts && Stuck(NakedSingles(g, pts, from).grid, p)
    decreases |pts| - from
  {
    if from < |pts| {
      assert pts[from] in pts;
      ReducedAtPointOutcomes(g, pts[from]);
      if ReducedAtPoint(g, pts[from]).Reduced? {
        NakedSinglesContradiction(ReducedAtPoint(g, pts[from]).grid, pts, from + 1);
      }
    }
  }

  // ---------------------------------------------------------------------------------------
  // Hidden singles
  // ---------------------------------------------------------------------------------------

  /** The candidate lists of `points`, all read from the one board `g`. */
  function Snapshot(g: Grid, points: seq<Point>): (r: seq<seq<SudokuValue>>)
    requires forall p :: p in points ==> InGrid(p)
    ensures |r| == |points|
    ensures forall i :: 0 <= i < |points| ==> r[i] == Candidates(g, points[i])
  {
    SnapshotPrefix(g, points, |points|)
  }

  /** The candidate lists of the first `n` of `points`, read from `g`. */
  function SnapshotPrefix(g: Grid, points: seq<Point>, n: nat): (r: seq<seq<SudokuValue>>)
    requires forall p :: p in points ==> InGrid(p)
    requires n <= |points|
    ensures |r| == n
    ensures forall i :: 0 <= i < n ==> r[i] == Candidates(g, points[i])
  {
    if n == 0 then [] else SnapshotPrefix(g, points, n - 1) + [Candidates(g, points[n - 1])]
  }

  /**
   * For each digit in ascending order, from the digit with index `from` of AllValues() on:
   * when exactly one entry of the snapshot `found` lists the digit, its point is set to the
   * digit on the running board `h`. The snapshot is not refreshed, and a point set for one
   * digit may be set again for a later one.
   */
  function HiddenSingles(h: Grid, points: seq<Point>, found: seq<seq<SudokuValue>>, from: nat): Grid
    requires |found| == |points| && from <= 9
    requires forall p :: p in points ==> InGrid(p)
    decreases 9 - from
  {
    if from == 9 then h
    else
      var v := AllValues()[from];
      var matching := GetPointsThatCanBeValue(points, found, v);
      assert |matching| == 1 ==> matching[0] in matching;
      var next := if |matching| == 1 then Assigned(h, matching[0], v) else h;
      HiddenSingles(next, points, found, from + 1)
  }

  /** Every point the matching returns is a point of the group with `v` among its candidates. */
  lemma MatchingCandidates(g: Grid, points: seq<Point>, v: SudokuValue)
    requires forall p :: p in points ==> InGrid(p)
    ensures forall p :: p in GetPointsThatCanBeValue(points, Snapshot(g, points), v) ==>
      p in points && v in Candidates(g, p)
  {
    var found := Snapshot(g, points);
    forall p | p in GetPointsThatCanBeValue(points, found, v) ensures p in points && v in Candidates(g, p) {
      var i :| 0 <= i < |points| && points[i] == p && v in found[i];
    }
  }

  /** One hidden-single placement of a candidate of `g` that no changed cell holds yet. */
  lemma HiddenSingleStep(g: Grid, h: Grid, p: Point, v: SudokuValue)
    requires InGrid(p) && Fills(g, h) && v in Candidates(g, p)
    requires forall q :: InGrid(q) && Get(h, q) != Get(g, q) ==> Get(h, q) != v
    ensures Fills(g, Assigned(h, p, v))
    ensures Consistent(h) ==> Consistent(Assigned(h, p, v))
  {
    var next := Assigned(h, p, v);
    forall q | InGrid(q) ensures FillsAt(g, next, q) {
      assert FillsAt(g, h, q);
    }
    if Consistent(h) {
      CandidatesAreFree(g, p);
      forall s | InGrid(s) && Sees(p, s) ensures Get(h, s) != v {
        assert Free(g, p, v);
      }
      AssignFreeKeepsConsistent(h, p, v);
    }
  }

  /**
   * The hidden-single walk over a snapshot of `g` only fills cells of `g`; and when every
   * cell it has changed so far holds a digit that comes before the digits still to come, it
   * keeps a consistent board consistent.
   */
  lemma {:induction false} HiddenSinglesSound(g: Grid, h: Grid, points: seq<Point>, from: nat)
    requires forall p :: p in points ==> InGrid(p)
    requires Fills(g, h) && from <= 9
    requires forall q :: InGrid(q) && Get(h, q) != Get(g, q) ==> Ordinal(Get(h, q)) <= from
    decreases 9 - from
    ensures Fills(g, HiddenSingles(h, points, Snapshot(g, points), from))
    ensures Consistent(h) ==> Consistent(HiddenSingles(h, points, Snapshot(g, points), from))
  {
    if from < 9 {
      var v := AllValues()[from];
      var matching := GetPointsThatCanBeValue(points, Snapshot(g, points), v);
      var next := h;
      if |matching| == 1 {
        MatchingCandidates(g, points, v);
        assert matching[0] in matching;
        HiddenSingleStep(g, h, matching[0], v);
        next := Assigned(h, matching[0], v);
      }
      HiddenSinglesSound(g, next, points, from + 1);
    }
  }

  /** When no digit from index `from` on has a single holder in `found`, the rest of the walk sets nothing. */
  lemma {:induction false} HiddenSinglesNone(h: Grid, points: seq<Point>, found: seq<seq<SudokuValue>>, from: nat)
    requires |found| == |points| && from <= 9
    requires forall p :: p in points ==> InGrid(p)
    requires forall k, i :: from <= k < 9 ==> !OnlyHolder(found, AllValues()[k], i)
    ensures HiddenSingles(h, points, found, from) == h
    decreases 9 - from
  {
    if from < 9 {
      HiddenSinglesNone(h, points, found, from + 1);
    }
  }

  /**
   * The candidate lists are not read again and setting a cell does not check that it is
   * Empty: a point that is the only holder of both One and Two is set to One and then
   * overwritten with Two.
   */
  lemma HiddenSinglesOverwrite(h: Grid, points: seq<Point>, found: seq<seq<SudokuValue>>)
    requires |points| == 9 && forall p :: p in points ==> InGrid(p)
    requires |found| == 9 && found[0] == [One, Two] && forall i :: 1 <= i < 9 ==> found[i] == []
    ensures points[0] in points
    ensures HiddenSingles(h, points, found, 0) == Assigned(Assigned(h, points[0], One), points[0], Two)
    ensures Get(HiddenSingles(h, points, found, 0), points[0]) == Two
  {
    assert points[0] in points;
    assert OnlyHolder(found, One, 0) && OnlyHolder(found, Two, 0);
    var h2 := Assigned(Assigned(h, points[0], One), points[0], Two);
    forall k, i | 2 <= k < 9 ensures !OnlyHolder(found, AllValues()[k], i) {
      assert AllValues()[k] !in found[0];
    }
    HiddenSinglesNone(h2, points, found, 2);
  }

  /** A point that is the only holder of none of the digits from index `from` on keeps its value. */
  lemma {:induction false} HiddenSinglesKeeps(h: Grid, points: seq<Point>, found: seq<seq<SudokuValue>>, from: nat, q: Point)
    requires |found| == |points| && from <= 9
    requires forall p :: p in points ==> InGrid(p)
    requires InGrid(q)
    requires forall k, i :: from <= k < 9 && OnlyHolder(found, AllValues()[k], i) ==> points[i] != q
    ensures Get(HiddenSingles(h, points, found, from), q) == Get(h, q)
    decreases 9 - from
  {
    if from < 9 {
      var v := AllValues()[from];
      var next := h;
      if |GetPointsThatCanBeValue(points, found, v)| == 1 {
        var i :| OnlyHolder(found, v, i);
        assert points[i] in points;
        next := Assigned(h, points[i], v);
      }
      HiddenSinglesKeeps(next, points, found, from + 1, q);
    }
  }

  /**
   * The digit with index `k` whose only holder is entry `i` ends up at point `i`, unless a
   * later digit has the same only holder and overwrites it.
   */
  lemma {:induction false} HiddenSinglesPlaces(h: Grid, points: seq<Point>, found: seq<seq<SudokuValue>>, from: nat, k: nat, i: nat)
    requires |found| == |points| && from <= k < 9
    requires forall p :: p in points ==> InGrid(p)
    requires Distinct(points)
    requires OnlyHolder(found, AllValues()[k], i)
    requires forall k' :: k < k' < 9 ==> !OnlyHolder(found, AllValues()[k'], i)
    ensures Get(HiddenSingles(h, points, found, from), points[i]) == AllValues()[k]
    decreases 9 - from
  {
    var v := AllValues()[from];
    assert points[i] in points;
    if from < k {
      var next := h;
      if |GetPointsThatCanBeValue(points, found, v)| == 1 {
        var j :| OnlyHolder(found, v, j);
        assert points[j] in points;
        next := Assigned(h, points[j], v);
      }
      HiddenSinglesPlaces(next, points, found, from + 1, k, i);
    } else {
      var next := Assigned(h, points[i], v);
      forall k', j | from + 1 <= k' < 9 && OnlyHolder(found, AllValues()[k'], j) ensures points[j] != points[i] {
        if j < i {
          assert points[j] != points[i];
        } else if i < j {
          assert points[i] != points[j];
        }
      }
      HiddenSinglesKeeps(next, points, found, from + 1, points[i]);
    }
  }

  /** `v` is a candidate of point `i` of the group on `g`, and of no other point of it. */
  predicate OnlyCandidateAt(g: Grid, points: seq<Point>, v: SudokuValue, i: int)
    requires forall p :: p in points ==> InGrid(p)
  {
    0 <= i < |points| && v in Candidates(g, points[i]) &&
    forall j :: 0 <= j < |points| && j != i ==> v !in Candidates(g, points[j])
  }

  /**
   * The hidden-single rule places a digit that only one point of the group can take at that
   * point, unless a later digit can also be taken only there.
   */
  lemma RuledPointsPlaces(g: Grid, points: seq<Point>, k: nat, i: nat)
    requires forall p :: p in points ==> InGrid(p)
    requires Distinct(points) && k < 9
    requires OnlyCandidateAt(g, points, AllValues()[k], i)
    requires forall k' :: k < k' < 9 ==> !OnlyCandidateAt(g, points, AllValues()[k'], i)
    ensures Get(RuledPointsReduced(g, points), points[i]) == AllValues()[k]
  {
    var found := Snapshot(g, points);
    assert OnlyHolder(found, AllValues()[k], i);
    forall k' | k < k' < 9 ensures !OnlyHolder(found, AllValues()[k'], i) {
      assert !OnlyCandidateAt(g, points, AllValues()[k'], i);
    }
    HiddenSinglesPlaces(g, points, found, 0, k, i);
  }

  /** A point that is no digit's only candidate point in the group keeps its value. */
  lemma RuledPointsKeeps(g: Grid, points: seq<Point>, q: Point)
    requires forall p :: p in points ==> InGrid(p)
    requires InGrid(q)
    requires forall k, i :: 0 <= k < 9 && OnlyCandidateAt(g, points, AllValues()[k], i) ==> points[i] != q
    ensures Get(RuledPointsReduced(g, points), q) == Get(g, q)
  {
    var found := Snapshot(g, points);
    forall k, i | 0 <= k < 9 && OnlyHolder(found, AllValues()[k], i) ensures points[i] != q {
      assert OnlyCandidateAt(g, points, AllValues()[k], i);
    }
    HiddenSinglesKeeps(g, points, found, 0, q);
  }

  /**
   * reduce_ruled_points: the hidden-single rule over one group, every digit in ascending
   * order against the candidate lists read once at the start.
   */
  function RuledPointsReduced(g: Grid, points: seq<Point>): Grid
    requires forall p :: p in points ==> InGrid(p)
  {
    HiddenSingles(g, points, Snapshot(g, points), 0)
  }

  /** The hidden-single rule over one group only fills cells, and keeps consistency. */
  lemma RuledPointsSound(g: Grid, points: seq<Point>)
    requires forall p :: p in points ==> InGrid(p)
    ensures Fills(g, RuledPointsReduced(g, points))
    ensures Consistent(g) ==> Consistent(RuledPointsReduced(g, points))
  {
    HiddenSinglesSound(g, g, points, 0);
  }

  /**
   * The hidden-single rule over each group in turn from index `from` on (reduce_horizontal_lines
   * and friends).
   */
  function GroupsReduced(g: Grid, groups: seq<seq<Point>>, from: nat): (r: Grid)
    requires forall k, p :: 0 <= k < |groups| && p in groups[k] ==> InGrid(p)
    requires from <= |groups|
    decreases |groups| - from
  {
    if from == |groups| then g
    else GroupsReduced(RuledPointsReduced(g, groups[from]), groups, from + 1)
  }

  /** The walk over the groups only fills cells, and keeps consistency. */
  lemma {:induction false} GroupsSound(g: Grid, groups: seq<seq<Point>>, from: nat)
    requires forall k, p :: 0 <= k < |groups| && p in groups[k] ==> InGrid(p)
    requires from <= |groups|
    ensures Fills(g, GroupsReduced(g, groups, from))
    ensures Consistent(g) ==> Consistent(GroupsReduced(g, groups, from))
    decreases |groups| - from
  {
    if from < |groups| {
      var h := RuledPointsReduced(g, groups[from]);
      RuledPointsSound(g, groups[from]);
      GroupsSound(h, groups, from + 1);
      FillsTransitive(g, h, GroupsReduced(h, groups, from + 1));
    }
  }

  // ---------------------------------------------------------------------------------------
  // Passes and the whole solver
  // ---------------------------------------------------------------------------------------

  /** The hidden-single rule over the rows, then the columns, then the blocks. */
  function AllGroupsReduced(g: Grid): Grid {
    var rows := GroupsReduced(g, HorizontalLines(), 0);
    var columns := GroupsReduced(rows, VerticalLines(), 0);
    GroupsReduced(columns, Blocks(), 0)
  }

  /** reduce_once: naked singles at all 81 points, then hidden singles in every group. */
  function ReducedOnce(g: Grid): Reduction {
    match NakedSingles(g, AllPoints(), 0)
    case Contradiction(h) => Contradiction(h)
    case Reduced(h) => Reduced(AllGroupsReduced(h))
  }

  /** A pass only fills cells of the board, and keeps a consistent board consistent. */
  lemma ReducedOnceSound(g: Grid)
    ensures Fills(g, ReducedOnce(g).grid)
    ensures Consistent(g) ==> Consistent(ReducedOnce(g).grid)
  {
    NakedSinglesSound(g, AllPoints(), 0);
    var h := NakedSingles(g, AllPoints(), 0).grid;
    if NakedSingles(g, AllPoints(), 0).Reduced? {
      AllGroupsSound(h);
      FillsTransitive(g, h, AllGroupsReduced(h));
    }
  }

  /** The rows, columns and blocks in turn only fill cells, and keep consistency. */
  lemma AllGroupsSound(h: Grid)
    ensures Fills(h, AllGroupsReduced(h))
    ensures Consistent(h) ==> Consistent(AllGroupsReduced(h))
  {
    var rows := GroupsReduced(h, HorizontalLines(), 0);
    var columns := GroupsReduced(rows, VerticalLines(), 0);
    GroupsSound(h, HorizontalLines(), 0);
    GroupsSound(rows, VerticalLines(), 0);
    GroupsSound(columns, Blocks(), 0);
    FillsTransitive(h, rows, columns);
    FillsTransitive(h, columns, AllGroupsReduced(h));
  }

  /** A pass fails only on a cell that is stuck on the board it leaves. */
  lemma ReducedOnceContradiction(g: Grid)
    ensures ReducedOnce(g).Contradiction? ==> exists p :: InGrid(p) && Stuck(ReducedOnce(g).grid, p)
  {
    NakedSinglesContradiction(g, AllPoints(), 0);
  }

  /**
   * reduce_while_you_can: passes are repeated until one leaves the number of Empty cells as
   * it was; a contradiction ends the loop. Termination: a pass only fills cells, so the
   * count can only fall, and it is at most 81.
   */
  function ReducedFully(g: Grid): Reduction
    decreases EmptyCount(g)
  {
    match ReducedOnce(g)
    case Contradiction(h) => Contradiction(h)
    case Reduced(h) =>
      ReducedOnceSound(g);
      EmptyCountShrinks(g, h);
      if EmptyCount(h) == EmptyCount(g) then Reduced(h) else ReducedFully(h)
  }

  /** The solver only fills cells of the board, and keeps a consistent board consistent. */
  lemma {:induction false} ReducedFullySound(g: Grid)
    ensures Fills(g, ReducedFully(g).grid)
    ensures Consistent(g) ==> Consistent(ReducedFully(g).grid)
    decreases EmptyCount(g)
  {
    ReducedOnceSound(g);
    if ReducedOnce(g).Reduced? {
      var h := ReducedOnce(g).grid;
      EmptyCountShrinks(g, h);
      if EmptyCount(h) != EmptyCount(g) {
        ReducedFullySound(h);
        FillsTransitive(g, h, ReducedFully(h).grid);
      }
    }
  }

  /** Every digit of the input is still in place in the board the solver leaves. */
  lemma ReducedFullyKeepsGivens(g: Grid)
    ensures forall p :: InGrid(p) && Get(g, p) != Empty ==> Get(ReducedFully(g).grid, p) == Get(g, p)
  {
    ReducedFullySound(g);
    FillsKeepsDigits(g, ReducedFully(g).grid);
  }

  /** On success the last pass changed nothing: the board is a fixpoint of a pass. */
  lemma {:induction false} ReducedFullyIsFixpoint(g: Grid)
    ensures ReducedFully(g).Reduced? ==> ReducedOnce(ReducedFully(g).grid) == ReducedFully(g)
    decreases EmptyCount(g)
  {
    if ReducedOnce(g).Reduced? {
      var h := ReducedOnce(g).grid;
      ReducedOnceSound(g);
      EmptyCountShrinks(g, h);
      if EmptyCount(h) != EmptyCount(g) {
        ReducedFullyIsFixpoint(h);
      }
    }
  }

  /** On failure some cell is Empty with no free digit on the board left behind. */
  lemma {:induction false} ReducedFullyContradiction(g: Grid)
    ensures ReducedFully(g).Contradiction? ==> exists p :: InGrid(p) && Stuck(ReducedFully(g).grid, p)
    decreases EmptyCount(g)
  {
    ReducedOnceContradiction(g);
    if ReducedOnce(g).Reduced? {
      var h := ReducedOnce(g).grid;
      ReducedOnceSound(g);
      EmptyCountShrinks(g, h);
      if EmptyCount(h) != EmptyCount(g) {
        ReducedFullyContradiction(h);
      }
    }
  }

  /**
   * A board without Empty cells comes back unchanged, and without error, whether or not its
   * digits are consistent: the solver never rejects duplicate digits.
   */
  lemma CompleteIsFixpoint(g: Grid)
    requires EmptyCount(g) == 0
    ensures ReducedOnce(g) == Reduced(g)
    ensures ReducedFully(g) == Reduced(g)
  {
    var r := ReducedOnce(g);
    ReducedOnceContradiction(g);
    ReducedOnceSound(g);
    EmptyCountShrinks(g, r.grid);
    FillsKeepsDigits(g, r.grid);
    GridsEqual(g, r.grid);
  }

  /** The board of nine Ones in every cell. */
  function AllOnes(): (g: Grid)
    ensures forall p :: InGrid(p) ==> Get(g, p) == One
  {
    seq(9, _ => seq(9, _ => One))
  }

  /** A board full of duplicate digits is not rejected. */
  lemma AllOnesAccepted()
    ensures !Consistent(AllOnes())
    ensures ReducedFully(AllOnes()) == Reduced(AllOnes())
  {
    var g := AllOnes();
    assert Sees(Point(0, 0), Point(1, 0));
    CompleteIsFixpoint(g);
  }

  /** The board with every cell Empty. */
  function AllEmpty(): (g: Grid)
    ensures forall p :: InGrid(p) ==> Get(g, p) == Empty
  {
    seq(9, _ => seq(9, _ => Empty))
  }

  /** On the all-Empty board every digit is a candidate at every point. */
  lemma AllEmptyCandidates(p: Point)
    requires InGrid(p)
    ensures forall v :: v != Empty ==> v in Candidates(AllEmpty(), p)
  {
    CandidatesAreFree(AllEmpty(), p);
  }

  /** When no step of the walk changes `g`, the walk gives `g` back without error. */
  lemma {:induction false} NakedSinglesUnchanged(g: Grid, pts: seq<Point>, from: nat)
    requires forall p :: p in pts ==> InGrid(p) && ReducedAtPoint(g, p) == Reduced(g)
    requires from <= |pts|
    ensures NakedSingles(g, pts, from) == Reduced(g)
    decreases |pts| - from
  {
    if from < |pts| {
      assert pts[from] in pts;
      NakedSinglesUnchanged(g, pts, from + 1);
    }
  }

  /** When every point of a group of at least two can take every digit, no hidden single is set. */
  lemma RuledPointsUnchanged(g: Grid, points: seq<Point>)
    requires |points| >= 2
    requires forall p :: p in points ==> InGrid(p) && forall v :: v != Empty ==> v in Candidates(g, p)
    ensures RuledPointsReduced(g, points) == g
  {
    var found := Snapshot(g, points);
    forall k, i | 0 <= k < 9 ensures !OnlyHolder(found, AllValues()[k], i) {
      var v := AllValues()[k];
      var j := if i == 0 then 1 else 0;
      assert points[j] in points;
      assert v in found[j];
    }
    HiddenSinglesNone(g, points, found, 0);
  }

  /** When no group changes `g`, the groups reduced in turn give `g` back. */
  lemma {:induction false} GroupsUnchanged(g: Grid, groups: seq<seq<Point>>, from: nat)
    requires forall k, p :: 0 <= k < |groups| && p in groups[k] ==> InGrid(p)
    requires forall k :: 0 <= k < |groups| ==> RuledPointsReduced(g, groups[k]) == g
    requires from <= |groups|
    ensures GroupsReduced(g, groups, from) == g
    decreases |groups| - from
  {
    if from < |groups| {
      GroupsUnchanged(g, groups, from + 1);
    }
  }

  /** No row, column or block of the all-Empty board sets anything. */
  lemma AllEmptyGroupsUnchanged(groups: seq<seq<Point>>)
    requires forall k :: 0 <= k < |groups| ==> |groups[k]| == 9
    requires forall k, p :: 0 <= k < |groups| && p in groups[k] ==> InGrid(p)
    ensures GroupsReduced(AllEmpty(), groups, 0) == AllEmpty()
  {
    forall k | 0 <= k < |groups| ensures RuledPointsReduced(AllEmpty(), groups[k]) == AllEmpty() {
      forall p | p in groups[k] ensures forall v :: v != Empty ==> v in Candidates(AllEmpty(), p) {
        AllEmptyCandidates(p);
      }
      RuledPointsUnchanged(AllEmpty(), groups[k]);
    }
    GroupsUnchanged(AllEmpty(), groups, 0);
  }

  /** All 81 cells of the all-Empty board are Empty. */
  lemma AllEmptyCount()
    ensures EmptyCount(AllEmpty()) == 81
  {
    AllPointsInOrder();
    CountEmptyAll(AllEmpty(), AllPoints());
  }

  /** No naked single fires on the all-Empty board: every cell has nine candidates. */
  lemma AllEmptyNakedUnchanged()
    ensures NakedSingles(AllEmpty(), AllPoints(), 0) == Reduced(AllEmpty())
  {
    var g := AllEmpty();
    AllPointsInOrder();
    forall p | InGrid(p) ensures ReducedAtPoint(g, p) == Reduced(g) {
      AllEmptyCandidates(p);
      assert One in Candidates(g, p) && Two in Candidates(g, p);
    }
    NakedSinglesUnchanged(g, AllPoints(), 0);
  }

  /**
   * The solver does not search: on the board with all 81 cells Empty no rule fires, and it
   * comes back Ok and unchanged, every cell still Empty.
   */
  lemma AllEmptyAccepted()
    ensures EmptyCount(AllEmpty()) == 81
    ensures ReducedOnce(AllEmpty()) == Reduced(AllEmpty())
    ensures ReducedFully(AllEmpty()) == Reduced(AllEmpty())
  {
    AllEmptyCount();
    AllEmptyOnce();
  }

  /** One pass over the all-Empty board sets nothing and reports no error. */
  lemma AllEmptyOnce()
    ensures ReducedOnce(AllEmpty()) == Reduced(AllEmpty())
  {
    AllEmptyNakedUnchanged();
    AllEmptyAllGroupsUnchanged();
  }

  /** Rows, then columns, then blocks of the all-Empty board set nothing. */
  lemma AllEmptyAllGroupsUnchanged()
    ensures AllGroupsReduced(AllEmpty()) == AllEmpty()
  {
    AllEmptyGroupsUnchanged(HorizontalLines());
    AllEmptyGroupsUnchanged(VerticalLines());
    AllEmptyGroupsUnchanged(Blocks());
  }
}
