/**
 * The solver state: a 9x9 array of cell values, updated in place by the reduction steps.
 * Every mutating method is proved to leave the array holding the board the matching function
 * of the Reductions module computes from the board it started with; the read-only queries
 * (get, empty_count, the matching points, get_points_that_can_be_value) are the functions of
 * the Grids module applied to `Cells()`.
 */
module SudokuStates {
  import opened SudokuValues
  import opened Points
  import opened Grids
  import opened Reductions
  import opened Rendering
  import opened SudokuParser

  /** The error of a failed reduction; it carries no data. */
  datatype SudokuError = SudokuError

  datatype Result<T> = Ok(value: T) | Err(error: SudokuError)

  class SudokuState {
    /** values[y, x] is the cell of Point(x, y). */
    var values: array2<SudokuValue>

    predicate Valid()
      reads this
    {
      values.Length0 == 9 && values.Length1 == 9
    }

    /** The board the array holds. */
    function Cells(): (g: Grid)
      reads this, values
      requires Valid()
    {
      seq(9, y requires 0 <= y < 9 && Valid() reads this, values =>
        seq(9, x requires 0 <= x < 9 && Valid() reads this, values => values[y, x]))
    }

    /**
     * new: the state of a board read from its text. `new` unwraps the parse result, so a
     * text that does not parse panics; here the precondition excludes that case.
     */
    static method New(input: string) returns (state: SudokuState)
      requires Parse(input).Some?
      ensures fresh(state) && fresh(state.values) && state.Valid()
      ensures state.Cells() == Parse(input).value
    {
      state := new SudokuState.FromGrid(Parse(input).value);
    }

    /**
     * A state holding the board `g` in a fresh array: the state the grammar's action builds
     * from the rows it read, and the derived clone.
     */
    constructor FromGrid(g: Grid)
      ensures Valid() && fresh(values)
      ensures Cells() == g
    {
      values := new SudokuValue[9, 9]((y, x) requires 0 <= y < 9 && 0 <= x < 9 => g[y][x]);
      new;
      GridsEqual(Cells(), g);
    }

    /** set: the cell of `p` becomes `v`, every other cell is kept. */
    method Set(p: Point, v: SudokuValue)
      requires Valid() && InGrid(p)
      modifies values
      ensures Cells() == Assigned(old(Cells()), p, v)
    {
      ghost var before := Cells();
      values[p.y, p.x] := v;
      GridsEqual(Cells(), Assigned(before, p, v));
    }

    /**
     * find_values_at_point: nothing for a filled cell; otherwise each digit, in ascending
     * order, that is in none of the row, column and block of `p`.
     */
    method FindValuesAtPoint(p: Point) returns (r: seq<SudokuValue>)
      requires Valid() && InGrid(p)
      ensures r == Candidates(Cells(), p)
    {
      if Get(Cells(), p) != Empty {
        return [];
      }
      var horizontal := FindHorizontalMatchingPoint(Cells(), p);
      var vertical := FindVerticalMatchingPoint(Cells(), p);
      var block := FindBlockMatchingPoint(Cells(), p);
      ghost var g := Cells();
      var all := AllValues();
      r := [];
      for k := 0 to 9
        invariant Cells() == g
        invariant r == Absent(all[..k], horizontal, vertical, block)
      {
        assert all[..k + 1][..k] == all[..k];
        if !(all[k] in horizontal || all[k] in vertical || all[k] in block) {
          r := r + [all[k]];
        }
      }
      assert all[..9] == all;
    }

    /**
     * reduce_at_point: an Empty cell with exactly one candidate gets it, an Empty cell with
     * none is an error (the array is left as it was), anything else is left alone.
     */
    method ReduceAtPoint(p: Point) returns (r: Result<()>)
      requires Valid() && InGrid(p)
      modifies values
      ensures r.Ok? <==> ReducedAtPoint(old(Cells()), p).Reduced?
      ensures Cells() == ReducedAtPoint(old(Cells()), p).grid
    {
      if Get(Cells(), p) == Empty {
        var found := FindValuesAtPoint(p);
        if |found| == 1 {
          Set(p, found[0]);
        } else if |found| == 0 {
          return Err(SudokuError);
        }
      }
      return Ok(());
    }

    /** The first statement of reduce_ruled_points: find_values_at_point mapped over `points`. */
    method FindValuesAtPoints(points: seq<Point>) returns (found: seq<seq<SudokuValue>>)
      requires Valid() && |points| == 9
      requires forall p :: p in points ==> InGrid(p)
      ensures found == Snapshot(Cells(), points)
    {
      ghost var g := Cells();
      found := [];
      for k := 0 to 9
        invariant Cells() == g
        invariant found == SnapshotPrefix(g, points, k)
      {
        var candidates := FindValuesAtPoint(points[k]);
        found := found + [candidates];
      }
    }

    /**
     * reduce_ruled_points: the candidate lists of the nine points are read once; then, for
     * each digit in ascending order, a digit listed at exactly one point is set there.
     */
    method ReduceRuledPoints(points: seq<Point>)
      requires Valid() && |points| == 9
      requires forall p :: p in points ==> InGrid(p)
      modifies values
      ensures Cells() == RuledPointsReduced(old(Cells()), points)
    {
      var found := FindValuesAtPoints(points);
      SetHiddenSingles(points, found);
    }

    /**
     * The loop of reduce_ruled_points: each digit in ascending order, set at its point when
     * exactly one entry of the lists `found` holds it.
     */
    method SetHiddenSingles(points: seq<Point>, found: seq<seq<SudokuValue>>)
      requires Valid() && |points| == 9 && |found| == 9
      requires forall p :: p in points ==> InGrid(p)
      modifies values
      ensures Cells() == HiddenSingles(old(Cells()), points, found, 0)
    {
      var all := AllValues();
      for k := 0 to 9
        invariant HiddenSingles(Cells(), points, found, k) == HiddenSingles(old(Cells()), points, found, 0)
      {
        var matching := GetPointsThatCanBeValue(points, found, all[k]);
        if |matching| == 1 {
          assert matching[0] in matching;
          Set(matching[0], all[k]);
        }
      }
    }

    /** The loop shared by the next three methods: reduce_ruled_points on each group in turn. */
    method ReduceGroups(groups: seq<seq<Point>>)
      requires Valid()
      requires forall k :: 0 <= k < |groups| ==> |groups[k]| == 9
      requires forall k, p :: 0 <= k < |groups| && p in groups[k] ==> InGrid(p)
      modifies values
      ensures Cells() == GroupsReduced(old(Cells()), groups, 0)
    {
      for i := 0 to |groups|
        invariant GroupsReduced(Cells(), groups, i) == GroupsReduced(old(Cells()), groups, 0)
      {
        ReduceRuledPoints(groups[i]);
      }
    }

    /** reduce_horizontal_lines: reduce_ruled_points on each row in turn. */
    method ReduceHorizontalLines()
      requires Valid()
      modifies values
      ensures Cells() == GroupsReduced(old(Cells()), HorizontalLines(), 0)
    {
      ReduceGroups(HorizontalLines());
    }

    /** reduce_vertical_lines: reduce_ruled_points on each column in turn. */
    method ReduceVerticalLines()
      requires Valid()
      modifies values
      ensures Cells() == GroupsReduced(old(Cells()), VerticalLines(), 0)
    {
      ReduceGroups(VerticalLines());
    }

    /** reduce_blocks: reduce_ruled_points on each block in turn. */
    method ReduceBlocks()
      requires Valid()
      modifies values
      ensures Cells() == GroupsReduced(old(Cells()), Blocks(), 0)
    {
      ReduceGroups(Blocks());
    }

    /**
     * reduce_once: reduce_at_point at all 81 points, stopping at the first error; then the
     * rows, the columns and the blocks.
     */
    method ReduceOnce() returns (r: Result<()>)
      requires Valid()
      modifies values
      ensures r.Ok? <==> ReducedOnce(old(Cells())).Reduced?
      ensures Cells() == ReducedOnce(old(Cells())).grid
    {
      var all := AllPoints();
      for i := 0 to 81
        invariant NakedSingles(Cells(), all, i) == NakedSingles(old(Cells()), all, 0)
      {
        var step := ReduceAtPoint(all[i]);
        if step.Err? {
          return Err(step.error);
        }
      }
      ReduceHorizontalLines();
      ReduceVerticalLines();
      ReduceBlocks();
      return Ok(());
    }

    /**
     * reduce_while_you_can: passes until one leaves the number of Empty cells unchanged, or
     * until a pass fails.
     */
    method ReduceWhileYouCan() returns (r: Result<()>)
      requires Valid()
      modifies values
      ensures r.Ok? <==> ReducedFully(old(Cells())).Reduced?
      ensures Cells() == ReducedFully(old(Cells())).grid
    {
      while true
        invariant ReducedFully(Cells()) == ReducedFully(old(Cells()))
        decreases EmptyCount(Cells())
      {
        var startCount := EmptyCount(Cells());
        ghost var before := Cells();
        var pass := ReduceOnce();
        if pass.Err? {
          return Err(pass.error);
        }
        ReducedOnceSound(before);
        EmptyCountShrinks(before, Cells());
        if EmptyCount(Cells()) == startCount {
          return Ok(());
        }
      }
    }

    /**
     * solve: a fresh copy of the state is reduced as far as it goes; the copy on success, the
     * error otherwise. The state itself is not changed, and the copy may keep Empty cells
     * (see Reductions.AllEmptyAccepted).
     */
    method Solve() returns (r: Result<SudokuState>)
      requires Valid()
      ensures Cells() == old(Cells())
      ensures r.Ok? <==> ReducedFully(Cells()).Reduced?
      ensures r.Ok? ==> fresh(r.value) && fresh(r.value.values)
      ensures r.Ok? ==> r.value.Valid() && r.value.Cells() == ReducedFully(Cells()).grid
    {
      ghost var g := Cells();
      var solution := new SudokuState.FromGrid(Cells());
      assert solution.values != values;
      var outcome := solution.ReduceWhileYouCan();
      assert Cells() == g;
      assert solution.Cells() == ReducedFully(g).grid;
      if outcome.Err? {
        return Err(outcome.error);
      }
      return Ok(solution);
    }

    /** fmt (Display): the rows in boxed form, built line by line as the text picture. */
    method Display() returns (s: string)
      requires Valid()
      ensures s == Rendered(Cells())
    {
      ghost var g := Cells();
      ghost var lines := RowLines(g);
      s := "";
      for i := 0 to 9
        invariant Cells() == g
        invariant s == RowsText(lines, i)
      {
        if i % 3 == 0 {
          s := s + Border;
        }
        ghost var head := s;
        var row := Cells()[i];
        for j := 0 to 9
          invariant Cells() == g
          invariant s == head + CellsText(row, j)
        {
          if j % 3 == 0 {
            s := s + "| ";
          }
          s := s + SudokuValues.Display(row[j]);
          s := s + " ";
          AppendCell(head, row, j);
        }
        assert row == g[i];
        s := s + "|\n";
        assert head + CellsText(g[i], 9) + "|\n" == head + (CellsText(g[i], 9) + "|\n");
      }
      s := s + Border;
    }
  }
}
