/// Depth-first search and the top-level solver (solution.py, lines 179-207):
/// reduce, stop on a contradiction or a solved grid, otherwise branch on
/// the unsolved box with the fewest candidates, one copy of the grid per
/// candidate digit.
module Search {
  import opened Grid
  import opened Propagation

  // ---------------------------------------------------------------------
  // Choosing the box to branch on (line 188)

  /**
   * Among boxes 0..n-1, the one with more than one candidate and the fewest
   * candidates, the earliest box on a tie: the minimum of the pairs
   * (len(values[s]), s) at line 188. `BoxOrderIsNameOrder` shows that box
   * order is the order of the names the source compares.
   */
  function Fewest(g: Cells, n: nat): (r: Option<int>)
    requires n <= |g|
    ensures r.None? <==> forall b :: 0 <= b < n ==> |g[b]| <= 1
    ensures r.Some? ==> 0 <= r.value < n && |g[r.value]| > 1
    ensures r.Some? ==> forall b :: 0 <= b < n && |g[b]| > 1 ==>
      |g[r.value]| < |g[b]| || (|g[r.value]| == |g[b]| && r.value <= b)
  {
    if n == 0 then None
    else
      var best := Fewest(g, n - 1);
      if |g[n - 1]| <= 1 then best
      else if best.None? || |g[n - 1]| < |g[best.value]| then Some(n - 1)
      else best
  }

  // ---------------------------------------------------------------------
  // Search (lines 179-196)

  /** A solved grid that fits `g` and holds `d` at box `s` fits `g` with `s` set to `d`. */
  lemma BranchRefines(sol: Cells, g: Cells, s: int, d: int)
    requires IsSolved(sol) && Refines(sol, g) && 0 <= s < |g| && d in sol[s]
    ensures Refines(sol, g[s := {d}])
  {
    SingletonIs(sol[s], d);
  }

  /** Every solution that fits `g` holds a digit of at least `d` at box `s`. */
  ghost predicate RuledOutBelow(diagonal: bool, g: Cells, s: int, d: int)
    requires 0 <= s < |g|
  {
    forall sol, x :: IsSolution(diagonal, sol) && Refines(sol, g) && x in sol[s] ==> d <= x
  }

  /**
   * Digit `d` is ruled out at box `s` when it is not a candidate there or
   * when its branch found nothing.
   */
  lemma NextDigit(diagonal: bool, g: Cells, s: int, d: int)
    requires 0 <= s < |g| && RuledOutBelow(diagonal, g, s, d)
    requires d !in g[s] || forall sol :: IsSolution(diagonal, sol) ==> !Refines(sol, g[s := {d}])
    ensures RuledOutBelow(diagonal, g, s, d + 1)
  {
    forall sol, x | IsSolution(diagonal, sol) && Refines(sol, g) && x in sol[s]
      ensures d + 1 <= x
    {
      if x == d {
        assert d in g[s];
        BranchRefines(sol, g, s, d);
        assert false;
      }
    }
  }

  /** Fixing box `s` to one of its several candidates narrows a well-formed grid strictly. */
  lemma BranchNarrows(g: Cells, s: int, d: int)
    requires WellFormed(g) && 0 <= s < 81 && d in g[s] && |g[s]| > 1
    ensures WellFormed(g[s := {d}])
    ensures TotalCandidates(g[s := {d}]) < TotalCandidates(g)
  {
    assert |{d}| == 1;
    assert {d} != g[s];
    TotalCandidatesNarrow(g, s, {d});
  }

  /** `values.copy()` followed by the write of line 192: a fresh grid with box `s` set to `cell`. */
  method CopyWith(values: array<set<int>>, s: int, cell: set<int>) returns (copy: array<set<int>>)
    requires 0 <= s < values.Length
    ensures fresh(copy)
    ensures copy[..] == values[..][s := cell]
  {
    copy := new set<int>[values.Length];
    forall i | 0 <= i < values.Length {
      copy[i] := values[i];
    }
    copy[s] := cell;
  }

  /** When no digit is left to try at box `s`, no solution fits the grid. */
  lemma NoDigitLeft(diagonal: bool, g: Cells, s: int)
    requires |g| == 81 && 0 <= s < 81 && RuledOutBelow(diagonal, g, s, 10)
    ensures forall sol :: IsSolution(diagonal, sol) ==> !Refines(sol, g)
  {
    forall sol | IsSolution(diagonal, sol)
      ensures !Refines(sol, g)
    {
      var x := MemberOf(sol[s]);
      assert x in AllDigits;
    }
  }

  /**
   * `search`: reduces the grid; fails when that empties a box; returns the
   * grid when every box holds one digit (line 185 calls `len` on a
   * generator; the check meant, and modelled, is "every box has exactly one
   * candidate"); otherwise tries the digits of the box chosen by `Fewest`
   * in increasing order, each on a fresh copy of the grid, and returns the
   * first success. Line 196 falls off the end and yields `None` where line
   * 184 yields `False`; both are the one failure value `None` here.
   *
   * A returned grid is a solution of the puzzle that fits the input, and
   * `None` means that no solution fits it.
   */
  method Search(values: array<set<int>>, diagonal: bool, trace: Trace) returns (r: Option<Cells>)
    requires values.Length == 81 && WellFormed(values[..])
    modifies values, trace
    ensures r.Some? ==> IsSolution(diagonal, r.value) && Refines(r.value, old(values[..]))
    ensures r.None? ==> forall sol :: IsSolution(diagonal, sol) ==> !Refines(sol, old(values[..]))
    ensures old(trace.snapshots) <= trace.snapshots
    decreases TotalCandidates(values[..])
  {
    ghost var g0 := values[..];
    var ok := ReducePuzzle(values, diagonal, trace);
    if !ok {
      return None;
    }
    if forall b :: 0 <= b < 81 ==> |values[b]| == 1 {
      SettledSolvedIsSolution(diagonal, values[..]);
      return Some(values[..]);
    }
    var s := Fewest(values[..], 81).value;
    ghost var reduced := values[..];
    TotalCandidatesMonotone(reduced, g0);
    for value := 1 to 10
      invariant values[..] == reduced
      invariant old(trace.snapshots) <= trace.snapshots
      invariant RuledOutBelow(diagonal, reduced, s, value)
    {
      if value in values[s] {
        var newSudoku := CopyWith(values, s, {value});
        BranchNarrows(reduced, s, value);
        var attempt := Search(newSudoku, diagonal, trace);
        if attempt.Some? {
          return attempt;
        }
      }
      NextDigit(diagonal, reduced, s, value);
    }
    NoDigitLeft(diagonal, reduced, s);
    return None;
  }

  // ---------------------------------------------------------------------
  // Solve (lines 198-207)

  /** What `solve` gives back. */
  datatype Outcome =
    | Solved(grid: Cells)   // a solution of the puzzle
    | Unsolvable            // the source's `False`
    | BadGrid               // `grid_values` rejects the text (its assertion fails)

  /** `solve`: parses the puzzle text and searches from the parsed grid. */
  method Solve(grid: string, diagonal: bool, trace: Trace) returns (r: Outcome)
    modifies trace
    ensures r.BadGrid? <==> |ParsedCells(grid)| != 81
    ensures r.Solved? ==> IsSolution(diagonal, r.grid) && Refines(r.grid, ParsedCells(grid))
    ensures r.Unsolvable? ==> forall sol :: IsSolution(diagonal, sol) ==> !Refines(sol, ParsedCells(grid))
  {
    var parsed := GridValues(grid);
    if parsed.None? {
      return BadGrid;
    }
    var values := new set<int>[81];
    forall i | 0 <= i < 81 {
      values[i] := parsed.value[i];
    }
    assert values[..] == parsed.value;
    var found := Search(values, diagonal, trace);
    if found.Some? {
      return Solved(found.value);
    }
    return Unsolvable;
  }
}
