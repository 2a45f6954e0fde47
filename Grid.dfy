/// The candidate grid (solution.py, lines 18-29 and 90-108): box -> the
/// digits still possible there, the assignment trace, and the parser from
/// the 81-character puzzle text.
///
/// The source keeps each box's candidates in a string that starts as
/// "123456789" and is only ever filtered, so its characters stay ascending;
/// here a box's candidates are a set of digits, and "the i-th character" of
/// such a string becomes "the i-th smallest digit".
module Grid {
  import opened Topology

  datatype Option<T> = None | Some(value: T)

  const AllDigits: set<int> := {1, 2, 3, 4, 5, 6, 7, 8, 9}

  /** A grid as a value: entry b holds the candidates of box b. */
  type Cells = seq<set<int>>

  predicate WellFormed(g: Cells)
  {
    |g| == 81 && forall b :: 0 <= b < 81 ==> g[b] <= AllDigits
  }

  /** No box has run out of candidates (no contradiction). */
  predicate NoEmpty(g: Cells)
  {
    forall b :: 0 <= b < |g| ==> g[b] != {}
  }

  /** Every box holds exactly one digit. */
  predicate IsSolved(g: Cells)
  {
    forall b :: 0 <= b < |g| ==> |g[b]| == 1
  }

  /** `g'` is `g` with zero or more candidates taken away. */
  predicate Refines(g': Cells, g: Cells)
  {
    |g'| == |g| && forall b :: 0 <= b < |g| ==> g'[b] <= g[b]
  }

  /** The number of solved boxes, as `reduce_puzzle` counts them. */
  function CountSolved(g: Cells): (n: nat)
    ensures n <= |g|
  {
    if g == [] then 0 else (if |g[0]| == 1 then 1 else 0) + CountSolved(g[1..])
  }

  /** The number of (box, candidate) pairs left: the measure that search decreases. */
  function TotalCandidates(g: Cells): nat
  {
    if g == [] then 0 else |g[0]| + TotalCandidates(g[1..])
  }

  /**
   * No solved box's digit is still a candidate of one of its peers: what a
   * pass of elimination establishes for the boxes solved when it starts.
   */
  predicate Settled(diagonal: bool, g: Cells)
  {
    forall b, p :: 0 <= b < |g| && 0 <= p < |g| && |g[b]| == 1 && p in Peers(diagonal, b) ==> g[b] !! g[p]
  }

  /** The boxes of `u` hold pairwise different values. */
  predicate AllDifferent(g: Cells, u: seq<int>)
  {
    forall i, j :: 0 <= i < j < |u| && 0 <= u[i] < |g| && 0 <= u[j] < |g| ==> g[u[i]] != g[u[j]]
  }

  /**
   * A solved grid in which no two peers hold the same digit.
   * `SolutionIffUnitsAllDifferent` shows this is "every unit of the chosen
   * variant holds 9 different digits".
   */
  predicate IsSolution(diagonal: bool, g: Cells)
  {
    && WellFormed(g)
    && IsSolved(g)
    && forall b :: 0 <= b < 81 ==> DiffersFromPeers(diagonal, g, b)
  }

  /** The diagonal peers include the classic ones, so a diagonal solution is a classic one. */
  lemma DiagonalSolutionIsClassic(g: Cells)
    requires IsSolution(true, g)
    ensures IsSolution(false, g)
  {
    forall b | 0 <= b < 81
      ensures DiffersFromPeers(false, g, b)
    {
      assert DiffersFromPeers(true, g, b);
      forall p | 0 <= p < 81 && p in Peers(false, b)
        ensures g[b] != g[p]
      {
        assert p in Peers(true, b);
      }
    }
  }

  /** Box `b` holds something other than each of its peers. */
  predicate DiffersFromPeers(diagonal: bool, g: Cells, b: int)
    requires |g| == 81 && 0 <= b < 81
  {
    forall p :: 0 <= p < 81 && p in Peers(diagonal, b) ==> g[b] != g[p]
  }

  // ---------------------------------------------------------------------
  // Lemmas about the measures

  lemma NoMemberIsEmpty(a: set<int>)
    requires forall y :: y !in a
    ensures a == {}
  {
    assert forall y :: y in a <==> y in {};
  }

  lemma MemberOf(a: set<int>) returns (x: int)
    requires a != {}
    ensures x in a
  {
    if forall y :: y !in a {
      NoMemberIsEmpty(a);
      assert false;
    }
    x :| x in a;
  }

  lemma SingletonIs(b: set<int>, x: int)
    requires |b| == 1 && x in b
    ensures b == {x}
  {
    var rest := b - {x};
    assert b == rest + {x};
    assert |rest| == 0;
  }

  lemma SubsetOfSingleton(a: set<int>, b: set<int>)
    requires a <= b && a != {} && |b| == 1
    ensures a == b
  {
    var x := MemberOf(a);
    SingletonIs(b, x);
  }

  lemma SubsetCard(a: set<int>, b: set<int>)
    requires a <= b
    ensures |a| <= |b|
    ensures a != b ==> |a| < |b|
  {
    assert b == a + (b - a);
    assert a !! (b - a);
    if a != b {
      assert b - a != {};
      var x := MemberOf(b - a);
    }
  }

  /**
   * Taking candidates away without emptying a box never unsolves a box, so
   * the solved count cannot fall; and when it stays the same, exactly the
   * same boxes are solved as before.
   */
  lemma {:induction false} CountSolvedMonotone(g': Cells, g: Cells)
    requires Refines(g', g) && NoEmpty(g')
    ensures CountSolved(g') >= CountSolved(g)
    ensures CountSolved(g') == CountSolved(g) ==>
      forall b :: 0 <= b < |g| ==> (|g'[b]| == 1 <==> |g[b]| == 1)
  {
    if g != [] {
      CountSolvedMonotone(g'[1..], g[1..]);
      if |g[0]| == 1 {
        SubsetOfSingleton(g'[0], g[0]);
      }
      if CountSolved(g') == CountSolved(g) {
        forall b | 0 <= b < |g|
          ensures |g'[b]| == 1 <==> |g[b]| == 1
        {
          if b > 0 {
            assert g'[1..][b - 1] == g'[b] && g[1..][b - 1] == g[b];
          } else if |g'[0]| == 1 {
            SubsetCard(g'[0], g[0]);
          }
        }
      }
    }
  }

  /** Taking candidates away never raises the candidate total. */
  lemma {:induction false} TotalCandidatesMonotone(g': Cells, g: Cells)
    requires Refines(g', g)
    ensures TotalCandidates(g') <= TotalCandidates(g)
  {
    if g != [] {
      TotalCandidatesMonotone(g'[1..], g[1..]);
      SubsetCard(g'[0], g[0]);
    }
  }

  /** Narrowing one box to a proper subset lowers the candidate total. */
  lemma {:induction false} TotalCandidatesNarrow(g: Cells, b: int, cell: set<int>)
    requires 0 <= b < |g| && cell < g[b]
    ensures TotalCandidates(g[b := cell]) < TotalCandidates(g)
  {
    SubsetCard(cell, g[b]);
    if b > 0 {
      assert g[b := cell][1..] == g[1..][b - 1 := cell];
      TotalCandidatesNarrow(g[1..], b - 1, cell);
    }
  }

  /**
   * A solved grid that is settled is a solution: every unit holds 9
   * different digits.
   */
  lemma SettledSolvedIsSolution(diagonal: bool, g: Cells)
    requires WellFormed(g) && IsSolved(g) && Settled(diagonal, g)
    ensures IsSolution(diagonal, g)
  {
    forall b | 0 <= b < 81
      ensures DiffersFromPeers(diagonal, g, b)
    {
      forall p | 0 <= p < 81 && p in Peers(diagonal, b)
        ensures g[b] != g[p]
      {
        assert g[b] !! g[p] && g[b] != {};
      }
    }
  }

  /** A solution is a solved grid whose units each hold 9 different digits. */
  lemma SolutionIffUnitsAllDifferent(diagonal: bool, g: Cells)
    ensures IsSolution(diagonal, g) <==>
      WellFormed(g) && IsSolved(g) && forall u :: u in UnitList(diagonal) ==> AllDifferent(g, u)
  {
    if WellFormed(g) && IsSolved(g) {
      if IsSolution(diagonal, g) {
        forall u | u in UnitList(diagonal)
          ensures AllDifferent(g, u)
        {
          forall i, j | 0 <= i < j < |u| && 0 <= u[i] < |g| && 0 <= u[j] < |g|
            ensures g[u[i]] != g[u[j]]
          {
            UnitListWellFormed(diagonal);
            UnitMembersArePeers(diagonal, u, i, j);
            assert DiffersFromPeers(diagonal, g, u[i]);
          }
        }
      }
      if forall u :: u in UnitList(diagonal) ==> AllDifferent(g, u) {
        forall b | 0 <= b < 81
          ensures DiffersFromPeers(diagonal, g, b)
        {
          forall p | 0 <= p < 81 && p in Peers(diagonal, b)
            ensures g[b] != g[p]
          {
            PeersInOneUnit(diagonal, g, b, p);
          }
        }
      }
    }
  }

  /** Two peers sit at different places of one all-different unit. */
  lemma PeersInOneUnit(diagonal: bool, g: Cells, b: int, p: int)
    requires WellFormed(g) && forall u :: u in UnitList(diagonal) ==> AllDifferent(g, u)
    requires p in Peers(diagonal, b)
    ensures g[b] != g[p]
  {
    PeerRelation(diagonal, b, p);
    PeersShareUnit(diagonal, b, p);
    var u :| u in UnitList(diagonal) && b in u && p in u;
    UnitListWellFormed(diagonal);
    var i :| 0 <= i < |u| && u[i] == b;
    var j :| 0 <= j < |u| && u[j] == p;
    assert AllDifferent(g, u);
    if i < j {
      assert g[u[i]] != g[u[j]];
    } else {
      assert g[u[j]] != g[u[i]];
    }
  }

  /** The digits held by boxes u[0..k] of a solved grid. */
  function DigitsOf(g: Cells, u: seq<int>, k: int): set<int>
    requires 0 <= k <= |u|
    requires forall i :: 0 <= i < |u| ==> 0 <= u[i] < |g|
  {
    if k == 0 then {} else DigitsOf(g, u, k - 1) + g[u[k - 1]]
  }

  lemma {:induction false} DigitsOfCard(g: Cells, u: seq<int>, k: int)
    requires 0 <= k <= |u|
    requires forall i :: 0 <= i < |u| ==> 0 <= u[i] < |g|
    requires IsSolved(g) && AllDifferent(g, u)
    ensures |DigitsOf(g, u, k)| == k
    ensures forall i :: 0 <= i < k ==> g[u[i]] <= DigitsOf(g, u, k)
    ensures forall x :: x in DigitsOf(g, u, k) ==> exists i :: 0 <= i < k && g[u[i]] == {x}
  {
    if k > 0 {
      DigitsOfCard(g, u, k - 1);
      var prev := DigitsOf(g, u, k - 1);
      var cell := g[u[k - 1]];
      assert |cell| == 1;
      var x := MemberOf(cell);
      SingletonIs(cell, x);
      assert x !in prev;
    }
  }

  /** In a solution each unit holds every digit 1..9 exactly once. */
  lemma SolutionUnitsCoverDigits(diagonal: bool, g: Cells, u: seq<int>)
    requires IsSolution(diagonal, g) && u in UnitList(diagonal)
    ensures IsUnit(u) && DigitsOf(g, u, |u|) == AllDigits
  {
    UnitListWellFormed(diagonal);
    SolutionIffUnitsAllDifferent(diagonal, g);
    UnitCoversDigits(g, u);
  }

  lemma UnitCoversDigits(g: Cells, u: seq<int>)
    requires WellFormed(g) && IsSolved(g) && IsUnit(u) && AllDifferent(g, u)
    ensures DigitsOf(g, u, |u|) == AllDigits
  {
    DigitsOfCard(g, u, |u|);
    var ds := DigitsOf(g, u, |u|);
    assert ds <= AllDigits by {
      forall x | x in ds ensures x in AllDigits {
        var i :| 0 <= i < 9 && g[u[i]] == {x};
      }
    }
    AllDigitsCount();
    SubsetCard(ds, AllDigits);
  }

  lemma AllDigitsCount()
    ensures |AllDigits| == 9
  {
    assert AllDigits == {1, 2, 3, 4, 5, 6, 7, 8} + {9};
  }

  /** Taking `b` away from `a` loses at most `|b|` elements. */
  lemma DifferenceCard(a: set<int>, b: set<int>)
    ensures |a - b| >= |a| - |b|
  {
    assert a == (a - b) + (a * b);
    SubsetCard(a * b, b);
  }

  /** A unit of a solved, all-different grid holds each digit in some box. */
  lemma UnitHoldsDigit(g: Cells, u: seq<int>, d: int) returns (i: int)
    requires WellFormed(g) && IsSolved(g) && IsUnit(u) && AllDifferent(g, u) && d in AllDigits
    ensures 0 <= i < 9 && g[u[i]] == {d}
  {
    UnitCoversDigits(g, u);
    DigitsOfCard(g, u, |u|);
    assert d in DigitsOf(g, u, |u|);
    i :| 0 <= i < 9 && g[u[i]] == {d};
  }

  /**
   * The joined list of line 85 names the centre box E5 twice (and holds 18
   * boxes for 9 digits), so no grid at all keeps it all-different: it cannot
   * stand for the two diagonal constraints of the puzzle.
   */
  lemma JoinedDiagonalsNeverAllDifferent(g: Cells)
    requires |g| == 81
    ensures !AllDifferent(g, JoinedDiagonals())
  {
    var u := JoinedDiagonals();
    assert u[4] == 40 && u[13] == 40;
  }

  // ---------------------------------------------------------------------
  // The smallest candidate

  function LeastFrom(cell: set<int>, k: int): (d: int)
    requires 1 <= k <= 9
    requires exists x :: x in cell && k <= x <= 9
    ensures d in cell && k <= d <= 9
    ensures forall x :: x in cell && k <= x ==> d <= x
    decreases 9 - k
  {
    if k in cell then k else LeastFrom(cell, k + 1)
  }

  /** The smallest candidate of a box: the first character of its string. */
  function Least(cell: set<int>): (d: int)
    requires cell != {} && cell <= AllDigits
    ensures d in cell && forall x :: x in cell ==> d <= x
  {
    LeastFrom(cell, 1)
  }

  // ---------------------------------------------------------------------
  // The assignment trace

  /** The `assignments` list: one snapshot of the grid per recorded assignment. */
  class Trace {
    var snapshots: seq<Cells>

    constructor ()
      ensures snapshots == []
    {
      snapshots := [];
    }
  }

  /**
   * `assign_value`: writes `value` into `box` and, when the new value is a
   * single digit, appends a snapshot of the whole grid to the trace.
   */
  method AssignValue(values: array<set<int>>, box: int, value: set<int>, trace: Trace)
    requires 0 <= box < values.Length
    modifies values, trace
    ensures values[..] == old(values[..])[box := value]
    ensures trace.snapshots == old(trace.snapshots) + if |value| == 1 then [values[..]] else []
  {
    values[box] := value;
    if |value| == 1 {
      trace.snapshots := trace.snapshots + [values[..]];
    }
  }

  // ---------------------------------------------------------------------
  // Parsing the puzzle text

  /** '.' is an empty box, '1'..'9' a given digit; every other character is skipped. */
  function CellOf(c: char): Option<set<int>>
  {
    if c == '.' then Some(AllDigits)
    else if '1' <= c <= '9' then Some({c as int - '0' as int})
    else None
  }

  /** The cells read from `text`, one per kept character, in order. */
  function ParsedCells(text: string): (r: Cells)
    ensures |r| <= |text|
  {
    if text == [] then []
    else
      var init := ParsedCells(text[..|text| - 1]);
      match CellOf(text[|text| - 1])
      case Some(cell) => init + [cell]
      case None => init
  }

  /** A cell the parser can produce: all nine digits or a single digit. */
  predicate IsInitialCell(cell: set<int>)
  {
    cell == AllDigits || (|cell| == 1 && cell <= AllDigits)
  }

  lemma {:induction false} ParsedCellsShape(text: string)
    ensures forall i :: 0 <= i < |ParsedCells(text)| ==> IsInitialCell(ParsedCells(text)[i])
  {
    if text != [] {
      ParsedCellsShape(text[..|text| - 1]);
    }
  }

  /**
   * `grid_values`: the cells of the kept characters paired with the boxes in
   * row-major order; the source's assertion fails (here: None) unless
   * exactly 81 characters are kept.
   */
  method GridValues(grid: string) returns (r: Option<Cells>)
    ensures r.Some? <==> |ParsedCells(grid)| == 81
    ensures r.Some? ==> r.value == ParsedCells(grid) && WellFormed(r.value)
  {
    var values: Cells := [];
    for i := 0 to |grid|
      invariant values == ParsedCells(grid[..i])
    {
      assert grid[..i + 1][..i] == grid[..i];
      match CellOf(grid[i])
      case Some(cell) => values := values + [cell];
      case None =>
    }
    assert grid[..|grid|] == grid;
    if |values| == 81 {
      ParsedCellsShape(grid);
      r := Some(values);
    } else {
      r := None;
    }
  }

  /** The character that a parsed cell came from. */
  function CharOf(cell: set<int>): char
    requires IsInitialCell(cell)
  {
    if cell == AllDigits then '.' else ('0' as int + Least(cell)) as char
  }

  function Encode(g: Cells): (text: string)
    requires forall i :: 0 <= i < |g| ==> IsInitialCell(g[i])
  {
    seq(|g|, i requires 0 <= i < |g| => CharOf(g[i]))
  }

  lemma CharOfRoundTrip(cell: set<int>)
    requires IsInitialCell(cell)
    ensures CellOf(CharOf(cell)) == Some(cell)
  {
    if cell != AllDigits {
      var d := Least(cell);
      SubsetOfSingleton({d}, cell);
    }
  }

  /** Writing a grid of givens and blanks as text and parsing it gives the grid back. */
  lemma {:induction false} ParseEncode(g: Cells)
    requires forall i :: 0 <= i < |g| ==> IsInitialCell(g[i])
    ensures ParsedCells(Encode(g)) == g
  {
    if g != [] {
      var n := |g| - 1;
      assert Encode(g)[..n] == Encode(g[..n]);
      ParseEncode(g[..n]);
      CharOfRoundTrip(g[n]);
      assert g == g[..n] + [g[n]];
    }
  }

  /** Text made only of '.' and '1'..'9' is reproduced by parsing and writing back. */
  lemma {:induction false} EncodeParse(text: string)
    requires forall i :: 0 <= i < |text| ==> CellOf(text[i]).Some?
    ensures |ParsedCells(text)| == |text|
    ensures forall i :: 0 <= i < |text| ==> IsInitialCell(ParsedCells(text)[i])
    ensures Encode(ParsedCells(text)) == text
  {
    if text != [] {
      var n := |text| - 1;
      EncodeParse(text[..n]);
      ParsedCellsShape(text);
      var c := text[n];
      assert CellOf(c).Some?;
      assert ParsedCells(text) == ParsedCells(text[..n]) + [CellOf(c).value];
      if c != '.' {
        var d := c as int - '0' as int;
        assert Least({d}) == d;
      }
      assert text == text[..n] + [c];
    }
  }
}
