/// The propagation rules and the fixed-point loop (solution.py, lines
/// 32-73 and 126-176): elimination, only-choice, naked twins and
/// `reduce_puzzle`. Each rule works in place on the grid and only ever
/// takes candidates away; each is proved never to take away a digit that
/// some solution of the puzzle needs.
module Propagation {
  import opened Topology
  import opened Grid

  /** Every solution that fits `g` still fits `g'`: no solution was lost. */
  ghost predicate KeepsSolutions(diagonal: bool, g': Cells, g: Cells)
  {
    forall s :: IsSolution(diagonal, s) && Refines(s, g) ==> Refines(s, g')
  }

  /** Keeping every solution composes along a chain of steps. */
  lemma KeepsSolutionsTransitive(diagonal: bool, g0: Cells, g1: Cells, g2: Cells)
    requires KeepsSolutions(diagonal, g1, g0) && KeepsSolutions(diagonal, g2, g1)
    ensures KeepsSolutions(diagonal, g2, g0)
  {
  }

  // ---------------------------------------------------------------------
  // Facts about solutions that justify the rules

  /** Two peers hold different digits in a solution. */
  lemma SolutionPeersDiffer(diagonal: bool, s: Cells, b: int, p: int)
    requires IsSolution(diagonal, s) && p in Peers(diagonal, b)
    ensures IsBox(b) && IsBox(p) && s[b] != s[p]
  {
    PeerRelation(diagonal, b, p);
    assert DiffersFromPeers(diagonal, s, b);
  }

  /** A box of a solution that fits a solved cell holds that cell's digit. */
  lemma SolutionKeepsSolved(s: Cells, g: Cells, b: int)
    requires IsSolved(s) && Refines(s, g) && 0 <= b < |g| && |g[b]| == 1
    ensures s[b] == g[b]
  {
    assert |s[b]| == 1;
    SubsetOfSingleton(s[b], g[b]);
  }

  // ---------------------------------------------------------------------
  // Elimination (lines 126-137)

  /** The digits of the solved peers of `p`. */
  function SolvedPeerDigits(diagonal: bool, g: Cells, p: int): set<int>
  {
    set b, d | 0 <= b < |g| && |g[b]| == 1 && d in g[b] && p in Peers(diagonal, b) :: d
  }

  /** One elimination pass as a function: every box loses the digits of its solved peers. */
  function Eliminated(diagonal: bool, g: Cells): (r: Cells)
    ensures Refines(r, g)
  {
    seq(|g|, p requires 0 <= p < |g| => g[p] - SolvedPeerDigits(diagonal, g, p))
  }

  /** Elimination loses no solution. */
  lemma EliminationSound(diagonal: bool, g: Cells, s: Cells)
    requires IsSolution(diagonal, s) && Refines(s, g)
    ensures Refines(s, Eliminated(diagonal, g))
  {
    forall p, x | 0 <= p < |g| && x in s[p]
      ensures x !in SolvedPeerDigits(diagonal, g, p)
    {
      if x in SolvedPeerDigits(diagonal, g, p) {
        var b, d :| 0 <= b < |g| && |g[b]| == 1 && d in g[b] && p in Peers(diagonal, b) && x == d;
        SolutionKeepsSolved(s, g, b);
        SolutionPeersDiffer(diagonal, s, b, p);
        SingletonIs(g[b], x);
        SingletonIs(s[p], x);
        assert false;
      }
    }
  }

  /**
   * Elimination is not idempotent in general (a box it narrows to one digit
   * is only used by the next pass), but a second pass changes nothing when
   * the first one solved no new box.
   */
  lemma EliminationIdempotentWhenNoNewSolved(diagonal: bool, g: Cells)
    requires forall b :: 0 <= b < |g| && |Eliminated(diagonal, g)[b]| == 1 ==> |g[b]| == 1
    ensures Eliminated(diagonal, Eliminated(diagonal, g)) == Eliminated(diagonal, g)
  {
    var e := Eliminated(diagonal, g);
    forall p | 0 <= p < |g|
      ensures Eliminated(diagonal, e)[p] == e[p]
    {
      forall x | x in SolvedPeerDigits(diagonal, e, p)
        ensures x !in e[p]
      {
        var b, d :| 0 <= b < |e| && |e[b]| == 1 && d in e[b] && p in Peers(diagonal, b) && x == d;
        assert |g[b]| == 1;
        assert d in g[b];
        assert x in SolvedPeerDigits(diagonal, g, p);
      }
    }
  }

  /** The grid A1 = {1}, A2 = {1, 2}, A3 = {2, 3}, every other box open. */
  function NotIdempotentWitness(): (g: Cells)
    ensures WitnessShape(g)
  {
    seq(81, b => if b == 0 then {1} else if b == 1 then {1, 2} else if b == 2 then {2, 3} else AllDigits)
  }

  /**
   * Elimination is not idempotent, with the diagonal peers the source uses
   * as with the classic ones: on a grid of the witness's shape the first
   * pass solves A2 = {2}, and only the second pass removes 2 from A3.
   * Neither pass empties a box, so `Eliminate` computes both passes
   * exactly.
   */
  lemma EliminationNotIdempotent(diagonal: bool, g: Cells)
    requires WitnessShape(g)
    ensures NoEmpty(Eliminated(diagonal, g))
    ensures NoEmpty(Eliminated(diagonal, Eliminated(diagonal, g)))
    ensures Eliminated(diagonal, Eliminated(diagonal, g)) != Eliminated(diagonal, g)
  {
    var e := Eliminated(diagonal, g);
    var e2 := Eliminated(diagonal, e);
    WitnessFirstPass(diagonal, g, e);
    WitnessSecondPass(diagonal, e, e2);
  }

  /** The shape of the witness grid: A1 = {1}, A2 = {1, 2}, A3 = {2, 3}, every other box open. */
  predicate WitnessShape(g: Cells)
  {
    && |g| == 81 && g[0] == {1} && g[1] == {1, 2} && g[2] == {2, 3}
    && forall b :: 3 <= b < 81 ==> g[b] == AllDigits
  }

  /** A set with two different members does not hold exactly one. */
  lemma NotSingleton(x: set<int>, a: int, c: int)
    requires a in x && c in x && a != c
    ensures |x| != 1
  {
    if |x| == 1 {
      SingletonIs(x, a);
    }
  }

  /** In the witness grid only A1 is solved, with the digit 1. */
  lemma WitnessSolvedBoxes(diagonal: bool, g: Cells)
    requires WitnessShape(g)
    ensures forall p, x :: x in SolvedPeerDigits(diagonal, g, p) ==> x == 1 && p != 0
  {
    forall b | 1 <= b < 81
      ensures |g[b]| != 1
    {
      NotSingleton(g[b], 2, if b == 1 then 1 else 3);
    }
    forall p, x | x in SolvedPeerDigits(diagonal, g, p)
      ensures x == 1 && p != 0
    {
      var b, d :| 0 <= b < |g| && |g[b]| == 1 && d in g[b] && p in Peers(diagonal, b) && x == d;
      PeerRelation(diagonal, 0, p);
    }
  }

  /** The first pass on the witness grid: A2 loses 1, A1 and A3 keep theirs, the open boxes keep 2 and 3. */
  lemma WitnessFirstPass(diagonal: bool, g: Cells, e: Cells)
    requires WitnessShape(g) && e == Eliminated(diagonal, g)
    ensures |e| == 81 && e[0] == {1} && e[1] == {2} && e[2] == {2, 3}
    ensures forall p :: 3 <= p < 81 ==> 2 in e[p] && 3 in e[p]
  {
    WitnessSolvedBoxes(diagonal, g);
    InPeers(diagonal, 0, 1);
    assert RowOf(0) == RowOf(1);
    assert |g[0]| == 1 && 1 in g[0] && 1 in Peers(diagonal, 0);
    assert 1 in SolvedPeerDigits(diagonal, g, 1);
    assert e[0] == g[0] - SolvedPeerDigits(diagonal, g, 0);
    assert e[1] == g[1] - SolvedPeerDigits(diagonal, g, 1);
    assert e[2] == g[2] - SolvedPeerDigits(diagonal, g, 2);
    forall p | 3 <= p < 81
      ensures 2 in e[p] && 3 in e[p]
    {
      assert e[p] == g[p] - SolvedPeerDigits(diagonal, g, p);
    }
  }

  /** Neither pass on the witness grid empties a box, and the second removes 2 from A3. */
  lemma WitnessSecondPass(diagonal: bool, e: Cells, e2: Cells)
    requires |e| == 81 && e[0] == {1} && e[1] == {2} && e[2] == {2, 3}
    requires forall p :: 3 <= p < 81 ==> 2 in e[p] && 3 in e[p]
    requires e2 == Eliminated(diagonal, e)
    ensures NoEmpty(e) && NoEmpty(e2) && 2 !in e2[2] && e2 != e
  {
    forall p | 0 <= p < 81
      ensures e[p] != {}
    {
      assert (if p == 0 then 1 else 2) in e[p];
    }
    WitnessSecondSolved(diagonal, e);
    forall p | 0 <= p < 81
      ensures e2[p] != {}
    {
      assert e2[p] == e[p] - SolvedPeerDigits(diagonal, e, p);
      if p == 0 {
        assert 1 in e2[p];
      } else if p == 1 {
        assert 2 in e2[p];
      } else {
        assert 3 in e2[p];
      }
    }
    InPeers(diagonal, 1, 2);
    assert RowOf(1) == RowOf(2);
    assert 2 in SolvedPeerDigits(diagonal, e, 2);
    assert 2 in e[2];
  }

  /** After the first pass only A1 = {1} and A2 = {2} are solved. */
  lemma WitnessSecondSolved(diagonal: bool, e: Cells)
    requires |e| == 81 && e[0] == {1} && e[1] == {2} && e[2] == {2, 3}
    requires forall p :: 3 <= p < 81 ==> 2 in e[p] && 3 in e[p]
    ensures forall p, x :: x in SolvedPeerDigits(diagonal, e, p) ==> (x == 1 && p != 0) || (x == 2 && p != 1)
  {
    forall b | 2 <= b < 81
      ensures |e[b]| != 1
    {
      NotSingleton(e[b], 2, 3);
    }
    forall p, x | x in SolvedPeerDigits(diagonal, e, p)
      ensures (x == 1 && p != 0) || (x == 2 && p != 1)
    {
      var b, d :| 0 <= b < |e| && |e[b]| == 1 && d in e[b] && p in Peers(diagonal, b) && x == d;
      PeerRelation(diagonal, b, p);
    }
  }

  /** Some box solved earlier in the pass had `x` as its digit and `p` among its peers. */
  ghost predicate RemovedBy(diagonal: bool, g: Cells, p: int, x: int, n: int)
  {
    exists c :: 0 <= c < n && 0 <= c < |g| && p in Peers(diagonal, c) && g[c] == {x}
  }

  /** Every box solved in `g` and not emptied in `g'` has its digit gone from all of its peers in `g'`. */
  ghost predicate PeersCleared(diagonal: bool, g: Cells, g': Cells)
  {
    && |g| == 81 && |g'| == 81
    && forall b, p :: 0 <= b < 81 && 0 <= p < 81 && |g[b]| == 1 && g'[b] != {} && p in Peers(diagonal, b) ==> g[b] !! g'[p]
  }

  /**
   * What the loop of `Eliminate` leaves behind, as a function of the grid it
   * started from: every removed digit is a solved peer's, and every solved
   * box that is not emptied has its digit removed from all of its peers.
   */
  lemma EliminationOutcome(diagonal: bool, g0: Cells, g1: Cells)
    requires |g0| == 81 && Refines(g1, g0)
    requires forall p, x :: 0 <= p < 81 && x in g0[p] && x !in g1[p] ==> RemovedBy(diagonal, g0, p, x, 81)
    requires forall c, p :: 0 <= c < 81 && 0 <= p < 81 && |g0[c]| == 1 && g1[c] != {} && p in Peers(diagonal, c) ==>
      g0[c] !! g1[p]
    ensures Refines(Eliminated(diagonal, g0), g1)
    ensures PeersCleared(diagonal, g0, g1)
    ensures NoEmpty(g1) ==> g1 == Eliminated(diagonal, g0)
    ensures KeepsSolutions(diagonal, g1, g0)
  {
    forall p | 0 <= p < 81
      ensures Eliminated(diagonal, g0)[p] <= g1[p]
    {
      forall x | x in g0[p] && x !in g1[p]
        ensures x in SolvedPeerDigits(diagonal, g0, p)
      {
        var c :| 0 <= c < 81 && p in Peers(diagonal, c) && g0[c] == {x};
      }
    }
    if NoEmpty(g1) {
      forall p | 0 <= p < 81
        ensures g1[p] == Eliminated(diagonal, g0)[p]
      {
      }
    }
    forall s | IsSolution(diagonal, s) && Refines(s, g0)
      ensures Refines(s, g1)
    {
      EliminationSound(diagonal, g0, s);
    }
  }

  /**
   * `eliminate`: for every box solved on entry, in box order, remove its
   * current value from each of its peers. A box emptied earlier in the pass
   * removes nothing, as replacing the empty string does nothing.
   */
  method Eliminate(values: array<set<int>>, diagonal: bool)
    requires values.Length == 81
    modifies values
    ensures Refines(values[..], old(values[..]))
    ensures Refines(Eliminated(diagonal, old(values[..])), values[..])
    ensures PeersCleared(diagonal, old(values[..]), values[..])
    ensures NoEmpty(values[..]) ==> values[..] == Eliminated(diagonal, old(values[..]))
    ensures KeepsSolutions(diagonal, values[..], old(values[..]))
  {
    ghost var g0 := values[..];
    var solved := values[..];
    for b := 0 to 81
      invariant Refines(values[..], g0)
      invariant forall p, x :: 0 <= p < 81 && x in g0[p] && x !in values[p] ==> RemovedBy(diagonal, g0, p, x, b)
      invariant forall c, p :: 0 <= c < b && 0 <= p < 81 && |g0[c]| == 1 && values[c] != {} && p in Peers(diagonal, c) ==>
        g0[c] !! values[p]
    {
      if |solved[b]| == 1 {
        var d := values[b];
        ghost var before := values[..];
        PeerRelation(diagonal, b, b);
        for p := 0 to 81
          invariant forall q :: 0 <= q < 81 ==>
            values[q] == if q < p && q in Peers(diagonal, b) then before[q] - d else before[q]
        {
          if p in Peers(diagonal, b) {
            values[p] := values[p] - d;
          }
        }
        assert d <= g0[b];
        forall p, x | 0 <= p < 81 && x in g0[p] && x !in values[p]
          ensures RemovedBy(diagonal, g0, p, x, b + 1)
        {
          if x in before[p] {
            SingletonIs(g0[b], x);
          }
        }
        forall c, p | 0 <= c < b + 1 && 0 <= p < 81 && |g0[c]| == 1 && values[c] != {} && p in Peers(diagonal, c)
          ensures g0[c] !! values[p]
        {
          if c == b {
            SubsetOfSingleton(d, g0[b]);
          } else {
            assert before[c] != {};
          }
        }
      }
    }
    EliminationOutcome(diagonal, g0, values[..]);
  }

  // ---------------------------------------------------------------------
  // Only choice (lines 140-150)

  /** Every box of `g'` is the box of `g`, or one of its candidates alone. */
  predicate Pinned(g': Cells, g: Cells)
  {
    Refines(g', g) && forall b :: 0 <= b < |g| ==> g'[b] == g[b] || |g'[b]| == 1
  }

  /** A unit lists no box twice. */
  predicate Distinct(u: seq<int>)
  {
    forall i, j :: 0 <= i < j < |u| ==> u[i] != u[j]
  }

  /** `dplaces`: the boxes of `u`, in unit order, where `d` is still a candidate. */
  function Places(g: Cells, u: seq<int>, d: int): (r: seq<int>)
    ensures |r| <= |u|
    ensures forall b :: b in r <==> b in u && 0 <= b < |g| && d in g[b]
    ensures Distinct(u) ==> Distinct(r)
  {
    if u == [] then []
    else (if 0 <= u[0] < |g| && d in g[u[0]] then [u[0]] else []) + Places(g, u[1..], d)
  }

  /** `k` is the one box of `u` where `d` can still go. */
  predicate IsOnlyPlace(g: Cells, u: seq<int>, d: int, k: int)
  {
    && k in u && 0 <= k < |g| && d in g[k]
    && forall b :: b in u && 0 <= b < |g| && d in g[b] ==> b == k
  }

  /** A list without repeats has as many entries as it has distinct elements. */
  lemma {:induction false} DistinctCard(ps: seq<int>)
    requires Distinct(ps)
    ensures |set x | x in ps| == |ps|
  {
    if ps != [] {
      DistinctCard(ps[1..]);
      var rest := set x | x in ps[1..];
      assert (set x | x in ps) == rest + {ps[0]};
      assert ps[0] !in rest;
    }
  }

  /** In a unit that lists no box twice, one entry in `dplaces` means one place. */
  lemma OnlyPlaceIff(g: Cells, u: seq<int>, d: int, k: int)
    requires Distinct(u)
    ensures |Places(g, u, d)| == 1 && Places(g, u, d)[0] == k <==> IsOnlyPlace(g, u, d, k)
  {
    var ps := Places(g, u, d);
    if IsOnlyPlace(g, u, d, k) {
      assert k in ps;
      DistinctCard(ps);
      SubsetCard(set x | x in ps, {k});
    }
  }

  /**
   * One (unit, digit) check of `only_choice`: when `d` has exactly one
   * place left in `u`, that box becomes `d`.
   */
  function PlaceStep(g: Cells, u: seq<int>, d: int): (r: Cells)
    ensures Pinned(r, g)
  {
    var ps := Places(g, u, d);
    if |ps| == 1 then assert ps[0] in ps; g[ps[0] := {d}] else g
  }

  /** What one check does, in terms of the unit rather than of `dplaces`. */
  lemma PlaceStepMeaning(g: Cells, u: seq<int>, d: int)
    requires Distinct(u)
    ensures forall k :: IsOnlyPlace(g, u, d, k) ==> PlaceStep(g, u, d) == g[k := {d}]
    ensures (forall k :: !IsOnlyPlace(g, u, d, k)) ==> PlaceStep(g, u, d) == g
  {
    var ps := Places(g, u, d);
    forall k | IsOnlyPlace(g, u, d, k)
      ensures PlaceStep(g, u, d) == g[k := {d}]
    {
      OnlyPlaceIff(g, u, d, k);
    }
    if |ps| == 1 {
      OnlyPlaceIff(g, u, d, ps[0]);
    }
  }

  /** A digit of a unit of the puzzle with one place left must go there in every solution. */
  lemma PlaceStepSound(diagonal: bool, g: Cells, u: seq<int>, d: int)
    requires u in UnitList(diagonal) && 1 <= d <= 9
    ensures KeepsSolutions(diagonal, PlaceStep(g, u, d), g)
  {
    var ps := Places(g, u, d);
    if |ps| == 1 {
      var k := ps[0];
      assert k in ps;
      assert PlaceStep(g, u, d) == g[k := {d}];
      forall s | IsSolution(diagonal, s) && Refines(s, g)
        ensures Refines(s, g[k := {d}])
      {
        SolutionAtOnlyPlace(diagonal, s, g, u, d, k);
      }
    }
  }

  /** A solution that fits `g` holds `d` at the one place `dplaces` names. */
  lemma SolutionAtOnlyPlace(diagonal: bool, s: Cells, g: Cells, u: seq<int>, d: int, k: int)
    requires IsSolution(diagonal, s) && Refines(s, g) && u in UnitList(diagonal) && 1 <= d <= 9
    requires Places(g, u, d) == [k] && 0 <= k < |g|
    ensures s[k] == {d}
  {
    var i := DigitPlaceInSolution(diagonal, s, u, d);
    assert d in g[u[i]];
    assert u[i] in Places(g, u, d);
  }

  /** Each unit of a solution holds each digit in some box. */
  lemma DigitPlaceInSolution(diagonal: bool, s: Cells, u: seq<int>, d: int) returns (i: int)
    requires IsSolution(diagonal, s) && u in UnitList(diagonal) && 1 <= d <= 9
    ensures 0 <= i < |u| && 0 <= u[i] < |s| && s[u[i]] == {d}
  {
    UnitListWellFormed(diagonal);
    SolutionIffUnitsAllDifferent(diagonal, s);
    assert IsUnit(u) && AllDifferent(s, u);
    i := UnitHoldsDigit(s, u, d);
  }

  /** The checks of the digits `d`..9 in one unit, in order. */
  function PlaceDigits(g: Cells, u: seq<int>, d: int): (r: Cells)
    requires 1 <= d <= 10
    ensures Pinned(r, g)
    decreases 10 - d
  {
    if d == 10 then g else PlaceDigits(PlaceStep(g, u, d), u, d + 1)
  }

  /** The checks of every digit in each unit of `us`, unit by unit. */
  function PlaceUnits(g: Cells, us: seq<seq<int>>): (r: Cells)
    ensures Pinned(r, g)
    decreases |us|
  {
    if us == [] then g else PlaceUnits(PlaceDigits(g, us[0], 1), us[1..])
  }

  lemma {:induction false} PlaceDigitsSound(diagonal: bool, g: Cells, u: seq<int>, d: int)
    requires u in UnitList(diagonal) && 1 <= d <= 10
    ensures KeepsSolutions(diagonal, PlaceDigits(g, u, d), g)
    decreases 10 - d
  {
    if d < 10 {
      var g1 := PlaceStep(g, u, d);
      PlaceStepSound(diagonal, g, u, d);
      PlaceDigitsSound(diagonal, g1, u, d + 1);
      KeepsSolutionsTransitive(diagonal, g, g1, PlaceDigits(g1, u, d + 1));
    }
  }

  lemma {:induction false} PlaceUnitsSound(diagonal: bool, g: Cells, us: seq<seq<int>>)
    requires forall u :: u in us ==> u in UnitList(diagonal)
    ensures KeepsSolutions(diagonal, PlaceUnits(g, us), g)
    decreases |us|
  {
    if us != [] {
      var g1 := PlaceDigits(g, us[0], 1);
      PlaceDigitsSound(diagonal, g, us[0], 1);
      PlaceUnitsSound(diagonal, g1, us[1..]);
      KeepsSolutionsTransitive(diagonal, g, g1, PlaceUnits(g1, us[1..]));
    }
  }

  /**
   * The inner loop of `only_choice` for one unit: each digit 1..9 in turn,
   * a digit with exactly one place left in the unit is written into that box.
   */
  method PlaceUnitDigits(values: array<set<int>>, u: seq<int>)
    modifies values
    ensures values[..] == PlaceDigits(old(values[..]), u, 1)
  {
    ghost var g0 := values[..];
    var digit := 1;
    while digit < 10
      invariant 1 <= digit <= 10
      invariant PlaceDigits(values[..], u, digit) == PlaceDigits(g0, u, 1)
    {
      ghost var before := values[..];
      PlaceDigit(values, u, digit);
      PlaceDigitsStep(before, values[..], u, digit);
      digit := digit + 1;
    }
  }

  /** The checks of digits `d`..9 are the check of `d` followed by those of `d + 1`..9. */
  lemma PlaceDigitsStep(g: Cells, g': Cells, u: seq<int>, d: int)
    requires 1 <= d <= 9 && g' == PlaceStep(g, u, d)
    ensures PlaceDigits(g, u, d) == PlaceDigits(g', u, d + 1)
  {
  }

  /** One (unit, digit) check of `only_choice`, in place (lines 147-149). */
  method PlaceDigit(values: array<set<int>>, u: seq<int>, digit: int)
    modifies values
    ensures values[..] == PlaceStep(old(values[..]), u, digit)
  {
    var dplaces := Places(values[..], u, digit);
    if |dplaces| == 1 {
      var k := dplaces[0];
      assert k in dplaces;
      values[k] := {digit};
    }
  }

  /**
   * `only_choice`: runs the digit checks over each unit of the chosen
   * variant in order. It only ever narrows a box to one of its candidates,
   * and never loses a solution.
   */
  method OnlyChoice(values: array<set<int>>, diagonal: bool)
    requires values.Length == 81
    modifies values
    ensures values[..] == PlaceUnits(old(values[..]), UnitList(diagonal))
    ensures Pinned(values[..], old(values[..]))
    ensures KeepsSolutions(diagonal, values[..], old(values[..]))
  {
    ghost var g0 := values[..];
    var units := UnitList(diagonal);
    for i := 0 to |units|
      invariant PlaceUnits(values[..], units[i..]) == PlaceUnits(g0, units)
    {
      PlaceUnitDigits(values, units[i]);
      assert units[i..][1..] == units[i + 1..];
    }
    assert units[|units|..] == [];
    PlaceUnitsSound(diagonal, g0, units);
  }

  // ---------------------------------------------------------------------
  // Naked twins (lines 32-73)

  /**
   * `a` and `b` are naked twins: peers with the same two candidates. Line 39
   * compares `values[peer]` with itself, which always holds; the comparison
   * meant, and modelled, is with `values[box]`.
   */
  predicate IsTwinPair(diagonal: bool, g: Cells, a: int, b: int)
  {
    0 <= a < |g| && 0 <= b < |g| && b in Peers(diagonal, a) && |g[a]| == 2 && g[b] == g[a]
  }

  /** Line 39 as written: the peer's candidates are compared with themselves. */
  predicate IsTwinPairAsWritten(diagonal: bool, g: Cells, a: int, b: int)
  {
    0 <= a < |g| && 0 <= b < |g| && b in Peers(diagonal, a) && |g[a]| == 2 && g[b] == g[b]
  }

  /** A1 = {1, 2}, A2 = {3, 4}, every other box open. */
  function TautologyWitness(): Cells
  {
    seq(81, b => if b == 0 then {1, 2} else if b == 1 then {3, 4} else AllDigits)
  }

  /** The test as written pairs A1 with A2 although they do not hold the same candidates. */
  lemma TautologicalTwinTest()
    ensures IsTwinPairAsWritten(false, TautologyWitness(), 0, 1)
    ensures !IsTwinPair(false, TautologyWitness(), 0, 1)
  {
    var g := TautologyWitness();
    InPeers(false, 0, 1);
    assert RowOf(0) == RowOf(1);
    assert |g[0]| == 2 by { assert g[0] == {1} + {2}; }
    assert 3 in g[1] && 3 !in g[0];
  }

  /** `q` is a box the pair `t` clears: a peer of both twins and neither twin itself. */
  predicate CommonPeer(diagonal: bool, t: (int, int), q: int)
  {
    IsBox(q) && q in Peers(diagonal, t.0) && q in Peers(diagonal, t.1) && q != t.0 && q != t.1
  }

  /** Two different solved boxes inside the same pair of candidates take both of them. */
  lemma PairTaken(pair: set<int>, x: set<int>, y: set<int>, z: set<int>)
    requires |pair| == 2 && |x| == 1 && |y| == 1 && |z| == 1
    requires x <= pair && y <= pair && x != y && z != x && z != y
    ensures z !! pair
  {
    var dx := MemberOf(x);
    SingletonIs(x, dx);
    var dy := MemberOf(y);
    SingletonIs(y, dy);
    var dz := MemberOf(z);
    SingletonIs(z, dz);
    SubsetCard({dx, dy}, pair);
    assert pair == {dx, dy};
  }

  /** In a solution the twins hold their two digits between them, so a common peer holds neither. */
  lemma TwinsExclude(diagonal: bool, g: Cells, a: int, b: int, q: int, s: Cells)
    requires IsTwinPair(diagonal, g, a, b) && CommonPeer(diagonal, (a, b), q)
    requires IsSolution(diagonal, s) && Refines(s, g)
    ensures s[q] !! g[a]
  {
    SolutionPeersDiffer(diagonal, s, a, b);
    SolutionPeersDiffer(diagonal, s, a, q);
    SolutionPeersDiffer(diagonal, s, b, q);
    PairTaken(g[a], s[a], s[b], s[q]);
  }

  /**
   * `find_naked_twins_unit`: for each box of the unit with two candidates,
   * in unit order, the pairs (box, peer) for every peer of that box, in box
   * order, holding the same two candidates. The source returns `False`
   * instead of an empty list; both mean "no twins" to its caller.
   */
  method FindNakedTwinsUnit(g: Cells, u: seq<int>, diagonal: bool) returns (twins: seq<(int, int)>)
    requires |g| == 81 && forall i :: 0 <= i < |u| ==> IsBox(u[i])
    ensures forall j :: 0 <= j < |twins| ==> twins[j].0 in u && IsTwinPair(diagonal, g, twins[j].0, twins[j].1)
    ensures forall a, b :: a in u && IsTwinPair(diagonal, g, a, b) ==> (a, b) in twins
  {
    twins := [];
    for i := 0 to |u|
      invariant forall j :: 0 <= j < |twins| ==> twins[j].0 in u && IsTwinPair(diagonal, g, twins[j].0, twins[j].1)
      invariant forall j, b :: 0 <= j < i && IsTwinPair(diagonal, g, u[j], b) ==> (u[j], b) in twins
    {
      var box := u[i];
      if |g[box]| == 2 {
        for peer := 0 to 81
          invariant forall j :: 0 <= j < |twins| ==> twins[j].0 in u && IsTwinPair(diagonal, g, twins[j].0, twins[j].1)
          invariant forall j, b :: 0 <= j < i && IsTwinPair(diagonal, g, u[j], b) ==> (u[j], b) in twins
          invariant forall b :: 0 <= b < peer && IsTwinPair(diagonal, g, box, b) ==> (box, b) in twins
        {
          if peer in Peers(diagonal, box) && g[peer] == g[box] && box != peer {
            twins := twins + [(box, peer)];
          }
        }
        forall b | IsTwinPair(diagonal, g, box, b)
          ensures (box, b) in twins
        {
          PeerRelation(diagonal, box, b);
        }
      }
    }
  }

  /**
   * One of the first `n` pairs has `q` as a common peer and `x` as a twin
   * digit, and `q` holds neither of its twin digits in `g'`.
   */
  ghost predicate ClearedBy(diagonal: bool, g: Cells, g': Cells, twins: seq<(int, int)>, n: int, q: int, x: int)
  {
    exists j :: 0 <= j < n && j < |twins| && CommonPeer(diagonal, twins[j], q) && 0 <= twins[j].0 < |g| && x in g[twins[j].0] &&
      0 <= q < |g'| && g'[q] !! g[twins[j].0]
  }

  /** Removing only digits that some pair of naked twins rules out loses no solution. */
  lemma TwinRemovalSound(diagonal: bool, g0: Cells, g1: Cells, twins: seq<(int, int)>)
    requires Refines(g1, g0)
    requires forall j :: 0 <= j < |twins| ==> IsTwinPair(diagonal, g0, twins[j].0, twins[j].1)
    requires forall q, x :: 0 <= q < |g0| && x in g0[q] && x !in g1[q] ==> ClearedBy(diagonal, g0, g1, twins, |twins|, q, x)
    ensures KeepsSolutions(diagonal, g1, g0)
  {
    forall s, q, x | IsSolution(diagonal, s) && Refines(s, g0) && 0 <= q < |g0| && x in s[q]
      ensures x in g1[q]
    {
      if x !in g1[q] {
        var j :| 0 <= j < |twins| && CommonPeer(diagonal, twins[j], q) && 0 <= twins[j].0 < |g0| && x in g0[twins[j].0];
        TwinsExclude(diagonal, g0, twins[j].0, twins[j].1, q, s);
        assert false;
      }
    }
  }

  /**
   * The grid after one pair's pass: each common peer of the twins `a` and
   * `b` that had more than two candidates loses the twin digits.
   */
  function ClearPair(diagonal: bool, g: Cells, a: int, b: int, pair: set<int>): (r: Cells)
    ensures Refines(r, g)
    ensures forall q :: 0 <= q < |g| && |g[q]| <= 2 ==> r[q] == g[q]
  {
    seq(|g|, q requires 0 <= q < |g| => if CommonPeer(diagonal, (a, b), q) && |g[q]| > 2 then g[q] - pair else g[q])
  }

  /**
   * The grid after the passes for the first `k` pairs of `twins`, each
   * taking its two digits from the first twin's candidates at that point.
   */
  function ClearPairs(diagonal: bool, g: Cells, twins: seq<(int, int)>, k: int): (r: Cells)
    requires 0 <= k <= |twins| && forall j :: 0 <= j < |twins| ==> 0 <= twins[j].0 < |g|
    ensures Refines(r, g)
    ensures forall q :: 0 <= q < |g| && |g[q]| <= 2 ==> r[q] == g[q]
    decreases k
  {
    if k == 0 then g
    else
      var h := ClearPairs(diagonal, g, twins, k - 1);
      ClearPair(diagonal, h, twins[k - 1].0, twins[k - 1].1, h[twins[k - 1].0])
  }

  /**
   * The passes over `twins` empty no box, and every digit they remove is
   * one of the two candidates of a pair whose common peer the box is.
   */
  lemma ClearPairsKeeps(diagonal: bool, g: Cells, twins: seq<(int, int)>, k: int)
    requires 0 <= k <= |twins| && forall j :: 0 <= j < |twins| ==> 0 <= twins[j].0 < |g| && |g[twins[j].0]| == 2
    ensures forall q :: 0 <= q < |g| && g[q] != {} ==> ClearPairs(diagonal, g, twins, k)[q] != {}
    ensures forall q, x :: 0 <= q < |g| && x in g[q] && x !in ClearPairs(diagonal, g, twins, k)[q] ==>
      ClearedBy(diagonal, g, ClearPairs(diagonal, g, twins, k), twins, k, q, x)
    decreases k
  {
    if k > 0 {
      ClearPairsKeeps(diagonal, g, twins, k - 1);
      var h := ClearPairs(diagonal, g, twins, k - 1);
      var r := ClearPairs(diagonal, g, twins, k);
      var pair := h[twins[k - 1].0];
      forall q | 0 <= q < |g| && g[q] != {}
        ensures r[q] != {}
      {
        DifferenceCard(h[q], pair);
      }
      forall q, x | 0 <= q < |g| && x in g[q] && x !in r[q]
        ensures ClearedBy(diagonal, g, ClearPairs(diagonal, g, twins, k), twins, k, q, x)
      {
        if x in h[q] {
          assert pair == g[twins[k - 1].0];
          assert CommonPeer(diagonal, twins[k - 1], q) && x in g[twins[k - 1].0] && r[q] !! g[twins[k - 1].0];
        } else {
          var j :| 0 <= j < k - 1 && j < |twins| && CommonPeer(diagonal, twins[j], q) && 0 <= twins[j].0 < |g| && x in g[twins[j].0] &&
            h[q] !! g[twins[j].0];
          assert r[q] !! g[twins[j].0];
        }
      }
    }
  }

  /**
   * The passes over `twins` clear every common peer of each pair: it ends
   * with neither twin digit, or with two candidates or fewer.
   */
  lemma ClearPairsClears(diagonal: bool, g: Cells, twins: seq<(int, int)>, k: int)
    requires 0 <= k <= |twins| && forall j :: 0 <= j < |twins| ==> 0 <= twins[j].0 < |g| && |g[twins[j].0]| == 2
    ensures forall j, q :: 0 <= j < k && 0 <= q < |g| && CommonPeer(diagonal, twins[j], q) ==>
      ClearPairs(diagonal, g, twins, k)[q] !! g[twins[j].0] || |ClearPairs(diagonal, g, twins, k)[q]| <= 2
    decreases k
  {
    if k > 0 {
      ClearPairsClears(diagonal, g, twins, k - 1);
      var h := ClearPairs(diagonal, g, twins, k - 1);
      var r := ClearPairs(diagonal, g, twins, k);
      forall j, q | 0 <= j < k && 0 <= q < |g| && CommonPeer(diagonal, twins[j], q)
        ensures r[q] !! g[twins[j].0] || |r[q]| <= 2
      {
        SubsetCard(r[q], h[q]);
      }
    }
  }

  /**
   * What the pass for one pair (the body of the loop over `naked_twins` in
   * `remove_naked_twins_unit`) does: each common peer of the twins `a` and
   * `b`, in box order, that is neither twin and still has more than two
   * candidates loses the first and then the second digit of `a`'s
   * candidate string (its smaller, then its larger candidate), each
   * through `assign_value`.
   */
  method ClearTwinDigits(values: array<set<int>>, a: int, b: int, diagonal: bool, trace: Trace)
    requires values.Length == 81 && 0 <= a < 81 && |values[a]| == 2 && values[a] <= AllDigits
    modifies values, trace
    ensures values[..] == ClearPair(diagonal, old(values[..]), a, b, old(values[a]))
    ensures old(trace.snapshots) <= trace.snapshots
  {
    var lo := Least(values[a]);
    DifferenceCard(values[a], {lo});
    var hi := Least(values[a] - {lo});
    assert values[a] == {lo, hi} by {
      SubsetCard({lo, hi}, values[a]);
    }
    ghost var before := values[..];
    for p := 0 to 81
      invariant forall q :: 0 <= q < 81 ==>
        values[q] == if q < p && CommonPeer(diagonal, (a, b), q) && |before[q]| > 2 then before[q] - {lo, hi} else before[q]
      invariant old(trace.snapshots) <= trace.snapshots
    {
      if p in Peers(diagonal, a) && p in Peers(diagonal, b) && p != a && p != b && |values[p]| > 2 {
        RemoveTwoDigits(values, p, lo, hi, trace);
      }
    }
    ghost var cleared := ClearPair(diagonal, before, a, b, {lo, hi});
    assert forall q :: 0 <= q < 81 ==> values[q] == cleared[q];
  }

  /** Lines 52-53: box `p` loses `lo`, then `hi`, each through `assign_value`. */
  method RemoveTwoDigits(values: array<set<int>>, p: int, lo: int, hi: int, trace: Trace)
    requires 0 <= p < values.Length
    modifies values, trace
    ensures values[p] == old(values[p]) - {lo, hi}
    ensures forall q :: 0 <= q < values.Length && q != p ==> values[q] == old(values[q])
    ensures old(trace.snapshots) <= trace.snapshots
  {
    AssignValue(values, p, values[p] - {lo}, trace);
    AssignValue(values, p, values[p] - {hi}, trace);
  }

  /** `remove_naked_twins_unit`: the pass of `ClearTwinDigits` for each pair in turn. */
  method RemoveNakedTwinsUnit(values: array<set<int>>, twins: seq<(int, int)>, diagonal: bool, trace: Trace)
    requires values.Length == 81 && WellFormed(values[..])
    requires forall j :: 0 <= j < |twins| ==> 0 <= twins[j].0 < 81 && |values[twins[j].0]| == 2
    modifies values, trace
    ensures values[..] == ClearPairs(diagonal, old(values[..]), twins, |twins|)
    ensures Refines(values[..], old(values[..]))
    ensures forall q :: 0 <= q < 81 && |old(values[q])| <= 2 ==> values[q] == old(values[q])
    ensures forall q :: 0 <= q < 81 && old(values[q]) != {} ==> values[q] != {}
    ensures forall q, x :: 0 <= q < 81 && x in old(values[q]) && x !in values[q] ==>
      ClearedBy(diagonal, old(values[..]), values[..], twins, |twins|, q, x)
    ensures forall j, q :: 0 <= j < |twins| && 0 <= q < 81 && CommonPeer(diagonal, twins[j], q) ==>
      values[q] !! old(values[twins[j].0]) || |values[q]| <= 2
    ensures old(trace.snapshots) <= trace.snapshots
  {
    ghost var g0 := values[..];
    for k := 0 to |twins|
      invariant values[..] == ClearPairs(diagonal, g0, twins, k)
      invariant old(trace.snapshots) <= trace.snapshots
    {
      assert values[twins[k].0] == g0[twins[k].0];
      ClearTwinDigits(values, twins[k].0, twins[k].1, diagonal, trace);
    }
    ClearPairsClears(diagonal, g0, twins, |twins|);
    ClearPairsKeeps(diagonal, g0, twins, |twins|);
  }

  /** Every common peer of the twins `a` and `b` of `g0` holds neither twin digit in `g`, or two candidates or fewer. */
  ghost predicate PairCleared(diagonal: bool, g0: Cells, g: Cells, a: int, b: int)
    requires 0 <= a < |g0|
  {
    forall q :: 0 <= q < |g| && CommonPeer(diagonal, (a, b), q) ==> g[q] !! g0[a] || |g[q]| <= 2
  }

  /** Narrowing the grid further keeps a pair's common peers cleared. */
  lemma PairClearedNarrow(diagonal: bool, g0: Cells, g: Cells, g': Cells, a: int, b: int)
    requires 0 <= a < |g0| && Refines(g', g) && PairCleared(diagonal, g0, g, a, b)
    ensures PairCleared(diagonal, g0, g', a, b)
  {
    forall q | 0 <= q < |g'| && CommonPeer(diagonal, (a, b), q)
      ensures g'[q] !! g0[a] || |g'[q]| <= 2
    {
      SubsetCard(g'[q], g[q]);
    }
  }

  /**
   * Every solution of the diagonal puzzle is a solution of the classic one,
   * so a step that keeps every classic solution keeps every diagonal one.
   */
  lemma ClassicKeepsDiagonal(g': Cells, g: Cells)
    requires KeepsSolutions(false, g', g)
    ensures KeepsSolutions(true, g', g)
  {
    forall s | IsSolution(true, s) && Refines(s, g)
      ensures Refines(s, g')
    {
      DiagonalSolutionIsClassic(s);
    }
  }

  /**
   * Digit `x` is a candidate of classic naked twins `a`, `b`, with `a` in
   * `u`, of which `q` is a common peer holding neither twin digit.
   */
  ghost predicate TwinDigitIn(g: Cells, u: seq<int>, q: int, x: int)
  {
    exists a, b :: a in u && IsTwinPair(false, g, a, b) && CommonPeer(false, (a, b), q) && x in g[a] && 0 <= q < |g| && g[q] !! g[a]
  }

  /** Digit `x` is a candidate of classic naked twins of which `q` is a common peer holding neither twin digit. */
  ghost predicate TwinDigit(g: Cells, q: int, x: int)
  {
    exists a, b :: IsTwinPair(false, g, a, b) && CommonPeer(false, (a, b), q) && x in g[a] && 0 <= q < |g| && g[q] !! g[a]
  }

  /** A step that leaves every box with two candidates or fewer alone keeps every twin pair and its candidates. */
  lemma TwinPairKept(diagonal: bool, g: Cells, g': Cells, a: int, b: int)
    requires IsTwinPair(diagonal, g, a, b)
    requires |g'| == |g| && forall q :: 0 <= q < |g| && |g[q]| <= 2 ==> g'[q] == g[q]
    ensures IsTwinPair(diagonal, g', a, b) && g'[a] == g[a]
  {
    assert g'[a] == g[a] && g'[b] == g[b];
  }

  /** Such a step, when it only narrows, keeps the twin pair that justifies a removed digit. */
  lemma TwinDigitKept(g: Cells, g': Cells, u: seq<int>, q: int, x: int)
    requires Refines(g', g) && forall p :: 0 <= p < |g| && |g[p]| <= 2 ==> g'[p] == g[p]
    ensures TwinDigitIn(g, u, q, x) ==> TwinDigitIn(g', u, q, x)
    ensures TwinDigit(g, q, x) ==> TwinDigit(g', q, x)
  {
    if TwinDigitIn(g, u, q, x) {
      var a, b :| a in u && IsTwinPair(false, g, a, b) && CommonPeer(false, (a, b), q) && x in g[a] && 0 <= q < |g| && g[q] !! g[a];
      TwinPairKept(false, g, g', a, b);
    }
    if TwinDigit(g, q, x) {
      var a, b :| IsTwinPair(false, g, a, b) && CommonPeer(false, (a, b), q) && x in g[a] && 0 <= q < |g| && g[q] !! g[a];
      TwinPairKept(false, g, g', a, b);
    }
  }

  /**
   * After one removal over `twins`, every digit lost since `g0` is still a
   * twin digit of a pair, with its first box in `u`, whose common peer lost it.
   */
  lemma TwinRemovalJustified(g0: Cells, g: Cells, g': Cells, u: seq<int>, twins: seq<(int, int)>)
    requires |g0| == 81 && |g| == 81 && Refines(g', g)
    requires forall j :: 0 <= j < |twins| ==> twins[j].0 in u && IsTwinPair(false, g, twins[j].0, twins[j].1)
    requires forall q :: 0 <= q < 81 && |g[q]| <= 2 ==> g'[q] == g[q]
    requires forall q, x :: 0 <= q < 81 && x in g[q] && x !in g'[q] ==> ClearedBy(false, g, g', twins, |twins|, q, x)
    requires forall q, x :: 0 <= q < 81 && x in g0[q] && x !in g[q] ==> TwinDigitIn(g, u, q, x)
    ensures forall q, x :: 0 <= q < 81 && x in g0[q] && x !in g'[q] ==> TwinDigitIn(g', u, q, x)
  {
    forall q, x | 0 <= q < 81 && x in g0[q] && x !in g'[q]
      ensures TwinDigitIn(g', u, q, x)
    {
      if x in g[q] {
        var j :| 0 <= j < |twins| && CommonPeer(false, twins[j], q) && 0 <= twins[j].0 < 81 && x in g[twins[j].0] && g'[q] !! g[twins[j].0];
        TwinPairKept(false, g, g', twins[j].0, twins[j].1);
        assert twins[j].0 in u;
      } else {
        TwinDigitKept(g, g', u, q, x);
      }
    }
  }

  /**
   * One step of `naked_twins`' loop (lines 68-71): finds the twin pairs of
   * unit `u` and, when there are some, runs the removal once per pair
   * found. Line 71 passes the pair (`value`) where the grid (`values`) is
   * meant; the grid is passed here.
   */
  method NakedTwinsInUnit(values: array<set<int>>, u: seq<int>, trace: Trace)
    requires values.Length == 81 && WellFormed(values[..]) && forall i :: 0 <= i < |u| ==> IsBox(u[i])
    modifies values, trace
    ensures Refines(values[..], old(values[..]))
    ensures forall q :: 0 <= q < 81 && |old(values[q])| <= 2 ==> values[q] == old(values[q])
    ensures forall q :: 0 <= q < 81 && old(values[q]) != {} ==> values[q] != {}
    ensures forall a, b :: a in u && IsTwinPair(false, old(values[..]), a, b) ==> PairCleared(false, old(values[..]), values[..], a, b)
    ensures forall q, x :: 0 <= q < 81 && x in old(values[q]) && x !in values[q] ==> TwinDigitIn(values[..], u, q, x)
    ensures KeepsSolutions(false, values[..], old(values[..]))
    ensures old(trace.snapshots) <= trace.snapshots
  {
    ghost var g0 := values[..];
    var twins := FindNakedTwinsUnit(values[..], u, false);
    if |twins| > 0 {
      for k := 0 to |twins|
        invariant Refines(values[..], g0) && WellFormed(values[..])
        invariant forall q :: 0 <= q < 81 && |g0[q]| <= 2 ==> values[q] == g0[q]
        invariant forall q :: 0 <= q < 81 && g0[q] != {} ==> values[q] != {}
        invariant k > 0 ==> forall a, b :: a in u && IsTwinPair(false, g0, a, b) ==> PairCleared(false, g0, values[..], a, b)
        invariant forall q, x :: 0 <= q < 81 && x in g0[q] && x !in values[q] ==> TwinDigitIn(values[..], u, q, x)
        invariant KeepsSolutions(false, values[..], g0)
        invariant old(trace.snapshots) <= trace.snapshots
        invariant forall j :: 0 <= j < |twins| ==> IsTwinPair(false, values[..], twins[j].0, twins[j].1)
      {
        ghost var before := values[..];
        RemoveNakedTwinsUnit(values, twins, false, trace);
        TwinRemovalSound(false, before, values[..], twins);
        forall a, b | a in u && IsTwinPair(false, g0, a, b)
          ensures PairCleared(false, g0, values[..], a, b)
        {
          if k > 0 {
            PairClearedNarrow(false, g0, before, values[..], a, b);
          } else {
            var j :| 0 <= j < |twins| && twins[j] == (a, b);
          }
        }
        TwinRemovalJustified(g0, before, values[..], u, twins);
      }
    }
  }

  /**
   * `naked_twins`: the twin search and removal of `NakedTwinsInUnit` over
   * each unit of the classic `unitlist`, with the classic `peers`. Every
   * pair of twins of the input grid ends with its common peers cleared.
   */
  method NakedTwins(values: array<set<int>>, trace: Trace)
    requires values.Length == 81 && WellFormed(values[..])
    modifies values, trace
    ensures Refines(values[..], old(values[..]))
    ensures forall q :: 0 <= q < 81 && |old(values[q])| <= 2 ==> values[q] == old(values[q])
    ensures forall q :: 0 <= q < 81 && old(values[q]) != {} ==> values[q] != {}
    ensures forall a, b :: IsTwinPair(false, old(values[..]), a, b) ==> PairCleared(false, old(values[..]), values[..], a, b)
    ensures forall q, x :: 0 <= q < 81 && x in old(values[q]) && x !in values[q] ==> TwinDigit(values[..], q, x)
    ensures KeepsSolutions(false, values[..], old(values[..])) && KeepsSolutions(true, values[..], old(values[..]))
    ensures old(trace.snapshots) <= trace.snapshots
  {
    ghost var g0 := values[..];
    var units := StandardUnits();
    UnitListWellFormed(false);
    for i := 0 to |units|
      invariant Refines(values[..], g0) && WellFormed(values[..])
      invariant forall q :: 0 <= q < 81 && |g0[q]| <= 2 ==> values[q] == g0[q]
      invariant forall q :: 0 <= q < 81 && g0[q] != {} ==> values[q] != {}
      invariant forall j, a, b :: 0 <= j < i && a in units[j] && IsTwinPair(false, g0, a, b) ==> PairCleared(false, g0, values[..], a, b)
      invariant forall q, x :: 0 <= q < 81 && x in g0[q] && x !in values[q] ==> TwinDigit(values[..], q, x)
      invariant KeepsSolutions(false, values[..], g0)
      invariant old(trace.snapshots) <= trace.snapshots
    {
      assert units[i] in UnitList(false);
      ghost var before := values[..];
      NakedTwinsInUnit(values, units[i], trace);
      KeepsSolutionsTransitive(false, g0, before, values[..]);
      forall j, a, b | 0 <= j <= i && a in units[j] && IsTwinPair(false, g0, a, b)
        ensures PairCleared(false, g0, values[..], a, b)
      {
        if j < i {
          PairClearedNarrow(false, g0, before, values[..], a, b);
        } else {
          assert IsTwinPair(false, before, a, b);
        }
      }
      forall q, x | 0 <= q < 81 && x in g0[q] && x !in values[q]
        ensures TwinDigit(values[..], q, x)
      {
        if x in before[q] {
          var a, b :| a in units[i] && IsTwinPair(false, values[..], a, b) && CommonPeer(false, (a, b), q) && x in values[a] && values[q] !! values[a];
        } else {
          TwinDigitKept(before, values[..], units[i], q, x);
        }
      }
    }
    forall a, b | IsTwinPair(false, g0, a, b)
      ensures PairCleared(false, g0, values[..], a, b)
    {
      InRow(RowOf(a), a);
      assert a in units[9 + RowOf(a)];
    }
    ClassicKeepsDiagonal(values[..], g0);
  }

  // ---------------------------------------------------------------------
  // The fixed point (lines 153-176)

  /** Narrowing steps compose: a chain of them narrows, and keeps every solution. */
  lemma NarrowingChain(diagonal: bool, g0: Cells, g1: Cells, g2: Cells, g3: Cells)
    requires Refines(g1, g0) && Refines(g2, g1) && Refines(g3, g2)
    requires KeepsSolutions(diagonal, g1, g0) && KeepsSolutions(diagonal, g2, g1) && KeepsSolutions(diagonal, g3, g2)
    ensures Refines(g3, g0) && Refines(g3, g1) && KeepsSolutions(diagonal, g3, g0)
  {
  }

  /**
   * A pass that leaves the solved count where it was, and empties no box,
   * leaves the grid settled: the solved boxes are the ones elimination
   * started from, and it cleared their digits from their peers.
   */
  lemma SettledAfterStall(diagonal: bool, start: Cells, eliminated: Cells, end: Cells)
    requires |start| == 81 && Refines(eliminated, start) && Refines(end, eliminated) && NoEmpty(end)
    requires PeersCleared(diagonal, start, eliminated)
    requires CountSolved(end) == CountSolved(start)
    ensures Settled(diagonal, end)
  {
    CountSolvedMonotone(end, start);
    forall b, p | 0 <= b < 81 && 0 <= p < 81 && |end[b]| == 1 && p in Peers(diagonal, b)
      ensures end[b] !! end[p]
    {
      assert |start[b]| == 1 && eliminated[b] != {};
    }
  }

  /**
   * One pass of `reduce_puzzle`'s loop: elimination, then only-choice, then
   * naked twins. A pass that empties no box and solves no new box leaves the
   * grid settled.
   */
  method ReducePass(values: array<set<int>>, diagonal: bool, trace: Trace)
    requires values.Length == 81 && WellFormed(values[..])
    modifies values, trace
    ensures Refines(values[..], old(values[..]))
    ensures KeepsSolutions(diagonal, values[..], old(values[..]))
    ensures NoEmpty(values[..]) && CountSolved(values[..]) == CountSolved(old(values[..])) ==> Settled(diagonal, values[..])
    ensures old(trace.snapshots) <= trace.snapshots
  {
    ghost var start := values[..];
    Eliminate(values, diagonal);
    ghost var eliminated := values[..];
    OnlyChoice(values, diagonal);
    ghost var chosen := values[..];
    NakedTwins(values, trace);
    NarrowingChain(diagonal, start, eliminated, chosen, values[..]);
    if NoEmpty(values[..]) && CountSolved(values[..]) == CountSolved(start) {
      SettledAfterStall(diagonal, start, eliminated, values[..]);
    }
  }

  /**
   * `reduce_puzzle`: passes until one leaves the number of solved boxes
   * unchanged; `false` (the source's `False`) as soon as a pass leaves some
   * box without candidates. The loop ends because the solved count never
   * falls, is at most 81, and rises on every pass that does not stop it.
   */
  method ReducePuzzle(values: array<set<int>>, diagonal: bool, trace: Trace) returns (ok: bool)
    requires values.Length == 81 && WellFormed(values[..])
    modifies values, trace
    ensures Refines(values[..], old(values[..]))
    ensures KeepsSolutions(diagonal, values[..], old(values[..]))
    ensures ok <==> NoEmpty(values[..])
    ensures ok ==> Settled(diagonal, values[..])
    ensures old(trace.snapshots) <= trace.snapshots
  {
    ghost var g0 := values[..];
    var stalled := false;
    while !stalled
      invariant Refines(values[..], g0) && WellFormed(values[..])
      invariant KeepsSolutions(diagonal, values[..], g0)
      invariant stalled ==> NoEmpty(values[..]) && Settled(diagonal, values[..])
      invariant old(trace.snapshots) <= trace.snapshots
      decreases 81 - CountSolved(values[..]) + (if stalled then 0 else 1)
    {
      var solvedBefore := CountSolved(values[..]);
      ghost var start := values[..];
      ReducePass(values, diagonal, trace);
      var solvedAfter := CountSolved(values[..]);
      stalled := solvedBefore == solvedAfter;
      if exists b :: 0 <= b < 81 && values[b] == {} {
        return false;
      }
      CountSolvedMonotone(values[..], start);
    }
    return true;
  }
}
