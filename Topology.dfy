/// The fixed structure of a 9x9 board (solution.py, lines 3-16 and 81-87):
/// the 81 box names, the units (all-different constraints) and the peers
/// of every box, for the classic board and for the diagonal variant.
///
/// Boxes are numbered 0..80 in row-major order, the order in which
/// `cross(rows, cols)` lists the names A1, A2, ..., I9.
module Topology {

  const Rows: string := "ABCDEFGHI"
  const Cols: string := "123456789"

  predicate IsBox(b: int) { 0 <= b < 81 }

  function RowOf(b: int): int { b / 9 }
  function ColOf(b: int): int { b % 9 }
  function BlockOf(b: int): int { 3 * (RowOf(b) / 3) + ColOf(b) / 3 }

  /** The name of box `b`: its row letter followed by its column digit. */
  function BoxName(b: int): string
    requires IsBox(b)
  {
    [Rows[RowOf(b)], Cols[ColOf(b)]]
  }

  /** Every pairing of a character of `a` with a character of `b`, `a` in the outer loop. */
  function Cross(a: string, b: string): seq<string>
  {
    if a == [] then []
    else seq(|b|, j requires 0 <= j < |b| => [a[0], b[j]]) + Cross(a[1..], b)
  }

  lemma {:induction false} CrossLength(a: string, b: string)
    ensures |Cross(a, b)| == |a| * |b|
  {
    if a != [] {
      CrossLength(a[1..], b);
      assert |a| * |b| == |b| + (|a| - 1) * |b|;
    }
  }

  /** The pair (a[i], b[j]) sits at position i * |b| + j: row-major order. */
  lemma {:induction false} CrossAt(a: string, b: string, i: int, j: int)
    requires 0 <= i < |a| && 0 <= j < |b|
    ensures i * |b| + j < |Cross(a, b)| && Cross(a, b)[i * |b| + j] == [a[i], b[j]]
  {
    CrossLength(a, b);
    var n := |b|;
    RowMajorBound(i, j, |a|, n);
    var head := seq(n, k requires 0 <= k < n => [a[0], b[k]]);
    assert Cross(a, b) == head + Cross(a[1..], b);
    if i == 0 {
      assert Cross(a, b)[j] == head[j];
    } else {
      CrossAt(a[1..], b, i - 1, j);
      RowMajorStep(i, j, |a|, n);
      var k := (i - 1) * n + j;
      assert Cross(a, b)[n + k] == Cross(a[1..], b)[k];
    }
  }

  lemma {:induction false} RowMajorBound(i: int, j: int, m: int, n: int)
    requires 0 <= i < m && 0 <= j < n
    ensures i * n + j < m * n
  {
    assert m * n == (m - 1) * n + n;
    if i < m - 1 {
      RowMajorBound(i, j, m - 1, n);
    }
  }

  lemma RowMajorStep(i: int, j: int, m: int, n: int)
    requires 0 < i < m && 0 <= j < n
    ensures i * n + j == n + ((i - 1) * n + j)
    ensures (i - 1) * n + j < (m - 1) * n
  {
    RowMajorBound(i - 1, j, m - 1, n);
  }

  /** `boxes = cross(rows, cols)` lists the 81 names in row-major order. */
  lemma BoxesInRowMajorOrder()
    ensures |Cross(Rows, Cols)| == 81
    ensures forall b :: IsBox(b) ==> Cross(Rows, Cols)[b] == BoxName(b)
  {
    CrossLength(Rows, Cols);
    forall b | IsBox(b)
      ensures Cross(Rows, Cols)[b] == BoxName(b)
    {
      CrossAt(Rows, Cols, b / 9, b % 9);
    }
  }

  /** The 81 names are pairwise distinct, so a box index identifies its name. */
  lemma BoxNamesDistinct(b1: int, b2: int)
    requires IsBox(b1) && IsBox(b2) && b1 != b2
    ensures BoxName(b1) != BoxName(b2)
  {
    if RowOf(b1) != RowOf(b2) {
      assert Rows[RowOf(b1)] != Rows[RowOf(b2)];
    } else {
      assert Cols[ColOf(b1)] != Cols[ColOf(b2)];
    }
  }

  /** Python's `<` on strings: lexicographic, character by character. */
  predicate NameBefore(x: string, y: string)
  {
    if x == [] then y != []
    else if y == [] then false
    else x[0] < y[0] || (x[0] == y[0] && NameBefore(x[1..], y[1..]))
  }

  /** The row letters and the column digits are listed in increasing order. */
  lemma LabelsAscending(i: int, j: int)
    requires 0 <= i < 9 && 0 <= j < 9
    ensures Rows[i] < Rows[j] <==> i < j
    ensures Cols[i] < Cols[j] <==> i < j
  {
    assert forall k :: 0 <= k < 9 ==> Rows[k] as int == 'A' as int + k && Cols[k] as int == '1' as int + k;
  }

  /**
   * Comparing boxes by index is comparing their names as strings, so a tie
   * broken by the smaller name (line 188) is broken by the smaller index.
   */
  lemma BoxOrderIsNameOrder(b1: int, b2: int)
    requires IsBox(b1) && IsBox(b2)
    ensures b1 < b2 <==> NameBefore(BoxName(b1), BoxName(b2))
  {
    var r1, c1, r2, c2 := RowOf(b1), ColOf(b1), RowOf(b2), ColOf(b2);
    assert b1 == 9 * r1 + c1 && b2 == 9 * r2 + c2;
    assert 0 <= r1 < 9 && 0 <= c1 < 9 && 0 <= r2 < 9 && 0 <= c2 < 9;
    LabelsAscending(r1, r2);
    LabelsAscending(c1, c2);
    LabelsAscending(r2, r1);
    var n1, n2 := BoxName(b1), BoxName(b2);
    assert n1[1..] == [Cols[c1]] && n2[1..] == [Cols[c2]];
    assert NameBefore(n1, n2) <==> Rows[r1] < Rows[r2] || (Rows[r1] == Rows[r2] && NameBefore([Cols[c1]], [Cols[c2]]));
    assert NameBefore([Cols[c1]], [Cols[c2]]) <==> Cols[c1] < Cols[c2];
  }

  // ---------------------------------------------------------------------
  // Units

  function Column(c: int): seq<int>
    requires 0 <= c < 9
  {
    seq(9, r => 9 * r + c)
  }

  function Row(r: int): seq<int>
    requires 0 <= r < 9
  {
    seq(9, c => 9 * r + c)
  }

  /** The 3x3 block in block-row `br` and block-column `bc`, in row-major order. */
  function Block(br: int, bc: int): seq<int>
    requires 0 <= br < 3 && 0 <= bc < 3
  {
    seq(9, k => 9 * (3 * br + k / 3) + 3 * bc + k % 3)
  }

  /** A1, B2, ..., I9. */
  function Diagonal1(): seq<int>
  {
    seq(9, i => 9 * i + i)
  }

  /** A9, B8, ..., I1: row i meets the reversed column string at position i. */
  function Diagonal2(): seq<int>
  {
    seq(9, i => 9 * i + (8 - i))
  }

  /** `unitlist`: the 9 columns, then the 9 rows, then the 9 blocks. */
  function StandardUnits(): seq<seq<int>>
  {
    seq(27, u requires 0 <= u < 27 =>
      if u < 9 then Column(u)
      else if u < 18 then Row(u - 9)
      else Block((u - 18) / 3, (u - 18) % 3))
  }

  /**
   * The unit list of the chosen variant. For the diagonal variant the two
   * diagonals come first, as `diag_unitlist` puts them in front of `unitlist`;
   * they are two units of 9 boxes each (line 85 joins them into one list of
   * 18 boxes, which is not an all-different constraint of the puzzle).
   */
  function UnitList(diagonal: bool): seq<seq<int>>
  {
    if diagonal then [Diagonal1(), Diagonal2()] + StandardUnits() else StandardUnits()
  }

  /** Line 85 as written: both diagonals joined into a single list of 18 boxes. */
  function JoinedDiagonals(): seq<int>
  {
    Diagonal1() + Diagonal2()
  }

  /** The units of `us` that contain `s`, in order (`units[s]`). */
  function Containing(us: seq<seq<int>>, s: int): (r: seq<seq<int>>)
    ensures |r| <= |us|
    ensures forall u :: u in r <==> u in us && s in u
  {
    if us == [] then []
    else (if s in us[0] then [us[0]] else []) + Containing(us[1..], s)
  }

  /** The concatenation of a list of units (`sum(units[s], [])`). */
  function Flatten(us: seq<seq<int>>): (r: seq<int>)
    ensures forall b :: b in r <==> exists u :: u in us && b in u
  {
    if us == [] then [] else us[0] + Flatten(us[1..])
  }

  function UnitsOf(diagonal: bool, s: int): seq<seq<int>>
  {
    Containing(UnitList(diagonal), s)
  }

  /** `peers[s]`: every box of every unit containing `s`, without `s` itself. */
  function UnitPeers(diagonal: bool, s: int): set<int>
  {
    (set b | b in Flatten(UnitsOf(diagonal, s))) - {s}
  }

  // ---------------------------------------------------------------------
  // Properties of the units

  /** A unit lists 9 distinct boxes. */
  predicate IsUnit(u: seq<int>)
  {
    && |u| == 9
    && (forall i :: 0 <= i < 9 ==> IsBox(u[i]))
    && (forall i, j :: 0 <= i < j < 9 ==> u[i] != u[j])
  }

  lemma UnitListWellFormed(diagonal: bool)
    ensures |UnitList(diagonal)| == if diagonal then 29 else 27
    ensures forall u :: u in UnitList(diagonal) ==> IsUnit(u)
  {
    forall u | u in StandardUnits()
      ensures IsUnit(u)
    {
      var k :| 0 <= k < 27 && StandardUnits()[k] == u;
      if k >= 18 {
        BlockIsUnit((k - 18) / 3, (k - 18) % 3);
      }
    }
  }

  /** A block lists 9 distinct boxes. */
  lemma BlockIsUnit(br: int, bc: int)
    requires 0 <= br < 3 && 0 <= bc < 3
    ensures IsUnit(Block(br, bc))
  {
    var u := Block(br, bc);
    forall i, j | 0 <= i < j < 9
      ensures u[i] != u[j]
    {
      assert u[i] == 27 * br + 3 * bc + 9 * (i / 3) + i % 3;
      assert u[j] == 27 * br + 3 * bc + 9 * (j / 3) + j % 3;
    }
  }

  lemma InColumn(c: int, b: int)
    requires 0 <= c < 9
    ensures b in Column(c) <==> IsBox(b) && ColOf(b) == c
  {
    if IsBox(b) && ColOf(b) == c {
      assert Column(c)[b / 9] == b;
    }
  }

  lemma InRow(r: int, b: int)
    requires 0 <= r < 9
    ensures b in Row(r) <==> IsBox(b) && RowOf(b) == r
  {
    if IsBox(b) && RowOf(b) == r {
      assert Row(r)[b % 9] == b;
    }
  }

  lemma InBlock(br: int, bc: int, b: int)
    requires 0 <= br < 3 && 0 <= bc < 3
    ensures b in Block(br, bc) <==> IsBox(b) && BlockOf(b) == 3 * br + bc
  {
    if b in Block(br, bc) {
      var k :| 0 <= k < 9 && Block(br, bc)[k] == b;
      BlockEntry(br, bc, k);
    }
    if IsBox(b) && BlockOf(b) == 3 * br + bc {
      var r, c := RowOf(b), ColOf(b);
      BlockOfCoordinates(r, c, br, bc);
      var k := 3 * (r % 3) + c % 3;
      assert k / 3 == r % 3 && k % 3 == c % 3;
      BlockEntry(br, bc, k);
      assert Block(br, bc)[k] == b;
    }
  }

  /** Block number 3br + bc is block-row br and block-column bc. */
  lemma BlockOfCoordinates(r: int, c: int, br: int, bc: int)
    requires 0 <= r < 9 && 0 <= c < 9 && 0 <= br < 3 && 0 <= bc < 3
    requires 3 * (r / 3) + c / 3 == 3 * br + bc
    ensures r / 3 == br && c / 3 == bc
  {
    var x, y := r / 3, c / 3;
    assert 0 <= y < 3;
  }

  /** Entry k of block (br, bc) sits in row 3br + k/3 and column 3bc + k%3. */
  lemma BlockEntry(br: int, bc: int, k: int)
    requires 0 <= br < 3 && 0 <= bc < 3 && 0 <= k < 9
    ensures IsBox(Block(br, bc)[k])
    ensures Block(br, bc)[k] == 9 * (3 * br + k / 3) + 3 * bc + k % 3
    ensures RowOf(Block(br, bc)[k]) == 3 * br + k / 3 && ColOf(Block(br, bc)[k]) == 3 * bc + k % 3
    ensures BlockOf(Block(br, bc)[k]) == 3 * br + bc
  {
    var r, c := 3 * br + k / 3, 3 * bc + k % 3;
    assert Block(br, bc)[k] == 9 * r + c && 0 <= c < 9;
    assert r / 3 == br && c / 3 == bc;
  }

  lemma InDiagonal1(b: int)
    ensures b in Diagonal1() <==> IsBox(b) && RowOf(b) == ColOf(b)
  {
    if IsBox(b) && RowOf(b) == ColOf(b) {
      assert Diagonal1()[b / 9] == b;
    }
  }

  lemma InDiagonal2(b: int)
    ensures b in Diagonal2() <==> IsBox(b) && RowOf(b) + ColOf(b) == 8
  {
    if IsBox(b) && RowOf(b) + ColOf(b) == 8 {
      assert Diagonal2()[b / 9] == b;
    }
  }

  // ---------------------------------------------------------------------
  // Properties of the peer relation

  /** The coordinate description of "shares a row, a column, a block or a long diagonal". */
  predicate SameHouse(diagonal: bool, s: int, b: int)
  {
    || RowOf(s) == RowOf(b)
    || ColOf(s) == ColOf(b)
    || BlockOf(s) == BlockOf(b)
    || (diagonal && RowOf(s) == ColOf(s) && RowOf(b) == ColOf(b))
    || (diagonal && RowOf(s) + ColOf(s) == 8 && RowOf(b) + ColOf(b) == 8)
  }

  /**
   * The peer relation, described by coordinates: the other boxes in the
   * same row, column, 3x3 block or, in the diagonal variant, the same long
   * diagonal. `PeersAreUnitPeers` shows it is the set `peers[s]` built from
   * the unit list. `Peers(false, s)` is the classic `peers` of line 16,
   * which naked twins uses; `Peers(true, s)` is `diag_peers`, which
   * elimination uses. Line 87 indexes a list by a box name; the comment on
   * line 86 says the diagonal peers are meant to come from the unit list,
   * as line 16 builds the classic ones, and that is what is modelled.
   */
  function Peers(diagonal: bool, s: int): set<int>
  {
    set b | 0 <= b < 81 && IsBox(s) && b != s && SameHouse(diagonal, s, b)
  }

  /** `peers[s]` is exactly the boxes other than `s` that share a unit with it. */
  lemma UnitPeersShareUnit(diagonal: bool, s: int, b: int)
    ensures b in UnitPeers(diagonal, s) <==> b != s && exists u :: u in UnitList(diagonal) && s in u && b in u
  {
  }

  lemma StandardUnitInList(diagonal: bool, k: int)
    requires 0 <= k < 27
    ensures StandardUnits()[k] in UnitList(diagonal)
  {
    if diagonal {
      assert UnitList(diagonal)[k + 2] == StandardUnits()[k];
    }
  }

  lemma BlockInList(diagonal: bool, br: int, bc: int)
    requires 0 <= br < 3 && 0 <= bc < 3
    ensures Block(br, bc) in UnitList(diagonal)
  {
    assert StandardUnits()[18 + 3 * br + bc] == Block(br, bc);
    StandardUnitInList(diagonal, 18 + 3 * br + bc);
  }

  /** Units with both boxes in them sit in the same row, column, block or diagonal. */
  lemma SharedUnitIsHouse(diagonal: bool, s: int, b: int, u: seq<int>)
    requires u in UnitList(diagonal) && s in u && b in u
    ensures IsBox(s) && IsBox(b) && SameHouse(diagonal, s, b)
  {
    if u in StandardUnits() {
      var k :| 0 <= k < 27 && StandardUnits()[k] == u;
      if k < 9 {
        InColumn(k, s); InColumn(k, b);
      } else if k < 18 {
        InRow(k - 9, s); InRow(k - 9, b);
      } else {
        InBlock((k - 18) / 3, (k - 18) % 3, s); InBlock((k - 18) / 3, (k - 18) % 3, b);
      }
    } else if u == Diagonal1() {
      InDiagonal1(s); InDiagonal1(b);
    } else {
      assert u == Diagonal2();
      InDiagonal2(s); InDiagonal2(b);
    }
  }

  /** Boxes in the same row, column, block or diagonal have a unit in common. */
  lemma HouseIsSharedUnit(diagonal: bool, s: int, b: int) returns (u: seq<int>)
    requires IsBox(s) && IsBox(b) && SameHouse(diagonal, s, b)
    ensures u in UnitList(diagonal) && s in u && b in u
  {
    if RowOf(s) == RowOf(b) {
      u := Row(RowOf(s));
      StandardUnitInList(diagonal, 9 + RowOf(s));
      InRow(RowOf(s), s); InRow(RowOf(s), b);
    } else if ColOf(s) == ColOf(b) {
      u := Column(ColOf(s));
      StandardUnitInList(diagonal, ColOf(s));
      InColumn(ColOf(s), s); InColumn(ColOf(s), b);
    } else if BlockOf(s) == BlockOf(b) {
      var br, bc := RowOf(s) / 3, ColOf(s) / 3;
      u := Block(br, bc);
      BlockInList(diagonal, br, bc);
      InBlock(br, bc, s); InBlock(br, bc, b);
    } else if RowOf(s) == ColOf(s) && RowOf(b) == ColOf(b) {
      u := Diagonal1();
      InDiagonal1(s); InDiagonal1(b);
    } else {
      u := Diagonal2();
      InDiagonal2(s); InDiagonal2(b);
    }
  }

  /** The peers built from the unit list are the peers described by coordinates. */
  lemma PeersAreUnitPeers(diagonal: bool, s: int)
    ensures UnitPeers(diagonal, s) == Peers(diagonal, s)
  {
    forall b | b in UnitPeers(diagonal, s)
      ensures b in Peers(diagonal, s)
    {
      UnitPeersShareUnit(diagonal, s, b);
      var u :| u in UnitList(diagonal) && s in u && b in u;
      SharedUnitIsHouse(diagonal, s, b, u);
    }
    forall b | b in Peers(diagonal, s)
      ensures b in UnitPeers(diagonal, s)
    {
      var u := HouseIsSharedUnit(diagonal, s, b);
      UnitPeersShareUnit(diagonal, s, b);
    }
  }

  /** The peers of `s` are the boxes other than `s` that share one of its units. */
  lemma PeersShareUnit(diagonal: bool, s: int, b: int)
    ensures b in Peers(diagonal, s) <==> b != s && exists u :: u in UnitList(diagonal) && s in u && b in u
  {
    PeersAreUnitPeers(diagonal, s);
    UnitPeersShareUnit(diagonal, s, b);
  }

  /** Membership in `Peers`, spelled out. */
  lemma InPeers(diagonal: bool, s: int, b: int)
    ensures b in Peers(diagonal, s) <==> IsBox(s) && IsBox(b) && b != s && SameHouse(diagonal, s, b)
  {
  }

  /** The peer relation is irreflexive, symmetric and stays on the board. */
  lemma PeerRelation(diagonal: bool, s: int, b: int)
    ensures s !in Peers(diagonal, s)
    ensures b in Peers(diagonal, s) <==> s in Peers(diagonal, b)
    ensures b in Peers(diagonal, s) ==> IsBox(s) && IsBox(b)
  {
    InPeers(diagonal, s, b);
    InPeers(diagonal, b, s);
    assert SameHouse(diagonal, s, b) <==> SameHouse(diagonal, b, s);
  }

  /** Two different boxes of one unit are peers of each other. */
  lemma UnitMembersArePeers(diagonal: bool, u: seq<int>, i: int, j: int)
    requires u in UnitList(diagonal) && 0 <= i < |u| && 0 <= j < |u| && u[i] != u[j]
    ensures u[j] in Peers(diagonal, u[i])
  {
    PeersShareUnit(diagonal, u[i], u[j]);
  }

  // ---------------------------------------------------------------------
  // The units as lists of names

  function Names(u: seq<int>): seq<string>
    requires forall i :: 0 <= i < |u| ==> IsBox(u[i])
  {
    seq(|u|, i requires 0 <= i < |u| => BoxName(u[i]))
  }

  /** `cross(rows, c)` is column c, top to bottom. */
  lemma ColumnNames(c: int)
    requires 0 <= c < 9
    ensures Names(Column(c)) == Cross(Rows, [Cols[c]])
  {
    CrossLength(Rows, [Cols[c]]);
    forall i | 0 <= i < 9
      ensures Names(Column(c))[i] == Cross(Rows, [Cols[c]])[i]
    {
      var b := Column(c)[i];
      assert b == 9 * i + c && RowOf(b) == i && ColOf(b) == c;
      assert BoxName(b) == [Rows[i], Cols[c]];
      CrossAt(Rows, [Cols[c]], i, 0);
    }
  }

  /** `cross(r, cols)` is row r, left to right. */
  lemma RowNames(r: int)
    requires 0 <= r < 9
    ensures Names(Row(r)) == Cross([Rows[r]], Cols)
  {
    CrossLength([Rows[r]], Cols);
    forall j | 0 <= j < 9
      ensures Names(Row(r))[j] == Cross([Rows[r]], Cols)[j]
    {
      var b := Row(r)[j];
      assert b == 9 * r + j && RowOf(b) == r && ColOf(b) == j;
      assert BoxName(b) == [Rows[r], Cols[j]];
      CrossAt([Rows[r]], Cols, 0, j);
    }
  }

  /** `cross(rs, cs)` for the row triple `br` and the column triple `bc` is block (br, bc). */
  lemma BlockNames(br: int, bc: int)
    requires 0 <= br < 3 && 0 <= bc < 3
    ensures Names(Block(br, bc)) == Cross(Rows[3 * br..3 * br + 3], Cols[3 * bc..3 * bc + 3])
  {
    var rs, cs := Rows[3 * br..3 * br + 3], Cols[3 * bc..3 * bc + 3];
    CrossLength(rs, cs);
    forall k | 0 <= k < 9
      ensures Names(Block(br, bc))[k] == Cross(rs, cs)[k]
    {
      var r, c := 3 * br + k / 3, 3 * bc + k % 3;
      var b := Block(br, bc)[k];
      assert b == 9 * r + c && 0 <= c < 9;
      assert RowOf(b) == r && ColOf(b) == c;
      assert BoxName(b) == [rs[k / 3], cs[k % 3]];
      CrossAt(rs, cs, k / 3, k % 3);
      assert (k / 3) * 3 + k % 3 == k;
    }
  }

  /** `diagonal1` pairs rows[i] with cols[i]; `diagonal2` pairs rows[i] with cols reversed. */
  lemma DiagonalNames()
    ensures Names(Diagonal1()) == seq(9, i requires 0 <= i < 9 => [Rows[i], Cols[i]])
    ensures Names(Diagonal2()) == seq(9, i requires 0 <= i < 9 => [Rows[i], Cols[8 - i]])
  {
  }
}
