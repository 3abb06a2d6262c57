/** What the formula means: an assignment satisfies every clause the encoder emits exactly when it
    places one tile in every cell and adjacent cells show equal touching colours; and the decoder
    turns any satisfying model into that placement. */
module Correctness {
  import opened Tiling
  import opened Indexer
  import opened Cnf
  import opened Encoder
  import opened EncoderFacts
  import opened Decoder
  import opened DecoderFacts

  /** Some tile's variable is true at cell (i, j). */
  ghost predicate Covered(a: Assignment, k: int, T: nat, i: int, j: int)
  {
    exists t :: 0 <= t < T && a(CellTileToVar(k, T, i, j, t))
  }

  ghost predicate AtLeastOneTile(a: Assignment, k: int, T: nat)
  {
    forall i, j :: 0 <= i < Span(k) && 0 <= j < Span(k) ==> Covered(a, k, T, i, j)
  }

  ghost predicate AtMostOneTile(a: Assignment, k: int, T: nat)
  {
    forall i, j, t1, t2 :: 0 <= i < Span(k) && 0 <= j < Span(k) && 0 <= t1 < t2 < T ==>
      !(a(CellTileToVar(k, T, i, j, t1)) && a(CellTileToVar(k, T, i, j, t2)))
  }

  /** No cell that has a neighbour in direction dir holds a tile that clashes with its neighbour's. */
  ghost predicate NoClash(a: Assignment, k: int, tiles: seq<Tile>, dir: Direction)
  {
    var T := |tiles|;
    forall i, j, t1, t2 ::
      0 <= i < RowsWithNeighbour(dir, k) && 0 <= j < ColumnsWithNeighbour(dir, k)
      && 0 <= t1 < T && 0 <= t2 < T && Clash(tiles, dir, t1, t2) ==>
        !(a(CellTileToVar(k, T, i, j, t1))
          && a(CellTileToVar(k, T, Neighbour(dir, i, j).0, Neighbour(dir, i, j).1, t2)))
  }

  // ---------------------------------------------------------------------------------------------
  // Single clauses.

  lemma NegatedPairTrue(a: Assignment, x: int, y: int)
    requires x > 0 && y > 0
    ensures ClauseTrue(a, [-x, -y, 0]) <==> !(a(x) && a(y))
  {
    var c := [-x, -y, 0];
    if !a(x) {
      assert LitTrue(a, c[0]);
    } else if !a(y) {
      assert LitTrue(a, c[1]);
    }
  }

  lemma CoverageClauseTrue(a: Assignment, k: int, T: nat, i: int, j: int)
    requires 0 <= i < k && 0 <= j < k
    ensures ClauseTrue(a, CoverageClause(k, T, i, j)) <==> Covered(a, k, T, i, j)
  {
    var c := CoverageClause(k, T, i, j);
    forall t | 0 <= t < T ensures LitTrue(a, c[t]) <==> a(CellTileToVar(k, T, i, j, t)) {
      CellTileToVarRange(k, T, i, j, t);
    }
    if ClauseTrue(a, c) {
      var p :| 0 <= p < |c| && LitTrue(a, c[p]);
      assert p < T;
    }
    if Covered(a, k, T, i, j) {
      var t :| 0 <= t < T && a(CellTileToVar(k, T, i, j, t));
      assert LitTrue(a, c[t]);
    }
  }

  // ---------------------------------------------------------------------------------------------
  // Family by family.

  /** The coverage clauses hold exactly when every cell holds at least one tile. */
  lemma CoverageSatisfied(a: Assignment, k: int, T: nat)
    ensures Satisfies(a, CoverageClauses(k, T)) <==> AtLeastOneTile(a, k, T)
  {
    if Satisfies(a, CoverageClauses(k, T)) {
      forall i, j | 0 <= i < Span(k) && 0 <= j < Span(k)
        ensures Covered(a, k, T, i, j)
      {
        CoverageMember(k, T, CoverageClause(k, T, i, j));
        CoverageClauseTrue(a, k, T, i, j);
      }
    }
    if AtLeastOneTile(a, k, T) {
      forall c | c in CoverageClauses(k, T) ensures ClauseTrue(a, c) {
        CoverageMember(k, T, c);
        var i, j :| 0 <= i < Span(k) && 0 <= j < Span(k) && c == CoverageClause(k, T, i, j);
        CoverageClauseTrue(a, k, T, i, j);
      }
    }
  }

  /** The uniqueness clauses hold exactly when no cell holds two tiles. */
  lemma UniquenessSatisfied(a: Assignment, k: int, T: nat)
    ensures Satisfies(a, UniquenessClauses(k, T)) <==> AtMostOneTile(a, k, T)
  {
    if Satisfies(a, UniquenessClauses(k, T)) {
      forall i, j, t1, t2 | 0 <= i < Span(k) && 0 <= j < Span(k) && 0 <= t1 < t2 < T
        ensures !(a(CellTileToVar(k, T, i, j, t1)) && a(CellTileToVar(k, T, i, j, t2)))
      {
        UniquenessMember(k, T, UniquenessClause(k, T, i, j, t1, t2));
        CellTileToVarRange(k, T, i, j, t1);
        CellTileToVarRange(k, T, i, j, t2);
        NegatedPairTrue(a, CellTileToVar(k, T, i, j, t1), CellTileToVar(k, T, i, j, t2));
      }
    }
    if AtMostOneTile(a, k, T) {
      forall c | c in UniquenessClauses(k, T) ensures ClauseTrue(a, c) {
        UniquenessMember(k, T, c);
        var i, j, t1, t2 :| 0 <= i < Span(k) && 0 <= j < Span(k) && 0 <= t1 < t2 < T
          && c == UniquenessClause(k, T, i, j, t1, t2);
        CellTileToVarRange(k, T, i, j, t1);
        CellTileToVarRange(k, T, i, j, t2);
        NegatedPairTrue(a, CellTileToVar(k, T, i, j, t1), CellTileToVar(k, T, i, j, t2));
      }
    }
  }

  lemma AdjacencyClauseTrue(a: Assignment, k: int, T: nat, dir: Direction, i: int, j: int, p: (int, int))
    requires 0 <= i < RowsWithNeighbour(dir, k) && 0 <= j < ColumnsWithNeighbour(dir, k)
    requires 0 <= p.0 < T && 0 <= p.1 < T
    ensures ClauseTrue(a, AdjacencyClause(k, T, dir, i, j, p)) <==>
      !(a(CellTileToVar(k, T, i, j, p.0))
        && a(CellTileToVar(k, T, Neighbour(dir, i, j).0, Neighbour(dir, i, j).1, p.1)))
  {
    var (ni, nj) := Neighbour(dir, i, j);
    CellTileToVarRange(k, T, i, j, p.0);
    CellTileToVarRange(k, T, ni, nj, p.1);
    NegatedPairTrue(a, CellTileToVar(k, T, i, j, p.0), CellTileToVar(k, T, ni, nj, p.1));
  }

  /** The adjacency clauses of one direction hold exactly when no adjacent pair clashes. */
  lemma AdjacencySatisfied(a: Assignment, k: int, tiles: seq<Tile>, dir: Direction)
    ensures Satisfies(a, AdjacencyClauses(k, |tiles|, dir, BadPairs(tiles, dir))) <==> NoClash(a, k, tiles, dir)
  {
    var T := |tiles|;
    var pairs := BadPairs(tiles, dir);
    BadPairsExact(tiles, dir);
    if Satisfies(a, AdjacencyClauses(k, T, dir, pairs)) {
      forall i, j, t1, t2 |
        0 <= i < RowsWithNeighbour(dir, k) && 0 <= j < ColumnsWithNeighbour(dir, k)
        && 0 <= t1 < T && 0 <= t2 < T && Clash(tiles, dir, t1, t2)
        ensures !(a(CellTileToVar(k, T, i, j, t1))
          && a(CellTileToVar(k, T, Neighbour(dir, i, j).0, Neighbour(dir, i, j).1, t2)))
      {
        assert (t1, t2) in pairs;
        AdjacencyMember(k, T, dir, pairs, AdjacencyClause(k, T, dir, i, j, (t1, t2)));
        AdjacencyClauseTrue(a, k, T, dir, i, j, (t1, t2));
      }
    }
    if NoClash(a, k, tiles, dir) {
      forall c | c in AdjacencyClauses(k, T, dir, pairs) ensures ClauseTrue(a, c) {
        AdjacencyMember(k, T, dir, pairs, c);
        var i, j, p :| 0 <= i < RowsWithNeighbour(dir, k) && 0 <= j < ColumnsWithNeighbour(dir, k)
          && p in pairs && c == AdjacencyClause(k, T, dir, i, j, p);
        AdjacencyClauseTrue(a, k, T, dir, i, j, p);
      }
    }
  }

  /** The formula holds exactly when all four families do. */
  lemma FormulaSatisfied(a: Assignment, k: int, tiles: seq<Tile>)
    ensures Satisfies(a, Formula(k, tiles)) <==>
      && AtLeastOneTile(a, k, |tiles|)
      && AtMostOneTile(a, k, |tiles|)
      && NoClash(a, k, tiles, Horizontal)
      && NoClash(a, k, tiles, Vertical)
  {
    var T := |tiles|;
    var c, u := CoverageClauses(k, T), UniquenessClauses(k, T);
    var h := AdjacencyClauses(k, T, Horizontal, BadPairs(tiles, Horizontal));
    var v := AdjacencyClauses(k, T, Vertical, BadPairs(tiles, Vertical));
    assert Formula(k, tiles) == c + u + h + v;
    CoverageSatisfied(a, k, T);
    UniquenessSatisfied(a, k, T);
    AdjacencySatisfied(a, k, tiles, Horizontal);
    AdjacencySatisfied(a, k, tiles, Vertical);
  }

  // ---------------------------------------------------------------------------------------------
  // Placements.

  /** Under coverage and uniqueness, the decoder finds the one true tile of every cell. */
  lemma DecodedEncodes(a: Assignment, k: int, T: nat)
    requires AtLeastOneTile(a, k, T) && AtMostOneTile(a, k, T)
    ensures Encodes(a, k, T, DecodeGrid(a, k, T))
  {
    var g := DecodeGrid(a, k, T);
    forall i, j | 0 <= i < Span(k) && 0 <= j < Span(k)
      ensures 0 <= g[i][j] < T
      ensures forall t :: 0 <= t < T ==> (a(CellTileToVar(k, T, i, j, t)) <==> g[i][j] == t)
    {
      DecodedCell(a, k, T, i, j);
    }
  }

  lemma DecodedCell(a: Assignment, k: int, T: nat, i: int, j: int)
    requires AtLeastOneTile(a, k, T) && AtMostOneTile(a, k, T)
    requires 0 <= i < Span(k) && 0 <= j < Span(k)
    ensures var r := FirstTrue(a, k, T, i, j, 0);
      && 0 <= r < T
      && forall t :: 0 <= t < T ==> (a(CellTileToVar(k, T, i, j, t)) <==> r == t)
  {
    var r := FirstTrue(a, k, T, i, j, 0);
    assert Covered(a, k, T, i, j);
    var t0 :| 0 <= t0 < T && a(CellTileToVar(k, T, i, j, t0));
    assert r != -1;
    forall t | 0 <= t < T && a(CellTileToVar(k, T, i, j, t)) ensures t == r {
    }
  }

  /** A placement whose variables are all true has no clash where the clauses of direction dir
      forbid one, so it shows equal touching colours in that direction. */
  lemma EncodedNoClashIsProper(a: Assignment, k: int, tiles: seq<Tile>, g: seq<seq<int>>)
    requires Encodes(a, k, |tiles|, g)
    requires NoClash(a, k, tiles, Horizontal) && NoClash(a, k, tiles, Vertical)
    ensures ProperTiling(tiles, k, g)
  {
    forall i, j | 0 <= i < Span(k) && 0 <= j < Span(k) - 1
      ensures tiles[g[i][j]].right == tiles[g[i][j + 1]].left
    {
      var t1, t2 := g[i][j], g[i][j + 1];
      assert j < ColumnsWithNeighbour(Horizontal, k) && Neighbour(Horizontal, i, j) == (i, j + 1);
      assert a(CellTileToVar(k, |tiles|, i, j, t1)) && a(CellTileToVar(k, |tiles|, i, j + 1, t2));
      assert !Clash(tiles, Horizontal, t1, t2);
    }
    forall i, j | 0 <= i < Span(k) - 1 && 0 <= j < Span(k)
      ensures tiles[g[i][j]].bottom == tiles[g[i + 1][j]].top
    {
      var t1, t2 := g[i][j], g[i + 1][j];
      assert i < RowsWithNeighbour(Vertical, k) && Neighbour(Vertical, i, j) == (i + 1, j);
      assert a(CellTileToVar(k, |tiles|, i, j, t1)) && a(CellTileToVar(k, |tiles|, i + 1, j, t2));
      assert !Clash(tiles, Vertical, t1, t2);
    }
  }

  /** The variables of a placement with equal touching colours meet all four families. */
  lemma PlacementSatisfies(a: Assignment, k: int, tiles: seq<Tile>, g: seq<seq<int>>)
    requires Encodes(a, k, |tiles|, g) && ProperTiling(tiles, k, g)
    ensures AtLeastOneTile(a, k, |tiles|) && AtMostOneTile(a, k, |tiles|)
    ensures NoClash(a, k, tiles, Horizontal) && NoClash(a, k, tiles, Vertical)
  {
    var T := |tiles|;
    forall i, j | 0 <= i < Span(k) && 0 <= j < Span(k) ensures Covered(a, k, T, i, j) {
      assert a(CellTileToVar(k, T, i, j, g[i][j]));
    }
    PlacementNoClash(a, k, tiles, g, Horizontal);
    PlacementNoClash(a, k, tiles, g, Vertical);
  }

  lemma PlacementNoClash(a: Assignment, k: int, tiles: seq<Tile>, g: seq<seq<int>>, dir: Direction)
    requires Encodes(a, k, |tiles|, g) && ProperTiling(tiles, k, g)
    ensures NoClash(a, k, tiles, dir)
  {
    var T := |tiles|;
    forall i, j, t1, t2 |
      0 <= i < RowsWithNeighbour(dir, k) && 0 <= j < ColumnsWithNeighbour(dir, k)
      && 0 <= t1 < T && 0 <= t2 < T && Clash(tiles, dir, t1, t2)
      ensures !(a(CellTileToVar(k, T, i, j, t1))
        && a(CellTileToVar(k, T, Neighbour(dir, i, j).0, Neighbour(dir, i, j).1, t2)))
    {
      var (ni, nj) := Neighbour(dir, i, j);
      assert 0 <= ni < Span(k) && 0 <= nj < Span(k);
      assert !Clash(tiles, dir, g[i][j], g[ni][nj]);
    }
  }

  /** The main theorem of the reduction: the formula holds exactly when the assignment sets the
      variables of a placement, one tile per cell, in which every pair of adjacent cells shows
      equal touching colours. */
  lemma FormulaMeaning(a: Assignment, k: int, tiles: seq<Tile>)
    ensures Satisfies(a, Formula(k, tiles)) <==>
      exists g :: Encodes(a, k, |tiles|, g) && ProperTiling(tiles, k, g)
  {
    FormulaSatisfied(a, k, tiles);
    if Satisfies(a, Formula(k, tiles)) {
      DecodedEncodes(a, k, |tiles|);
      EncodedNoClashIsProper(a, k, tiles, DecodeGrid(a, k, |tiles|));
    }
    if exists g :: Encodes(a, k, |tiles|, g) && ProperTiling(tiles, k, g) {
      var g :| Encodes(a, k, |tiles|, g) && ProperTiling(tiles, k, g);
      PlacementSatisfies(a, k, tiles, g);
    }
  }

  // ---------------------------------------------------------------------------------------------
  // From the solver's answer to the placement.

  /** A model whose positional reading satisfies every clause decodes to a placement with a tile
      in every cell (no -1) and equal touching colours everywhere. */
  lemma SatisfyingAnswerDecodesToTiling(returnCode: int, lines: seq<OutputLine>, k: int, tiles: seq<Tile>)
    requires returnCode != UnsatExitCode
    requires RemoveFirstZero(ModelTokens(lines)) != []
    requires Satisfies(ModelAssignment(RemoveFirstZero(ModelTokens(lines))), Formula(k, tiles))
    ensures SolverOutcome(returnCode, lines, k, |tiles|).Placement?
    ensures var g := SolverOutcome(returnCode, lines, k, |tiles|).grid;
      IsGrid(g, k, |tiles|) && ProperTiling(tiles, k, g)
  {
    var a := ModelAssignment(RemoveFirstZero(ModelTokens(lines)));
    FormulaSatisfied(a, k, tiles);
    DecodedEncodes(a, k, |tiles|);
    EncodedNoClashIsProper(a, k, tiles, DecodeGrid(a, k, |tiles|));
  }

  /** A solver's answer: a model printed in variable order, listing at least every variable of
      the formula, whose literals satisfy the formula, decodes to a full placement with equal
      touching colours. */
  lemma SolverModelDecodesToTiling(returnCode: int, lines: seq<OutputLine>, k: int, tiles: seq<Tile>)
    requires returnCode != UnsatExitCode
    requires var m := RemoveFirstZero(ModelTokens(lines));
      && m != [] && InVariableOrder(m) && |m| >= VariableCount(k, |tiles|)
      && Satisfies(LiteralAssignment(m), Formula(k, tiles))
    ensures SolverOutcome(returnCode, lines, k, |tiles|).Placement?
    ensures var g := SolverOutcome(returnCode, lines, k, |tiles|).grid;
      IsGrid(g, k, |tiles|) && ProperTiling(tiles, k, g)
  {
    var m := RemoveFirstZero(ModelTokens(lines));
    PositionalMatchesLiterals(m);
    FormulaWellFormed(k, tiles);
    SameOnVariables(LiteralAssignment(m), ModelAssignment(m), Formula(k, tiles), VariableCount(k, |tiles|));
    SatisfyingAnswerDecodesToTiling(returnCode, lines, k, tiles);
  }

  /** Every placement with equal touching colours is a model of the formula: the model a solver
      prints for it satisfies every clause, so the encoding loses no tiling. */
  lemma ProperTilingSatisfies(g: seq<seq<int>>, k: int, tiles: seq<Tile>)
    requires k >= 1 && |tiles| >= 1 && IsGrid(g, k, |tiles|) && ProperTiling(tiles, k, g)
    ensures Satisfies(ModelAssignment(ModelOf(g, k, |tiles|)), Formula(k, tiles))
  {
    var a := ModelAssignment(ModelOf(g, k, |tiles|));
    ModelOfEncodes(g, k, |tiles|);
    PlacementSatisfies(a, k, tiles, g);
    FormulaSatisfied(a, k, tiles);
  }

  // ---------------------------------------------------------------------------------------------
  // Small instances.

  /** Tiles (1, 2, 3, 4) and (5, 6, 7, 8) share no colour, so no 2 x 2 placement fits and no
      assignment satisfies the formula. */
  lemma NoSharedColourIsUnsatisfiable(a: Assignment, tiles: seq<Tile>)
    requires tiles == [Tile(1, 2, 3, 4), Tile(5, 6, 7, 8)]
    ensures !Satisfies(a, Formula(2, tiles))
  {
    forall g | Encodes(a, 2, 2, g) ensures !ProperTiling(tiles, 2, g) {
      NoSharedColourNoPlacement(tiles, g);
    }
    FormulaMeaning(a, 2, tiles);
  }

  /** The first two cells of the top row already clash, whichever tiles they hold. */
  lemma NoSharedColourNoPlacement(tiles: seq<Tile>, g: seq<seq<int>>)
    requires tiles == [Tile(1, 2, 3, 4), Tile(5, 6, 7, 8)] && IsGrid(g, 2, 2)
    ensures !ProperTiling(tiles, 2, g)
  {
    assert |g| == 2 && |g[0]| == 2;
    var l, r := g[0][0], g[0][1];
    assert tiles[l].right == 2 || tiles[l].right == 6;
    assert tiles[r].left == 4 || tiles[r].left == 8;
  }

  function Zeros(k: int): seq<seq<int>>
  {
    seq(Span(k), i => seq(Span(k), j => 0))
  }

  /** With the single tile (1, 1, 1, 1) every grid size is satisfiable, and the model of the
      all-zero placement decodes to k rows of k zeros. */
  lemma SingleTileRoundTrip(k: int, tiles: seq<Tile>)
    requires k >= 1 && tiles == [Tile(1, 1, 1, 1)]
    ensures Satisfies(ModelAssignment(ModelOf(Zeros(k), k, 1)), Formula(k, tiles))
    ensures SolverOutcome(10, [ModelLine(ModelOf(Zeros(k), k, 1))], k, 1) == Placement(Zeros(k))
  {
    assert IsGrid(Zeros(k), k, 1);
    ProperTilingSatisfies(Zeros(k), k, tiles);
    DecodeRoundTrip(10, Zeros(k), k, 1);
  }

  /** Two identical self-matching tiles clash nowhere: no adjacency clause is emitted and every
      placement of them is proper. */
  lemma IdenticalTilesNeverClash(g: seq<seq<int>>)
    requires IsGrid(g, 2, 2)
    ensures BadPairs([Tile(0, 0, 0, 0), Tile(0, 0, 0, 0)], Horizontal) == []
    ensures BadPairs([Tile(0, 0, 0, 0), Tile(0, 0, 0, 0)], Vertical) == []
    ensures ProperTiling([Tile(0, 0, 0, 0), Tile(0, 0, 0, 0)], 2, g)
  {
  }

  /** The decoder reads the model by position, not by the literal's magnitude: a model listing
      literal 2 first and -1 second is read as "variable 1 true", so cell (0, 0) gets tile 0 even
      though the literals say tile 1. */
  lemma PositionalReading()
    ensures SolverOutcome(10, [ModelLine([2, -1])], 1, 2) == Placement([[0]])
  {
    var lines := [ModelLine([2, -1])];
    var m := [2, -1];
    assert lines[..0] == [];
    NumbersOfFields(m, [Number(0)]);
    assert Numbers([Number(0)]) == [0];
    assert ModelLine(m).fields == [Marker] + (AsFields(m) + [Number(0)]);
    assert ModelTokens(lines) == m + [0];
    assert m + [0] == [2, -1, 0];
    assert RemoveFirstZero([0]) == [];
    assert RemoveFirstZero([-1, 0]) == [-1];
    assert RemoveFirstZero(m + [0]) == m;
    var a := ModelAssignment(m);
    assert a(CellTileToVar(1, 2, 0, 0, 0));
    assert FirstTrue(a, 1, 2, 0, 0, 0) == 0;
    assert DecodeGrid(a, 1, 2)[0] == [0];
  }
}
