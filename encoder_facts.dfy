/** What the clause generator emits: exactly which clauses, how many of each family, the order of
    the incompatible pairs, and that every clause is a well-formed DIMACS line. */
module EncoderFacts {
  import opened Tiling
  import opened Indexer
  import opened Cnf
  import opened Encoder

  // ---------------------------------------------------------------------------------------------
  // The nested loop over cells.

  lemma {:induction false} RectRowMember(i: int, n: nat, f: (int, int) -> seq<Clause>, c: Clause)
    ensures c in RectRow(i, n, f) <==> exists j :: 0 <= j < n && c in f(i, j)
  {
    if n > 0 {
      RectRowMember(i, n - 1, f, c);
    }
  }

  /** The cell loop emits exactly the clauses of the cells it visits. */
  lemma {:induction false} RectMember(m: nat, n: nat, f: (int, int) -> seq<Clause>, c: Clause)
    ensures c in Rect(m, n, f) <==> exists i, j :: 0 <= i < m && 0 <= j < n && c in f(i, j)
  {
    if m > 0 {
      RectMember(m - 1, n, f, c);
      RectRowMember(m - 1, n, f, c);
    }
  }

  lemma {:induction false} RectRowLength(i: int, n: nat, f: (int, int) -> seq<Clause>, size: nat)
    requires forall j :: 0 <= j < n ==> |f(i, j)| == size
    ensures |RectRow(i, n, f)| == n * size
  {
    if n > 0 {
      RectRowLength(i, n - 1, f, size);
      MulPred(n, size);
    }
  }

  lemma MulAssoc(a: int, b: int, c: int)
    ensures a * (b * c) == a * b * c
  {
  }

  lemma MulPred(n: int, x: int)
    ensures n * x == (n - 1) * x + x
  {
  }

  /** When every cell contributes the same number of clauses, the loop emits m * n times that. */
  lemma {:induction false} RectLength(m: nat, n: nat, f: (int, int) -> seq<Clause>, size: nat)
    requires forall i, j :: 0 <= i < m && 0 <= j < n ==> |f(i, j)| == size
    ensures |Rect(m, n, f)| == m * (n * size)
  {
    if m > 0 {
      RectLength(m - 1, n, f, size);
      RectRowLength(m - 1, n, f, size);
      MulPred(m, n * size);
    }
  }

  // ---------------------------------------------------------------------------------------------
  // Coverage.

  /** Coverage holds one clause per cell, listing every tile of that cell. */
  lemma CoverageMember(k: int, T: nat, c: Clause)
    ensures c in CoverageClauses(k, T) <==>
      exists i, j :: 0 <= i < Span(k) && 0 <= j < Span(k) && c == CoverageClause(k, T, i, j)
  {
    var f := CoverageCell(k, T);
    RectMember(Span(k), Span(k), f, c);
    if c in CoverageClauses(k, T) {
      var i, j :| 0 <= i < Span(k) && 0 <= j < Span(k) && c in f(i, j);
      assert c == CoverageClause(k, T, i, j);
    }
    if exists i, j :: 0 <= i < Span(k) && 0 <= j < Span(k) && c == CoverageClause(k, T, i, j) {
      var i, j :| 0 <= i < Span(k) && 0 <= j < Span(k) && c == CoverageClause(k, T, i, j);
      assert c in f(i, j);
    }
  }

  /** Exactly k * k coverage clauses. */
  lemma CoverageCount(k: int, T: nat)
    ensures |CoverageClauses(k, T)| == Span(k) * Span(k)
  {
    RectLength(Span(k), Span(k), CoverageCell(k, T), 1);
  }

  // ---------------------------------------------------------------------------------------------
  // Uniqueness.

  lemma {:induction false} UniquenessPairsMember(k: int, T: nat, i: int, j: int, t1: int, u: int, c: Clause)
    ensures c in UniquenessPairs(k, T, i, j, t1, u) <==>
      exists t2 :: t1 < t2 < u && c == UniquenessClause(k, T, i, j, t1, t2)
    decreases u - t1
  {
    if u > t1 + 1 {
      UniquenessPairsMember(k, T, i, j, t1, u - 1, c);
    }
  }

  lemma {:induction false} UniquenessPairsLength(k: int, T: nat, i: int, j: int, t1: int, u: int)
    requires t1 < u
    ensures |UniquenessPairs(k, T, i, j, t1, u)| == u - t1 - 1
    decreases u - t1
  {
    if u > t1 + 1 {
      UniquenessPairsLength(k, T, i, j, t1, u - 1);
    }
  }

  lemma {:induction false} UniquenessTilesMember(k: int, T: nat, i: int, j: int, n: nat, c: Clause)
    ensures c in UniquenessTiles(k, T, i, j, n) <==>
      exists t1, t2 :: 0 <= t1 < n && t1 < t2 < T && c == UniquenessClause(k, T, i, j, t1, t2)
  {
    if n > 0 {
      UniquenessTilesMember(k, T, i, j, n - 1, c);
      UniquenessPairsMember(k, T, i, j, n - 1, T, c);
    }
  }

  /** The first n tiles of a cell pair with the later ones in n * (2T - n - 1) / 2 clauses. */
  lemma {:induction false} UniquenessTilesLength(k: int, T: nat, i: int, j: int, n: nat)
    requires n <= T
    ensures 2 * |UniquenessTiles(k, T, i, j, n)| == n * (2 * T - n - 1)
  {
    if n > 0 {
      UniquenessTilesLength(k, T, i, j, n - 1);
      UniquenessPairsLength(k, T, i, j, n - 1, T);
      assert n * (2 * T - n - 1) == n * (2 * T - n) - n;
      assert n * (2 * T - n) == (n - 1) * (2 * T - n) + (2 * T - n);
      assert (n - 1) * (2 * T - (n - 1) - 1) == (n - 1) * (2 * T - n);
    }
  }

  /** Uniqueness holds one clause [-x(i,j,t1), -x(i,j,t2), 0] per cell and pair t1 < t2. */
  lemma UniquenessMember(k: int, T: nat, c: Clause)
    ensures c in UniquenessClauses(k, T) <==>
      exists i, j, t1, t2 :: 0 <= i < Span(k) && 0 <= j < Span(k) && 0 <= t1 < t2 < T
        && c == UniquenessClause(k, T, i, j, t1, t2)
  {
    var f := UniquenessCell(k, T);
    RectMember(Span(k), Span(k), f, c);
    if c in UniquenessClauses(k, T) {
      var i, j :| 0 <= i < Span(k) && 0 <= j < Span(k) && c in f(i, j);
      UniquenessTilesMember(k, T, i, j, T, c);
      var t1, t2 :| 0 <= t1 < T && t1 < t2 < T && c == UniquenessClause(k, T, i, j, t1, t2);
    }
    if exists i, j, t1, t2 :: 0 <= i < Span(k) && 0 <= j < Span(k) && 0 <= t1 < t2 < T
        && c == UniquenessClause(k, T, i, j, t1, t2) {
      var i, j, t1, t2 :| 0 <= i < Span(k) && 0 <= j < Span(k) && 0 <= t1 < t2 < T
        && c == UniquenessClause(k, T, i, j, t1, t2);
      UniquenessTilesMember(k, T, i, j, T, c);
      assert c in f(i, j);
    }
  }

  /** Exactly k * k * T * (T - 1) / 2 uniqueness clauses. */
  lemma UniquenessCount(k: int, T: nat)
    ensures |UniquenessClauses(k, T)| == Span(k) * Span(k) * (T * (T - 1) / 2)
  {
    forall i, j {
      UniquenessTilesLength(k, T, i, j, T);
    }
    RectLength(Span(k), Span(k), UniquenessCell(k, T), T * (T - 1) / 2);
  }

  // ---------------------------------------------------------------------------------------------
  // Incompatible pairs.

  /** (tl, tr) comes before (tl', tr') in the order of the two nested loops over tiles. */
  predicate LoopOrder(p: (int, int), q: (int, int))
  {
    p.0 < q.0 || (p.0 == q.0 && p.1 < q.1)
  }

  predicate InLoopOrder(pairs: seq<(int, int)>)
  {
    forall x, y :: 0 <= x < y < |pairs| ==> LoopOrder(pairs[x], pairs[y])
  }

  lemma ConcatInLoopOrder(a: seq<(int, int)>, b: seq<(int, int)>)
    requires InLoopOrder(a) && InLoopOrder(b)
    requires forall p, q :: p in a && q in b ==> LoopOrder(p, q)
    ensures InLoopOrder(a + b)
  {
    forall x, y | 0 <= x < y < |a + b|
      ensures LoopOrder((a + b)[x], (a + b)[y])
    {
      if y < |a| {
      } else if x >= |a| {
        assert (a + b)[x] == b[x - |a|] && (a + b)[y] == b[y - |a|];
      } else {
        assert (a + b)[x] in a && (a + b)[y] in b;
      }
    }
  }

  lemma {:induction false} BadPairsForFacts(tiles: seq<Tile>, dir: Direction, tl: int, n: nat)
    requires 0 <= tl < |tiles| && n <= |tiles|
    ensures forall p :: p in BadPairsFor(tiles, dir, tl, n) <==>
      p.0 == tl && 0 <= p.1 < n && Clash(tiles, dir, tl, p.1)
    ensures InLoopOrder(BadPairsFor(tiles, dir, tl, n))
  {
    if n > 0 {
      BadPairsForFacts(tiles, dir, tl, n - 1);
      var last := if Clash(tiles, dir, tl, n - 1) then [(tl, n - 1)] else [];
      ConcatInLoopOrder(BadPairsFor(tiles, dir, tl, n - 1), last);
    }
  }

  lemma {:induction false} BadPairsUpToFacts(tiles: seq<Tile>, dir: Direction, m: nat)
    requires m <= |tiles|
    ensures forall p :: p in BadPairsUpTo(tiles, dir, m) <==>
      0 <= p.0 < m && 0 <= p.1 < |tiles| && Clash(tiles, dir, p.0, p.1)
    ensures InLoopOrder(BadPairsUpTo(tiles, dir, m))
  {
    if m > 0 {
      BadPairsUpToFacts(tiles, dir, m - 1);
      BadPairsForFacts(tiles, dir, m - 1, |tiles|);
      ConcatInLoopOrder(BadPairsUpTo(tiles, dir, m - 1), BadPairsFor(tiles, dir, m - 1, |tiles|));
    }
  }

  /** The precomputed list holds every ordered pair of tile indices whose touching colours differ
      in direction dir, no other pair, each once, in the order of the two loops over tiles. */
  lemma BadPairsExact(tiles: seq<Tile>, dir: Direction)
    ensures forall p :: p in BadPairs(tiles, dir) <==>
      0 <= p.0 < |tiles| && 0 <= p.1 < |tiles| && Clash(tiles, dir, p.0, p.1)
    ensures InLoopOrder(BadPairs(tiles, dir))
    ensures forall x, y :: 0 <= x < y < |BadPairs(tiles, dir)| ==> BadPairs(tiles, dir)[x] != BadPairs(tiles, dir)[y]
  {
    BadPairsUpToFacts(tiles, dir, |tiles|);
  }

  // ---------------------------------------------------------------------------------------------
  // Adjacency.

  lemma {:induction false} AdjacencyPairsMember(k: int, T: nat, dir: Direction, i: int, j: int, pairs: seq<(int, int)>, c: Clause)
    ensures c in AdjacencyPairs(k, T, dir, i, j, pairs) <==>
      exists p :: p in pairs && c == AdjacencyClause(k, T, dir, i, j, p)
    ensures |AdjacencyPairs(k, T, dir, i, j, pairs)| == |pairs|
  {
    if pairs != [] {
      var front := pairs[..|pairs| - 1];
      AdjacencyPairsMember(k, T, dir, i, j, front, c);
      assert pairs == front + [pairs[|pairs| - 1]];
    }
  }

  /** One adjacency clause per cell that has a neighbour in direction dir and per pair in the list. */
  lemma AdjacencyMember(k: int, T: nat, dir: Direction, pairs: seq<(int, int)>, c: Clause)
    ensures c in AdjacencyClauses(k, T, dir, pairs) <==>
      exists i, j, p :: 0 <= i < RowsWithNeighbour(dir, k) && 0 <= j < ColumnsWithNeighbour(dir, k)
        && p in pairs && c == AdjacencyClause(k, T, dir, i, j, p)
  {
    var f := AdjacencyCell(k, T, dir, pairs);
    var rows, columns := RowsWithNeighbour(dir, k), ColumnsWithNeighbour(dir, k);
    RectMember(rows, columns, f, c);
    if c in AdjacencyClauses(k, T, dir, pairs) {
      var i, j :| 0 <= i < rows && 0 <= j < columns && c in f(i, j);
      AdjacencyPairsMember(k, T, dir, i, j, pairs, c);
      var p :| p in pairs && c == AdjacencyClause(k, T, dir, i, j, p);
    }
    if exists i, j, p :: 0 <= i < rows && 0 <= j < columns && p in pairs && c == AdjacencyClause(k, T, dir, i, j, p) {
      var i, j, p :| 0 <= i < rows && 0 <= j < columns && p in pairs && c == AdjacencyClause(k, T, dir, i, j, p);
      AdjacencyPairsMember(k, T, dir, i, j, pairs, c);
      assert c in f(i, j);
    }
  }

  /** k * (k - 1) clauses per pair in each direction; none at all when k <= 1. */
  lemma AdjacencyCount(k: int, T: nat, dir: Direction, pairs: seq<(int, int)>)
    ensures |AdjacencyClauses(k, T, dir, pairs)| == Span(k) * Span(k - 1) * |pairs|
    ensures k <= 1 ==> AdjacencyClauses(k, T, dir, pairs) == []
  {
    var f := AdjacencyCell(k, T, dir, pairs);
    var rows, columns := RowsWithNeighbour(dir, k), ColumnsWithNeighbour(dir, k);
    forall i, j ensures |f(i, j)| == |pairs| {
      AdjacencyPairsMember(k, T, dir, i, j, pairs, []);
    }
    RectLength(rows, columns, f, |pairs|);
    assert rows * columns == Span(k) * Span(k - 1);
    MulAssoc(rows, columns, |pairs|);
  }

  // ---------------------------------------------------------------------------------------------
  // The whole formula.

  /** The clause count of the DIMACS header, family by family. */
  lemma FormulaCount(k: int, tiles: seq<Tile>)
    ensures var T := |tiles|;
      |Formula(k, tiles)| ==
        Span(k) * Span(k)
        + Span(k) * Span(k) * (T * (T - 1) / 2)
        + Span(k) * Span(k - 1) * |BadPairs(tiles, Horizontal)|
        + Span(k) * Span(k - 1) * |BadPairs(tiles, Vertical)|
  {
    var T := |tiles|;
    CoverageCount(k, T);
    UniquenessCount(k, T);
    AdjacencyCount(k, T, Horizontal, BadPairs(tiles, Horizontal));
    AdjacencyCount(k, T, Vertical, BadPairs(tiles, Vertical));
  }

  lemma CoverageClauseWellFormed(k: int, T: nat, i: int, j: int)
    requires 0 <= i < k && 0 <= j < k
    ensures WellFormed(CoverageClause(k, T, i, j), VariableCount(k, T))
  {
    forall t | 0 <= t < T {
      CellTileToVarRange(k, T, i, j, t);
    }
  }

  lemma UniquenessClauseWellFormed(k: int, T: nat, i: int, j: int, t1: int, t2: int)
    requires 0 <= i < k && 0 <= j < k && 0 <= t1 < T && 0 <= t2 < T
    ensures WellFormed(UniquenessClause(k, T, i, j, t1, t2), VariableCount(k, T))
  {
    CellTileToVarRange(k, T, i, j, t1);
    CellTileToVarRange(k, T, i, j, t2);
  }

  lemma AdjacencyClauseWellFormed(k: int, T: nat, dir: Direction, i: int, j: int, p: (int, int))
    requires 0 <= i < RowsWithNeighbour(dir, k) && 0 <= j < ColumnsWithNeighbour(dir, k)
    requires 0 <= p.0 < T && 0 <= p.1 < T
    ensures WellFormed(AdjacencyClause(k, T, dir, i, j, p), VariableCount(k, T))
  {
    var (ni, nj) := Neighbour(dir, i, j);
    CellTileToVarRange(k, T, i, j, p.0);
    CellTileToVarRange(k, T, ni, nj, p.1);
  }

  /** Every emitted clause ends in its only 0, and every other literal is a signed variable
      identifier in [1, k*k*T]. */
  lemma FormulaWellFormed(k: int, tiles: seq<Tile>)
    ensures forall c :: c in Formula(k, tiles) ==> WellFormed(c, VariableCount(k, |tiles|))
  {
    var T := |tiles|;
    var n := VariableCount(k, T);
    forall c | c in CoverageClauses(k, T) ensures WellFormed(c, n) {
      CoverageMember(k, T, c);
      var i, j :| 0 <= i < Span(k) && 0 <= j < Span(k) && c == CoverageClause(k, T, i, j);
      CoverageClauseWellFormed(k, T, i, j);
    }
    forall c | c in UniquenessClauses(k, T) ensures WellFormed(c, n) {
      UniquenessMember(k, T, c);
      var i, j, t1, t2 :| 0 <= i < Span(k) && 0 <= j < Span(k) && 0 <= t1 < t2 < T
        && c == UniquenessClause(k, T, i, j, t1, t2);
      UniquenessClauseWellFormed(k, T, i, j, t1, t2);
    }
    forall dir: Direction, c | c in AdjacencyClauses(k, T, dir, BadPairs(tiles, dir)) ensures WellFormed(c, n) {
      var pairs := BadPairs(tiles, dir);
      AdjacencyMember(k, T, dir, pairs, c);
      BadPairsExact(tiles, dir);
      var i, j, p :| 0 <= i < RowsWithNeighbour(dir, k) && 0 <= j < ColumnsWithNeighbour(dir, k)
        && p in pairs && c == AdjacencyClause(k, T, dir, i, j, p);
      AdjacencyClauseWellFormed(k, T, dir, i, j, p);
    }
  }
}
