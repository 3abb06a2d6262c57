/** The clause generator: the formula "every cell holds exactly one tile and adjacent cells have
    matching touching colours" over the variables of the Indexer. Each family is specified by a
    function that follows the generating loops, and emitted by a method proved against it. */
module Encoder {
  import opened Tiling
  import opened Indexer
  import opened Cnf

  /** Horizontal pairs are (i, j)-(i, j+1), vertical pairs (i, j)-(i+1, j). */
  datatype Direction = Horizontal | Vertical

  function Neighbour(dir: Direction, i: int, j: int): (int, int)
  {
    match dir
    case Horizontal => (i, j + 1)
    case Vertical => (i + 1, j)
  }

  /** The number of rows, then of columns, of the cells that have a neighbour in direction dir. */
  function RowsWithNeighbour(dir: Direction, k: int): nat
  {
    match dir
    case Horizontal => Span(k)
    case Vertical => Span(k - 1)
  }

  function ColumnsWithNeighbour(dir: Direction, k: int): nat
  {
    match dir
    case Horizontal => Span(k - 1)
    case Vertical => Span(k)
  }

  /** Tile t1 followed by tile t2 in direction dir would put two different colours against each
      other: right against left horizontally, bottom against top vertically. */
  predicate Clash(tiles: seq<Tile>, dir: Direction, t1: int, t2: int)
    requires 0 <= t1 < |tiles| && 0 <= t2 < |tiles|
  {
    match dir
    case Horizontal => tiles[t1].right != tiles[t2].left
    case Vertical => tiles[t1].bottom != tiles[t2].top
  }

  // ---------------------------------------------------------------------------------------------
  // The nested loop over cells: rows 0..m-1, in each row columns 0..n-1, cell (i, j) contributing
  // the clauses f(i, j).

  function RectRow(i: int, n: nat, f: (int, int) -> seq<Clause>): seq<Clause>
  {
    if n == 0 then [] else RectRow(i, n - 1, f) + f(i, n - 1)
  }

  function Rect(m: nat, n: nat, f: (int, int) -> seq<Clause>): seq<Clause>
  {
    if m == 0 then [] else Rect(m - 1, n, f) + RectRow(m - 1, n, f)
  }

  // ---------------------------------------------------------------------------------------------
  // Coverage: at least one tile per cell.

  function CoverageClause(k: int, T: nat, i: int, j: int): Clause
  {
    seq(T, t => CellTileToVar(k, T, i, j, t)) + [0]
  }

  function CoverageCell(k: int, T: nat): (int, int) -> seq<Clause>
  {
    (i, j) => [CoverageClause(k, T, i, j)]
  }

  function CoverageClauses(k: int, T: nat): seq<Clause>
  {
    Rect(Span(k), Span(k), CoverageCell(k, T))
  }

  // ---------------------------------------------------------------------------------------------
  // Uniqueness: at most one tile per cell, one clause per pair of tiles t1 < t2.

  function UniquenessClause(k: int, T: nat, i: int, j: int, t1: int, t2: int): Clause
  {
    [-CellTileToVar(k, T, i, j, t1), -CellTileToVar(k, T, i, j, t2), 0]
  }

  /** The clauses for t1 and every t2 in [t1 + 1, u). */
  function UniquenessPairs(k: int, T: nat, i: int, j: int, t1: int, u: int): seq<Clause>
    decreases u - t1
  {
    if u <= t1 + 1 then [] else UniquenessPairs(k, T, i, j, t1, u - 1) + [UniquenessClause(k, T, i, j, t1, u - 1)]
  }

  /** The clauses of cell (i, j) whose first tile is below n. */
  function UniquenessTiles(k: int, T: nat, i: int, j: int, n: nat): seq<Clause>
  {
    if n == 0 then [] else UniquenessTiles(k, T, i, j, n - 1) + UniquenessPairs(k, T, i, j, n - 1, T)
  }

  function UniquenessCell(k: int, T: nat): (int, int) -> seq<Clause>
  {
    (i, j) => UniquenessTiles(k, T, i, j, T)
  }

  function UniquenessClauses(k: int, T: nat): seq<Clause>
  {
    Rect(Span(k), Span(k), UniquenessCell(k, T))
  }

  // ---------------------------------------------------------------------------------------------
  // Incompatible tile pairs, computed once per direction.

  /** The pairs (tl, tr) with tr < n that clash. */
  function BadPairsFor(tiles: seq<Tile>, dir: Direction, tl: int, n: nat): seq<(int, int)>
    requires 0 <= tl < |tiles| && n <= |tiles|
  {
    if n == 0 then []
    else BadPairsFor(tiles, dir, tl, n - 1) + (if Clash(tiles, dir, tl, n - 1) then [(tl, n - 1)] else [])
  }

  /** The clashing pairs whose first tile is below m, in the order of the generating loops. */
  function BadPairsUpTo(tiles: seq<Tile>, dir: Direction, m: nat): seq<(int, int)>
    requires m <= |tiles|
  {
    if m == 0 then [] else BadPairsUpTo(tiles, dir, m - 1) + BadPairsFor(tiles, dir, m - 1, |tiles|)
  }

  function BadPairs(tiles: seq<Tile>, dir: Direction): seq<(int, int)>
  {
    BadPairsUpTo(tiles, dir, |tiles|)
  }

  // ---------------------------------------------------------------------------------------------
  // Adjacency: one clause per adjacent cell pair and incompatible tile pair.

  function AdjacencyClause(k: int, T: nat, dir: Direction, i: int, j: int, p: (int, int)): Clause
  {
    var (ni, nj) := Neighbour(dir, i, j);
    [-CellTileToVar(k, T, i, j, p.0), -CellTileToVar(k, T, ni, nj, p.1), 0]
  }

  function AdjacencyPairs(k: int, T: nat, dir: Direction, i: int, j: int, pairs: seq<(int, int)>): seq<Clause>
  {
    if pairs == [] then []
    else AdjacencyPairs(k, T, dir, i, j, pairs[..|pairs| - 1]) + [AdjacencyClause(k, T, dir, i, j, pairs[|pairs| - 1])]
  }

  function AdjacencyCell(k: int, T: nat, dir: Direction, pairs: seq<(int, int)>): (int, int) -> seq<Clause>
  {
    (i, j) => AdjacencyPairs(k, T, dir, i, j, pairs)
  }

  function AdjacencyClauses(k: int, T: nat, dir: Direction, pairs: seq<(int, int)>): seq<Clause>
  {
    Rect(RowsWithNeighbour(dir, k), ColumnsWithNeighbour(dir, k), AdjacencyCell(k, T, dir, pairs))
  }

  // ---------------------------------------------------------------------------------------------
  // The whole formula, in the order the encoder emits it.

  function Formula(k: int, tiles: seq<Tile>): seq<Clause>
  {
    var T := |tiles|;
    CoverageClauses(k, T)
    + UniquenessClauses(k, T)
    + AdjacencyClauses(k, T, Horizontal, BadPairs(tiles, Horizontal))
    + AdjacencyClauses(k, T, Vertical, BadPairs(tiles, Vertical))
  }

  /** The number of variables the formula is declared over. */
  function VariableCount(k: int, T: nat): int
  {
    k * k * T
  }

  // ---------------------------------------------------------------------------------------------
  // The generating loops.

  method Encode(k: int, tiles: seq<Tile>) returns (cnf: seq<Clause>, nrVars: int)
    ensures nrVars == VariableCount(k, |tiles|)
    ensures cnf == Formula(k, tiles)
  {
    var T := |tiles|;
    nrVars := k * k * T;
    var coverage := EmitCoverage(k, T);
    var uniqueness := EmitUniqueness(k, T);
    var badHorizontal := CollectBadPairs(tiles, Horizontal);
    var horizontal := EmitAdjacency(k, T, Horizontal, badHorizontal);
    var badVertical := CollectBadPairs(tiles, Vertical);
    var vertical := EmitAdjacency(k, T, Vertical, badVertical);
    cnf := coverage + uniqueness + horizontal + vertical;
  }

  method EmitCoverage(k: int, T: nat) returns (clauses: seq<Clause>)
    ensures clauses == CoverageClauses(k, T)
  {
    clauses := [];
    var i := 0;
    while i < k
      invariant 0 <= i <= Span(k)
      invariant clauses == Rect(i, Span(k), CoverageCell(k, T))
    {
      var j := 0;
      while j < k
        invariant 0 <= j <= Span(k)
        invariant clauses == Rect(i, Span(k), CoverageCell(k, T)) + RectRow(i, j, CoverageCell(k, T))
      {
        clauses := clauses + [CoverageClause(k, T, i, j)];
        j := j + 1;
      }
      i := i + 1;
    }
  }

  method EmitUniqueness(k: int, T: nat) returns (clauses: seq<Clause>)
    ensures clauses == UniquenessClauses(k, T)
  {
    clauses := [];
    var i := 0;
    while i < k
      invariant 0 <= i <= Span(k)
      invariant clauses == Rect(i, Span(k), UniquenessCell(k, T))
    {
      var row := EmitUniquenessRow(k, T, i);
      clauses := clauses + row;
      i := i + 1;
    }
  }

  /** The column loop of row i. */
  method EmitUniquenessRow(k: int, T: nat, i: int) returns (clauses: seq<Clause>)
    ensures clauses == RectRow(i, Span(k), UniquenessCell(k, T))
  {
    clauses := [];
    var j := 0;
    while j < k
      invariant 0 <= j <= Span(k)
      invariant clauses == RectRow(i, j, UniquenessCell(k, T))
    {
      var cell := EmitCellUniqueness(k, T, i, j);
      clauses := clauses + cell;
      j := j + 1;
    }
  }

  /** The two tile loops for one cell: a clause for every t1 < t2. */
  method EmitCellUniqueness(k: int, T: nat, i: int, j: int) returns (clauses: seq<Clause>)
    ensures clauses == UniquenessTiles(k, T, i, j, T)
  {
    clauses := [];
    var t1 := 0;
    while t1 < T
      invariant 0 <= t1 <= T
      invariant clauses == UniquenessTiles(k, T, i, j, t1)
    {
      var t2 := t1 + 1;
      while t2 < T
        invariant t1 + 1 <= t2 <= T
        invariant clauses == UniquenessTiles(k, T, i, j, t1) + UniquenessPairs(k, T, i, j, t1, t2)
      {
        clauses := clauses + [UniquenessClause(k, T, i, j, t1, t2)];
        t2 := t2 + 1;
      }
      t1 := t1 + 1;
    }
  }

  method CollectBadPairs(tiles: seq<Tile>, dir: Direction) returns (pairs: seq<(int, int)>)
    ensures pairs == BadPairs(tiles, dir)
  {
    pairs := [];
    var tl := 0;
    while tl < |tiles|
      invariant 0 <= tl <= |tiles|
      invariant pairs == BadPairsUpTo(tiles, dir, tl)
    {
      var tr := 0;
      while tr < |tiles|
        invariant 0 <= tr <= |tiles|
        invariant pairs == BadPairsUpTo(tiles, dir, tl) + BadPairsFor(tiles, dir, tl, tr)
      {
        if Clash(tiles, dir, tl, tr) {
          pairs := pairs + [(tl, tr)];
        }
        tr := tr + 1;
      }
      tl := tl + 1;
    }
  }

  method EmitAdjacency(k: int, T: nat, dir: Direction, pairs: seq<(int, int)>) returns (clauses: seq<Clause>)
    ensures clauses == AdjacencyClauses(k, T, dir, pairs)
  {
    var rows := if dir == Horizontal then k else k - 1;
    var columns := if dir == Horizontal then k - 1 else k;
    assert Span(rows) == RowsWithNeighbour(dir, k) && Span(columns) == ColumnsWithNeighbour(dir, k);
    clauses := EmitAdjacencyCells(k, T, dir, pairs, Span(rows), Span(columns));
  }

  /** The row loop: rows i < rows, each of columns cells. */
  method EmitAdjacencyCells(k: int, T: nat, dir: Direction, pairs: seq<(int, int)>, rows: nat, columns: nat)
    returns (clauses: seq<Clause>)
    ensures clauses == Rect(rows, columns, AdjacencyCell(k, T, dir, pairs))
  {
    clauses := [];
    var i := 0;
    while i < rows
      invariant 0 <= i <= rows
      invariant clauses == Rect(i, columns, AdjacencyCell(k, T, dir, pairs))
    {
      var row := EmitAdjacencyRow(k, T, dir, pairs, i, columns);
      clauses := clauses + row;
      i := i + 1;
    }
  }

  /** The column loop: cells (i, j) with j < columns. */
  method EmitAdjacencyRow(k: int, T: nat, dir: Direction, pairs: seq<(int, int)>, i: int, columns: nat)
    returns (clauses: seq<Clause>)
    ensures clauses == RectRow(i, columns, AdjacencyCell(k, T, dir, pairs))
  {
    clauses := [];
    var j := 0;
    while j < columns
      invariant 0 <= j <= columns
      invariant clauses == RectRow(i, j, AdjacencyCell(k, T, dir, pairs))
    {
      var cell := EmitCellAdjacency(k, T, dir, i, j, pairs);
      clauses := clauses + cell;
      j := j + 1;
    }
  }

  /** The innermost loop: one clause per incompatible pair, for the cell pair (i, j) and its neighbour. */
  method EmitCellAdjacency(k: int, T: nat, dir: Direction, i: int, j: int, pairs: seq<(int, int)>)
    returns (clauses: seq<Clause>)
    ensures clauses == AdjacencyPairs(k, T, dir, i, j, pairs)
  {
    clauses := [];
    var q := 0;
    while q < |pairs|
      invariant 0 <= q <= |pairs|
      invariant clauses == AdjacencyPairs(k, T, dir, i, j, pairs[..q])
    {
      assert pairs[..q + 1][..q] == pairs[..q];
      clauses := clauses + [AdjacencyClause(k, T, dir, i, j, pairs[q])];
      q := q + 1;
    }
    assert pairs[..|pairs|] == pairs;
  }
}
