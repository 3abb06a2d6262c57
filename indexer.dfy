/** The variable indexer: one Boolean variable per (cell, tile) pair, numbered from 1 in row-major
    order over the cells and then by tile index within a cell. */
module Indexer {

  /** The identifier of the variable "cell (i, j) of the k x k grid holds tile t", T tiles in all. */
  function CellTileToVar(k: int, T: nat, i: int, j: int, t: int): int
  {
    (i * k + j) * T + t + 1
  }

  /** The inverse of CellTileToVar: recovers (i, j, t) from an identifier by division and
      remainder, first by T, then by k. */
  function VarToCellTile(k: int, T: nat, v: int): (int, int, int)
    requires k >= 1 && T >= 1
  {
    var cell := (v - 1) / T;
    (cell / k, cell % k, (v - 1) % T)
  }

  /** Every in-range triple gets an identifier in [1, k*k*T]. */
  lemma CellTileToVarRange(k: int, T: nat, i: int, j: int, t: int)
    requires 0 <= i < k && 0 <= j < k && 0 <= t < T
    ensures 1 <= CellTileToVar(k, T, i, j, t) <= k * k * T
  {
    var cell := i * k + j;
    MulMono(i, k - 1, k);
    assert (k - 1) * k == k * k - k;
    assert 0 <= cell && cell + 1 <= k * k;
    MulMono(cell + 1, k * k, T);
    MulMono(0, cell, T);
    assert (cell + 1) * T == cell * T + T;
    assert CellTileToVar(k, T, i, j, t) == cell * T + t + 1;
  }

  /** VarToCellTile undoes CellTileToVar on its whole domain. */
  lemma VarToCellTileInverse(k: int, T: nat, i: int, j: int, t: int)
    requires 0 <= i < k && 0 <= j < k && 0 <= t < T
    ensures VarToCellTile(k, T, CellTileToVar(k, T, i, j, t)) == (i, j, t)
  {
    DivModOf(i * k + j, t, T);
    DivModOf(i, j, k);
  }

  /** Every identifier in [1, k*k*T] is reached, from the triple VarToCellTile recovers. */
  lemma VarToCellTileOnto(k: int, T: nat, v: int)
    requires k >= 1 && T >= 1 && 1 <= v <= k * k * T
    ensures var (i, j, t) := VarToCellTile(k, T, v);
      && 0 <= i < k && 0 <= j < k && 0 <= t < T
      && CellTileToVar(k, T, i, j, t) == v
  {
    var n := v - 1;
    var cell, t := n / T, n % T;
    DivMod(n, T);
    if cell >= k * k {
      MulMono(k * k, cell, T);
    }
    var i, j := cell / k, cell % k;
    DivMod(cell, k);
    if i >= k {
      MulMono(k, i, k);
    }
    assert VarToCellTile(k, T, v) == (i, j, t);
    assert (i * k + j) * T == cell * T;
  }

  /** Distinct in-range triples get distinct identifiers, so together with CellTileToVarRange and
      VarToCellTileOnto the indexer is a bijection onto [1, k*k*T]. */
  lemma CellTileToVarInjective(k: int, T: nat, i1: int, j1: int, t1: int, i2: int, j2: int, t2: int)
    requires 0 <= i1 < k && 0 <= j1 < k && 0 <= t1 < T
    requires 0 <= i2 < k && 0 <= j2 < k && 0 <= t2 < T
    ensures CellTileToVar(k, T, i1, j1, t1) == CellTileToVar(k, T, i2, j2, t2) <==> (i1, j1, t1) == (i2, j2, t2)
  {
    VarToCellTileInverse(k, T, i1, j1, t1);
    VarToCellTileInverse(k, T, i2, j2, t2);
  }

  /** Multiplying by a non-negative factor keeps order. */
  lemma MulMono(a: int, b: int, c: int)
    requires a <= b && c >= 0
    ensures a * c <= b * c
  {
    assert b * c - a * c == (b - a) * c;
  }

  /** Division with remainder is unique. */
  lemma DivModOf(q: int, r: int, d: int)
    requires d > 0 && 0 <= r < d
    ensures (q * d + r) / d == q && (q * d + r) % d == r
  {
    var n := q * d + r;
    var x := n / d - q;
    assert d * x == r - n % d;
  }

  /** Euclidean division by a positive divisor, written with the quotient on the left. */
  lemma DivMod(n: int, d: int)
    requires n >= 0 && d > 0
    ensures n == (n / d) * d + n % d && 0 <= n % d < d && n / d >= 0
  {
  }
}
