/** The puzzle itself: tiles with four edge colours, the k x k grid and what a proper tiling is. */
module Tiling {

  /** A square tile, given by the colours of its edges. Tiles are told apart by their index in the
      tile list, not by their colours: two entries with equal colours are two placeable tiles. */
  datatype Tile = Tile(top: int, right: int, bottom: int, left: int)

  /** The number of iterations of Python's `range(n)`: zero when n is not positive. */
  function Span(n: int): nat
  {
    if n < 0 then 0 else n
  }

  /** `g` is a k x k matrix of tile indices, each in [0, T). */
  predicate IsGrid(g: seq<seq<int>>, k: int, T: nat)
  {
    && |g| == Span(k)
    && (forall i :: 0 <= i < |g| ==> |g[i]| == Span(k))
    && (forall i, j :: 0 <= i < |g| && 0 <= j < |g[i]| ==> 0 <= g[i][j] < T)
  }

  /** Every horizontally adjacent pair (i, j)-(i, j+1) has the right colour of the left tile equal
      to the left colour of the right tile, and every vertically adjacent pair (i, j)-(i+1, j) has
      the bottom colour of the upper tile equal to the top colour of the lower tile. There is no
      wrap-around: the last column and the last row have no further neighbour. */
  predicate ProperTiling(tiles: seq<Tile>, k: int, g: seq<seq<int>>)
    requires IsGrid(g, k, |tiles|)
  {
    && (forall i, j :: 0 <= i < Span(k) && 0 <= j < Span(k) - 1 ==>
          tiles[g[i][j]].right == tiles[g[i][j + 1]].left)
    && (forall i, j :: 0 <= i < Span(k) - 1 && 0 <= j < Span(k) ==>
          tiles[g[i][j]].bottom == tiles[g[i + 1][j]].top)
  }
}
