# Square tiling as SAT, modelled in Dafny

The program decides whether a k x k grid can be filled with tiles from a given set. A tile has four
coloured sides (top, right, bottom, left). Tiles may be reused but not rotated, and touching sides
of neighbouring cells must have equal colours. The program reduces the question to CNF
satisfiability and reads a placement back from a solver's model. This project models and proves
the core of that reduction:

- **the variable indexer** `cell_tile_to_var`. Module `Indexer`. Variable `(i*k + j)*T + t + 1`
  means "cell (i, j) holds tile t".
- **the encoder** `encode`. Modules `Encoder` and `EncoderFacts`. It emits four clause families,
  each clause ending in `0`:
  - coverage: at least one tile per cell;
  - uniqueness: at most one tile per cell;
  - horizontal incompatibility;
  - vertical incompatibility.

  The incompatible tile pairs of each direction are computed once.
- **the model decoder** from `print_result`. Modules `Decoder` and `DecoderFacts`.
  - Exit code 20 means unsatisfiable.
  - Otherwise the integers of the `v` lines are gathered and the first `0` is dropped.
  - An empty model means "no model". Otherwise each cell gets the first tile whose model entry is
    positive, or -1.
- **the instance loader** `load_instance`. Module `Loader`. It works over lines already split
  into integer tokens: three header lines, then tile lines of four colours, blank lines skipped.

Module `Tiling` holds the shared vocabulary:
- `Tile`;
- `Span(n)`, the iteration count of Python's `range(n)`;
- the placement predicates `IsGrid` and `ProperTiling`.

Module `Cnf` holds clause semantics over an assignment `int -> bool`. Module `Correctness`
connects the clauses to tilings.

The global instance variables (grid size, tile table, tile count) become explicit parameters `k`,
`tiles` and `T = |tiles|` of the encoder and the decoder. The loader keeps them as the fields of
the class `Loader.InstanceState`, which it updates in place the way the program assigns its
globals.

The code does not reject `k <= 0` or an empty tile set, and neither does the model.
- Loops over `range(k)` run `Span(k)` times.
- The variable count is `k*k*T` whatever its sign.
- With no tiles, each coverage clause is just `[0]`.

Each loop of `encode` and of the decoder is a `method` proved equal to a recursive function that
follows the same loop order. The lemmas state what those functions mean:
- which clauses appear, and how many;
- the exact bad-pair lists;
- that every clause is well formed;
- the satisfiability semantics;
- the decode round trip.

The decoder reads the model by position `var_id - 1`, not by the literal's variable number, and
looks only at the sign of the entry there. A model that lists its literals out of variable order
is misread (`Correctness.PositionalReading`). For a model printed in variable order the two
readings agree (`DecoderFacts.PositionalMatchesLiterals`).

## Model

| member | source | states |
|---|---|---|
| Indexer.CellTileToVarRange | square_tiling.py:51-53 | every in-range (i, j, t) gets an identifier in 1..k*k*T |
| Indexer.VarToCellTileInverse | square_tiling.py:51-53 | dividing id-1 by T and then by k recovers (i, j, t) from the identifier |
| Indexer.VarToCellTileOnto | square_tiling.py:51-53 | every identifier in 1..k*k*T is the identifier of the in-range triple that division recovers |
| Indexer.CellTileToVarInjective | square_tiling.py:51-53 | two in-range triples have the same identifier iff they are equal (with the two lemmas above: a bijection onto 1..k*k*T) |
| Encoder.Encode | square_tiling.py:56-119 | returns the variable count k*k*T and the formula: coverage, uniqueness, horizontal then vertical clauses |
| Encoder.EmitCoverage | square_tiling.py:63-68 | the i/j loops emit one coverage clause per cell, in row-major order |
| Encoder.EmitUniqueness | square_tiling.py:70-79 | the four nested loops emit the uniqueness clauses in loop order |
| Encoder.EmitUniquenessRow | square_tiling.py:72-79 | the column loop emits the uniqueness clauses of row i |
| Encoder.EmitCellUniqueness | square_tiling.py:73-79 | the t1/t2 loops emit one clause per pair t1 < t2 of cell (i, j) |
| Encoder.CollectBadPairs | square_tiling.py:87-92 | the pair loops collect the clashing ordered pairs (same loop for the vertical pairs at lines 104-108) |
| Encoder.EmitAdjacency | square_tiling.py:94-117 | rows and columns range over cells that have a right (horizontal) or lower (vertical) neighbour; emits the adjacency family |
| Encoder.EmitAdjacencyCells | square_tiling.py:94-101 | the row loop emits each row's adjacency clauses in order |
| Encoder.EmitAdjacencyRow | square_tiling.py:95-101 | the column loop emits the clauses of each cell of row i |
| Encoder.EmitCellAdjacency | square_tiling.py:96-101 | one clause per bad pair, in the order of the pair list |
| EncoderFacts.CoverageMember | square_tiling.py:63-68 | a clause is a coverage clause iff it lists the T positive identifiers of some in-range cell followed by 0 |
| EncoderFacts.CoverageCount | square_tiling.py:63-68 | there are k*k coverage clauses |
| EncoderFacts.UniquenessMember | square_tiling.py:70-79 | a clause is a uniqueness clause iff it is [-x(i,j,t1), -x(i,j,t2), 0] for an in-range cell and t1 < t2 < T |
| EncoderFacts.UniquenessTilesLength | square_tiling.py:73-79 | the first n values of t1 give n*(2T-n-1)/2 clauses per cell |
| EncoderFacts.UniquenessCount | square_tiling.py:70-79 | there are k*k*T*(T-1)/2 uniqueness clauses |
| EncoderFacts.BadPairsExact | square_tiling.py:82-108 | the bad-pair list holds exactly the ordered pairs of tile indices whose touching colours differ, without repeats, in loop order |
| EncoderFacts.AdjacencyMember | square_tiling.py:94-117 | a clause is an adjacency clause iff it forbids a listed pair on some cell and its right/lower neighbour |
| EncoderFacts.AdjacencyCount | square_tiling.py:94-117 | there are k*(k-1) adjacency clauses per bad pair in each direction, and none when k <= 1 (no wrap-around) |
| EncoderFacts.FormulaCount | square_tiling.py:56-119 | the formula's size is the sum of the four family sizes |
| EncoderFacts.CoverageClauseWellFormed | square_tiling.py:66-67 | a coverage clause of an in-range cell ends in its only 0, and every other literal is nonzero with magnitude at most k*k*T |
| EncoderFacts.UniquenessClauseWellFormed | square_tiling.py:75-79 | a uniqueness clause of in-range cell and tiles ends in its only 0, and every other literal is nonzero with magnitude at most k*k*T |
| EncoderFacts.AdjacencyClauseWellFormed | square_tiling.py:97-101 | an adjacency clause of an in-range cell pair and tile pair ends in its only 0, and every other literal is nonzero with magnitude at most k*k*T |
| EncoderFacts.FormulaWellFormed | square_tiling.py:56-119 | every clause ends with exactly one 0, and every other literal is nonzero with magnitude at most nr_vars |
| Correctness.CoverageSatisfied | square_tiling.py:63-68 | an assignment satisfies the coverage family iff every cell has a true tile variable |
| Correctness.UniquenessSatisfied | square_tiling.py:70-79 | an assignment satisfies the uniqueness family iff no cell has two true tile variables |
| Correctness.AdjacencySatisfied | square_tiling.py:87-117 | an assignment satisfies a direction's family iff no two neighbouring cells hold a clashing pair of tiles |
| Correctness.FormulaSatisfied | square_tiling.py:56-119 | an assignment satisfies the formula iff all four family conditions hold |
| Correctness.FormulaMeaning | square_tiling.py:56-119 | an assignment satisfies the formula iff it sets exactly the variables of a placement with one tile per cell and equal touching colours |
| Correctness.SatisfyingAnswerDecodesToTiling | square_tiling.py:141-178 | if the decoder's positional reading of the model satisfies the formula, the decoder outputs a full placement (no -1) with equal touching colours |
| Correctness.SolverModelDecodesToTiling | square_tiling.py:141-178 | if a solver prints its model in variable order, lists at least every variable of the formula and its literals satisfy the formula, the decoder outputs a full placement (no -1) with equal touching colours |
| Cnf.SameOnVariables | square_tiling.py:56-119 | assignments that agree on variables 1..nr_vars agree on every formula of well-formed clauses over nr_vars |
| Correctness.ProperTilingSatisfies | square_tiling.py:56-119 | the model of any proper placement satisfies the formula, so no tiling is lost |
| Correctness.NoSharedColourIsUnsatisfiable | square_tiling.py:87-117 | with tiles (1,2,3,4) and (5,6,7,8) no assignment satisfies the 2 x 2 formula |
| Correctness.NoSharedColourNoPlacement | square_tiling.py:87-101 | with those two tiles no 2 x 2 placement has equal touching colours |
| Correctness.SingleTileRoundTrip | square_tiling.py:56-178 | with the single tile (1,1,1,1) the all-zero placement's model satisfies the formula and decodes to k rows of zeros |
| Correctness.IdenticalTilesNeverClash | square_tiling.py:87-108 | two identical (0,0,0,0) tiles have no bad pairs, and every 2 x 2 placement of them is proper |
| Correctness.PositionalReading | square_tiling.py:173-177 | a model [2, -1] is read by position, so cell (0, 0) gets tile 0 |
| Correctness.DecodedEncodes | square_tiling.py:169-178 | under exactly one true tile per cell, the decoded grid is a placement that the assignment encodes |
| Correctness.EncodedNoClashIsProper | square_tiling.py:87-117 | a placement encoded by an assignment with no clashing neighbours has equal touching colours |
| Decoder.FirstTrue | square_tiling.py:172-177 | the result is -1 iff no tile of the cell is true; otherwise it is the smallest true tile |
| Decoder.RemoveFirstZero | square_tiling.py:155-156 | removes at most one entry from the model (the first 0; see the RemoveFirstZero lemmas for exactly which) |
| Decoder.ModelAssignment | square_tiling.py:175 | the positional reading: only variables 1..len(model) can be true, so a short model leaves the remaining variables false |
| Decoder.ReadModel | square_tiling.py:147-153 | gathers the integers of all v lines, in output order, dropping the v markers |
| Decoder.Decode | square_tiling.py:141-178 | exit code 20 gives unsatisfiable; an empty model after dropping the first 0 gives no model; otherwise the decoded grid |
| Decoder.DecodeRow | square_tiling.py:170-178 | row i holds each cell's first true tile or -1 |
| Decoder.FindTile | square_tiling.py:172-177 | the tile loop finds the first tile whose model entry at position var_id - 1 exists and is positive, without reading past the model's end |
| DecoderFacts.OutcomeCases | square_tiling.py:141-160 | unsatisfiable iff exit code 20; no model iff otherwise the stripped model is empty; a grid is k x k with entries in -1..T-1 |
| DecoderFacts.PositionalMatchesLiterals | square_tiling.py:175 | for a model printed in variable order, the positional reading and the model's literals agree on every listed variable |
| DecoderFacts.RemoveFirstZeroNone | square_tiling.py:155-156 | a model without 0 is unchanged |
| DecoderFacts.RemoveFirstZeroAt | square_tiling.py:155-156 | only the first 0 is removed; the entries before and after it stay in order |
| DecoderFacts.RemoveFirstZeroCount | square_tiling.py:155-156 | exactly one occurrence of 0 is removed when there is one |
| DecoderFacts.DecodedCellMeaning | square_tiling.py:169-178 | a cell decodes to -1 iff the model sets none of its tiles, else to the smallest tile it sets |
| DecoderFacts.EncodedDecodes | square_tiling.py:169-178 | an assignment that encodes a placement decodes to that placement |
| DecoderFacts.ModelOfEncodes | square_tiling.py:169-178 | the positional model built from a placement encodes it, has no 0 and is not empty |
| DecoderFacts.NumbersOfFields | square_tiling.py:150-153 | the numbers of a v line are its number tokens in order |
| DecoderFacts.DecodeRoundTrip | square_tiling.py:141-178 | a non-20 exit code and a v line printing a placement's positional model decode to that placement |
| Loader.ScanTiles | square_tiling.py:31-40 | the only error of the tile lines is a wrong arity, and at most one tile is read per line |
| Loader.Load | square_tiling.py:14-43 | a loaded instance has three one-integer header lines, carries the grid size and colour count read there, and holds as many tiles as declared, no more than the tile lines |
| Loader.ScanTilesMeaning | square_tiling.py:31-40 | reading tile lines succeeds iff every line is blank or has four colours, and then gives one tile per non-blank line, in order |
| Loader.ScanErrorSticks | square_tiling.py:36-38 | once a tile line has the wrong arity, later lines do not change the error |
| Loader.LoadSucceeds | square_tiling.py:14-43 | loading succeeds iff the three header lines hold one integer each, every tile line is blank or has four colours, and the count matches |
| Loader.LoadedInstance | square_tiling.py:14-48 | a loaded instance carries the header values and one tile per non-blank line, in file order |
| Loader.LoadErrors | square_tiling.py:14-43 | which error is raised, each with its own iff: empty file, a header line that is not one integer, missing second or third line, wrong arity, or count mismatch with the actual count |
| Loader.InstanceState.LoadInstance | square_tiling.py:11-48 | returns the tiles or the loader's error; grid size and colour count are set as soon as they are read; the tile table changes only on success |

## Left out

- Reading the instance file and converting its text with `int()` (square_tiling.py:15-29, 39). The loader takes lines already split into integer tokens. A token that is not an integer is not modelled. A header line with other than one token stands for `int()` failing (`NotANumber`).
- Writing the DIMACS file and running the solver as a subprocess (square_tiling.py:122-133). This is file I/O and an external process. The solver's answer is a parameter: an exit code plus its output lines. Each line is a flag for "starts with v" and its tokens (the marker `v` or an integer).
- Decoding the solver's bytes, echoing its output, the banner and printing the grid (square_tiling.py:138-139, 143-144, 159, 162-166, 178-179). These are output only. The model returns the outcome and the grid of tile indices that would be printed.
- Argument parsing and the command-line driver (square_tiling.py:182-226).
- Decoder.Decode: does not model `int()` failing on a token of a `v` line that is neither `v` nor an integer.
- The rows of the tile-colour lists `tops`, `rights`, `bottoms`, `lefts` (square_tiling.py:82-85) are not separate values. `Clash` reads the colours from the tile directly.
- Running the encoder twice gives the same clauses because `Encoder.Encode` is proved equal to a function of its inputs. No separate lemma states this.
