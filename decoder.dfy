/** The model decoder: classifies the solver's answer and reads back, for every cell, the tile
    whose variable the model sets to true. */
module Decoder {
  import opened Tiling
  import opened Indexer
  import opened Cnf

  /** A whitespace-separated field of a solver output line: the marker "v" or a signed integer. */
  datatype Field = Marker | Number(value: int)

  /** A line of the solver's standard output: whether it starts with the letter v, and its fields. */
  datatype OutputLine = OutputLine(startsWithV: bool, fields: seq<Field>)

  /** What the decoder reports: no tiling exists, the solver gave no model, or the placement read
      from the model (k rows of k tile indices, -1 for a cell with no true variable). */
  datatype Outcome = Unsatisfiable | NoModel | Placement(grid: seq<seq<int>>)

  /** The solver's exit code for an unsatisfiable formula. */
  const UnsatExitCode := 20

  /** The integers of one model line, the markers dropped. */
  function Numbers(fields: seq<Field>): seq<int>
  {
    if fields == [] then []
    else (if fields[0].Marker? then [] else [fields[0].value]) + Numbers(fields[1..])
  }

  /** The integers of every line that starts with v, in output order. */
  function ModelTokens(lines: seq<OutputLine>): seq<int>
  {
    if lines == [] then []
    else
      var last := lines[|lines| - 1];
      ModelTokens(lines[..|lines| - 1]) + (if last.startsWithV then Numbers(last.fields) else [])
  }

  /** Drops the first 0 of the model and only that one; a model without 0 is kept. */
  function RemoveFirstZero(m: seq<int>): (r: seq<int>)
    ensures |r| <= |m| <= |r| + 1
  {
    if m == [] then []
    else if m[0] == 0 then m[1..]
    else [m[0]] + RemoveFirstZero(m[1..])
  }

  /** The decoder's reading of a model: positional, variable v is true when the model has an
      entry at index v - 1 and that entry is positive. The sign of the entry is all that is
      looked at; its magnitude is not compared with v. */
  function ModelAssignment(model: seq<int>): (a: Assignment)
    ensures forall v :: a(v) ==> 1 <= v <= |model|
  {
    v => 0 < v && v - 1 < |model| && model[v - 1] > 0
  }

  /** The first tile t >= t0 whose variable at cell (i, j) is true, or -1 if there is none. */
  function FirstTrue(a: Assignment, k: int, T: nat, i: int, j: int, t0: nat): (r: int)
    ensures r == -1 || t0 <= r < T
    ensures r == -1 <==> forall t :: t0 <= t < T ==> !a(CellTileToVar(k, T, i, j, t))
    ensures r != -1 ==> a(CellTileToVar(k, T, i, j, r))
    ensures r != -1 ==> forall t :: t0 <= t < r ==> !a(CellTileToVar(k, T, i, j, t))
    decreases T - t0
  {
    if t0 >= T then -1
    else if a(CellTileToVar(k, T, i, j, t0)) then t0
    else FirstTrue(a, k, T, i, j, t0 + 1)
  }

  /** The k x k placement read from an assignment. */
  function DecodeGrid(a: Assignment, k: int, T: nat): seq<seq<int>>
  {
    seq(Span(k), i => seq(Span(k), j => FirstTrue(a, k, T, i, j, 0)))
  }

  /** The decoder's whole answer for a solver exit code and standard output. */
  function SolverOutcome(returnCode: int, lines: seq<OutputLine>, k: int, T: nat): Outcome
  {
    if returnCode == UnsatExitCode then Unsatisfiable
    else
      var model := RemoveFirstZero(ModelTokens(lines));
      if model == [] then NoModel else Placement(DecodeGrid(ModelAssignment(model), k, T))
  }

  /** `a` sets exactly the variables of placement g: cell (i, j) holds tile g[i][j] and no other. */
  ghost predicate Encodes(a: Assignment, k: int, T: nat, g: seq<seq<int>>)
  {
    && IsGrid(g, k, T)
    && forall i, j, t :: 0 <= i < Span(k) && 0 <= j < Span(k) && 0 <= t < T ==>
         (a(CellTileToVar(k, T, i, j, t)) <==> g[i][j] == t)
  }

  // ---------------------------------------------------------------------------------------------
  // The decoding loops.

  /** Gathers the integers of the v lines into one list. */
  method ReadModel(lines: seq<OutputLine>) returns (model: seq<int>)
    ensures model == ModelTokens(lines)
  {
    model := [];
    var n := 0;
    while n < |lines|
      invariant 0 <= n <= |lines|
      invariant model == ModelTokens(lines[..n])
    {
      assert lines[..n + 1][..n] == lines[..n];
      if lines[n].startsWithV {
        model := model + Numbers(lines[n].fields);
      }
      n := n + 1;
    }
    assert lines[..|lines|] == lines;
  }

  method Decode(returnCode: int, lines: seq<OutputLine>, k: int, T: nat) returns (out: Outcome)
    ensures out == SolverOutcome(returnCode, lines, k, T)
  {
    if returnCode == UnsatExitCode {
      return Unsatisfiable;
    }
    var model := ReadModel(lines);
    model := RemoveFirstZero(model);
    if model == [] {
      return NoModel;
    }
    ghost var a := ModelAssignment(model);
    var rows: seq<seq<int>> := [];
    var i := 0;
    while i < k
      invariant 0 <= i <= Span(k)
      invariant |rows| == i
      invariant forall i' :: 0 <= i' < i ==> rows[i'] == DecodeGrid(a, k, T)[i']
    {
      var row := DecodeRow(model, k, T, i);
      rows := rows + [row];
      i := i + 1;
    }
    out := Placement(rows);
  }

  /** Row i of the decoded grid. */
  method DecodeRow(model: seq<int>, k: int, T: nat, i: int) returns (row: seq<int>)
    requires 0 <= i < k
    ensures row == seq(Span(k), j => FirstTrue(ModelAssignment(model), k, T, i, j, 0))
  {
    row := [];
    var j := 0;
    while j < k
      invariant 0 <= j <= Span(k)
      invariant |row| == j
      invariant forall j' :: 0 <= j' < j ==> row[j'] == FirstTrue(ModelAssignment(model), k, T, i, j', 0)
    {
      var tileHere := FindTile(model, k, T, i, j);
      row := row + [tileHere];
      j := j + 1;
    }
  }

  /** The tile loop of cell (i, j): the first tile whose variable the model sets, else -1. */
  method FindTile(model: seq<int>, k: int, T: nat, i: int, j: int) returns (tileHere: int)
    requires 0 <= i < k && 0 <= j < k
    ensures tileHere == FirstTrue(ModelAssignment(model), k, T, i, j, 0)
  {
    ghost var a := ModelAssignment(model);
    tileHere := -1;
    var t := 0;
    while t < T
      invariant 0 <= t <= T
      invariant forall t' :: 0 <= t' < t ==> !a(CellTileToVar(k, T, i, j, t'))
    {
      var varId := CellTileToVar(k, T, i, j, t);
      CellTileToVarRange(k, T, i, j, t);
      if varId - 1 < |model| && model[varId - 1] > 0 {
        tileHere := t;
        break;
      }
      t := t + 1;
    }
  }
}
