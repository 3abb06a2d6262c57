/** What the decoder reads back: the first 0 alone is dropped, an assignment that encodes a
    placement decodes to that placement, and a solver line printing a placement's model decodes
    to that placement. */
module DecoderFacts {
  import opened Tiling
  import opened Indexer
  import opened Cnf
  import opened Decoder

  /** The solver output's outcome is one of three, told apart as the decoder does: exit code 20
      first, then an empty model, and only then a grid with one entry per cell. */
  lemma OutcomeCases(returnCode: int, lines: seq<OutputLine>, k: int, T: nat)
    ensures SolverOutcome(returnCode, lines, k, T).Unsatisfiable? <==> returnCode == UnsatExitCode
    ensures SolverOutcome(returnCode, lines, k, T).NoModel? <==>
      returnCode != UnsatExitCode && RemoveFirstZero(ModelTokens(lines)) == []
    ensures SolverOutcome(returnCode, lines, k, T).Placement? ==>
      var g := SolverOutcome(returnCode, lines, k, T).grid;
      && |g| == Span(k)
      && (forall i :: 0 <= i < |g| ==> |g[i]| == Span(k))
      && (forall i, j :: 0 <= i < |g| && 0 <= j < |g[i]| ==> -1 <= g[i][j] < T)
  {
  }

  /** Without a 0 the model is left as it is. */
  lemma {:induction false} RemoveFirstZeroNone(m: seq<int>)
    requires 0 !in m
    ensures RemoveFirstZero(m) == m
  {
    if m != [] {
      assert m == [m[0]] + m[1..];
      assert 0 !in m[1..];
      RemoveFirstZeroNone(m[1..]);
    }
  }

  /** Only the first 0 goes: everything before it and everything after it stays, in order. */
  lemma {:induction false} RemoveFirstZeroAt(m: seq<int>, z: nat)
    requires z < |m| && m[z] == 0 && 0 !in m[..z]
    ensures RemoveFirstZero(m) == m[..z] + m[z + 1..]
  {
    if z == 0 {
      assert m[..0] == [];
    } else {
      assert m[0] == m[..z][0];
      var tail := m[1..];
      assert tail[..z - 1] == m[..z][1..];
      RemoveFirstZeroAt(tail, z - 1);
      assert m[..z] == [m[0]] + tail[..z - 1];
      assert tail[z..] == m[z + 1..];
    }
  }

  /** Exactly one occurrence of 0 goes, when there is one. */
  lemma {:induction false} RemoveFirstZeroCount(m: seq<int>)
    ensures multiset(RemoveFirstZero(m)) == multiset(m) - multiset{0}
  {
    if m != [] {
      var t := m[1..];
      RemoveFirstZeroCount(t);
      assert m == [m[0]] + t;
      assert multiset(m) == multiset{m[0]} + multiset(t);
      if m[0] == 0 {
        assert RemoveFirstZero(m) == t;
      } else {
        var r := RemoveFirstZero(t);
        assert RemoveFirstZero(m) == [m[0]] + r;
        assert multiset([m[0]] + r) == multiset{m[0]} + multiset(r);
      }
    }
  }

  /** Each decoded cell is the smallest tile whose variable the model sets, or -1 when it sets
      none; such a cell decodes on its own, without affecting the others. */
  lemma DecodedCellMeaning(a: Assignment, k: int, T: nat, i: int, j: int)
    requires 0 <= i < Span(k) && 0 <= j < Span(k)
    ensures var r := DecodeGrid(a, k, T)[i][j];
      && (r == -1 <==> forall t :: 0 <= t < T ==> !a(CellTileToVar(k, T, i, j, t)))
      && (r != -1 ==> 0 <= r < T && a(CellTileToVar(k, T, i, j, r)))
      && (r != -1 ==> forall t :: 0 <= t < r ==> !a(CellTileToVar(k, T, i, j, t)))
  {
  }

  /** A model printed in variable order: entry p is the literal of variable p + 1, either sign. */
  predicate InVariableOrder(m: seq<int>)
  {
    forall p :: 0 <= p < |m| ==> m[p] == p + 1 || m[p] == -(p + 1)
  }

  /** For a model printed in variable order, the decoder's positional reading and the model's
      literals agree on every variable the model lists. */
  lemma PositionalMatchesLiterals(m: seq<int>)
    requires InVariableOrder(m)
    ensures forall v :: 1 <= v <= |m| ==> (ModelAssignment(m)(v) <==> LiteralAssignment(m)(v))
  {
    forall v | 1 <= v <= |m| ensures ModelAssignment(m)(v) <==> v in m {
      if v in m {
        var p :| 0 <= p < |m| && m[p] == v;
        assert p == v - 1;
      }
    }
  }

  /** An assignment that sets exactly the variables of a placement decodes to that placement. */
  lemma EncodedDecodes(a: Assignment, k: int, T: nat, g: seq<seq<int>>)
    requires Encodes(a, k, T, g)
    ensures DecodeGrid(a, k, T) == g
  {
    var d := DecodeGrid(a, k, T);
    forall i | 0 <= i < Span(k) ensures d[i] == g[i] {
      forall j | 0 <= j < Span(k) ensures d[i][j] == g[i][j] {
        assert a(CellTileToVar(k, T, i, j, g[i][j]));
      }
    }
  }

  /** The model a solver prints for placement g: entry v - 1 is v when cell and tile of v agree
      with g, -v otherwise. */
  function ModelOf(g: seq<seq<int>>, k: int, T: nat): seq<int>
    requires k >= 1 && T >= 1
  {
    seq(Span(k) * Span(k) * T, n =>
      var (i, j, t) := VarToCellTile(k, T, n + 1);
      if 0 <= i < |g| && 0 <= j < |g[i]| && g[i][j] == t then n + 1 else -(n + 1))
  }

  lemma ModelOfEncodes(g: seq<seq<int>>, k: int, T: nat)
    requires k >= 1 && T >= 1 && IsGrid(g, k, T)
    ensures Encodes(ModelAssignment(ModelOf(g, k, T)), k, T, g)
    ensures 0 !in ModelOf(g, k, T) && ModelOf(g, k, T) != []
  {
    var m := ModelOf(g, k, T);
    forall i, j, t | 0 <= i < Span(k) && 0 <= j < Span(k) && 0 <= t < T
      ensures ModelAssignment(m)(CellTileToVar(k, T, i, j, t)) <==> g[i][j] == t
    {
      CellTileToVarRange(k, T, i, j, t);
      VarToCellTileInverse(k, T, i, j, t);
    }
    assert m[0] == 1 || m[0] == -1;
  }

  /** The fields of a model line "v l1 ... ln 0". */
  function AsFields(m: seq<int>): seq<Field>
  {
    if m == [] then [] else [Number(m[0])] + AsFields(m[1..])
  }

  function ModelLine(m: seq<int>): OutputLine
  {
    OutputLine(true, [Marker] + AsFields(m) + [Number(0)])
  }

  lemma {:induction false} NumbersOfFields(m: seq<int>, rest: seq<Field>)
    ensures Numbers(AsFields(m) + rest) == m + Numbers(rest)
  {
    if m != [] {
      NumbersOfFields(m[1..], rest);
      var fields := AsFields(m) + rest;
      assert fields == [Number(m[0])] + (AsFields(m[1..]) + rest);
      assert fields[0] == Number(m[0]) && fields[1..] == AsFields(m[1..]) + rest;
      assert Numbers(fields) == [m[0]] + Numbers(fields[1..]);
      assert m == [m[0]] + m[1..];
      assert [m[0]] + (m[1..] + Numbers(rest)) == m + Numbers(rest);
    } else {
      assert AsFields(m) + rest == rest;
    }
  }

  /** Round trip: a solver that reports satisfiable and prints the model of placement g on one v
      line gets g back from the decoder. */
  lemma DecodeRoundTrip(returnCode: int, g: seq<seq<int>>, k: int, T: nat)
    requires returnCode != UnsatExitCode
    requires k >= 1 && T >= 1 && IsGrid(g, k, T)
    ensures SolverOutcome(returnCode, [ModelLine(ModelOf(g, k, T))], k, T) == Placement(g)
  {
    var m := ModelOf(g, k, T);
    var lines := [ModelLine(m)];
    assert lines[..0] == [];
    NumbersOfFields(m, [Number(0)]);
    assert Numbers([Number(0)]) == [0];
    assert ModelLine(m).fields == [Marker] + (AsFields(m) + [Number(0)]);
    assert ModelTokens(lines) == m + [0];
    ModelOfEncodes(g, k, T);
    assert (m + [0])[..|m|] == m;
    RemoveFirstZeroAt(m + [0], |m|);
    assert RemoveFirstZero(m + [0]) == m;
    EncodedDecodes(ModelAssignment(m), k, T, g);
  }
}
