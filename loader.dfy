/*
 * Loading an instance: three header lines (grid size, number of colours, declared tile count)
 * followed by tile lines of four colours each, blank lines skipped. Lines are given already
 * split on whitespace and converted to integers; an empty line is a blank one.
 */
module Loader {
  import opened Tiling

  /** One input line as its whitespace-separated integer tokens. */
  type Line = seq<int>

  /** The distinct reasons `load_instance` raises, in the order it checks them. */
  datatype LoadError =
    | EmptyFile                          // no first line at all
    | MissingColours                     // no second line
    | MissingTileCount                   // no third line
    | NotANumber                         // a header line that is not exactly one integer
    | WrongArity                         // a non-blank tile line without exactly 4 colours
    | CountMismatch(expected: int, got: nat)

  datatype Result<T> = Ok(value: T) | Err(error: LoadError)

  datatype Instance = Instance(gridSize: int, nrColours: int, tiles: seq<Tile>)

  datatype Option<T> = None | Some(value: T)

  /** The tile a four-token line describes, colours in the order top, right, bottom, left. */
  function AsTile(line: Line): Tile
    requires |line| == 4
  {
    Tile(line[0], line[1], line[2], line[3])
  }

  /** Reads the tile lines in order, skipping blank ones; the first non-blank line without
      exactly four tokens stops the reading with WrongArity. */
  function ScanTiles(body: seq<Line>): (r: Result<seq<Tile>>)
    ensures r.Err? ==> r.error == WrongArity
    ensures r.Ok? ==> |r.value| <= |body|
  {
    if body == [] then Ok([])
    else
      var last := body[|body| - 1];
      match ScanTiles(body[..|body| - 1])
      case Err(e) => Err(e)
      case Ok(tiles) =>
        if last == [] then Ok(tiles)
        else if |last| != 4 then Err(WrongArity)
        else Ok(tiles + [AsTile(last)])
  }

  /** The whole loader: header checks, tile lines, then the declared count. */
  function Load(lines: seq<Line>): (r: Result<Instance>)
    ensures r.Ok? ==> |lines| >= 3 && |lines[0]| == 1 && |lines[1]| == 1 && |lines[2]| == 1
    ensures r.Ok? ==> r.value.gridSize == lines[0][0] && r.value.nrColours == lines[1][0]
    ensures r.Ok? ==> |r.value.tiles| == lines[2][0] <= |lines| - 3
  {
    if |lines| == 0 then Err(EmptyFile)
    else if |lines[0]| != 1 then Err(NotANumber)
    else if |lines| == 1 then Err(MissingColours)
    else if |lines[1]| != 1 then Err(NotANumber)
    else if |lines| == 2 then Err(MissingTileCount)
    else if |lines[2]| != 1 then Err(NotANumber)
    else
      match ScanTiles(lines[3..])
      case Err(e) => Err(e)
      case Ok(tiles) =>
        if |tiles| != lines[2][0] then Err(CountMismatch(lines[2][0], |tiles|))
        else Ok(Instance(lines[0][0], lines[1][0], tiles))
  }

  // ---------------------------------------------------------------------------------------------
  // A reference reading: the non-blank lines, filtered from the front.

  function NonBlank(body: seq<Line>): seq<Line>
  {
    if body == [] then []
    else (if body[0] == [] then [] else [body[0]]) + NonBlank(body[1..])
  }

  /** Every line is blank or holds exactly four colours. */
  predicate TileLinesWellFormed(body: seq<Line>)
  {
    forall n :: 0 <= n < |body| ==> body[n] == [] || |body[n]| == 4
  }

  lemma {:induction false} NonBlankAppend(a: seq<Line>, b: seq<Line>)
    ensures NonBlank(a + b) == NonBlank(a) + NonBlank(b)
  {
    if a != [] {
      assert (a + b)[0] == a[0];
      assert (a + b)[1..] == a[1..] + b;
      NonBlankAppend(a[1..], b);
    } else {
      assert a + b == b;
    }
  }

  /** ScanTiles succeeds exactly when every line is blank or has four colours, and then yields
      one tile per non-blank line, in file order. */
  lemma {:induction false} ScanTilesMeaning(body: seq<Line>)
    ensures ScanTiles(body).Ok? <==> TileLinesWellFormed(body)
    ensures ScanTiles(body).Err? ==> ScanTiles(body).error == WrongArity
    ensures ScanTiles(body).Ok? ==>
      var nb := NonBlank(body);
      && |ScanTiles(body).value| == |nb|
      && forall n :: 0 <= n < |nb| ==> |nb[n]| == 4 && ScanTiles(body).value[n] == AsTile(nb[n])
  {
    if body != [] {
      var init, last := body[..|body| - 1], body[|body| - 1];
      assert body == init + [last];
      ScanTilesMeaning(init);
      NonBlankAppend(init, [last]);
      assert NonBlank([last]) == (if last == [] then [] else [last]) + NonBlank([]);
      if TileLinesWellFormed(init) && (last == [] || |last| == 4) {
        forall n | 0 <= n < |body| ensures body[n] == [] || |body[n]| == 4 {
          if n < |init| { assert body[n] == init[n]; }
        }
      } else if !TileLinesWellFormed(init) {
        var n :| 0 <= n < |init| && init[n] != [] && |init[n]| != 4;
        assert body[n] == init[n];
      } else {
        assert body[|body| - 1] == last;
      }
    }
  }

  /** Loading succeeds exactly when there are three one-integer header lines, every further line
      is blank or has four colours, and the non-blank ones are as many as the third line says. */
  lemma LoadSucceeds(lines: seq<Line>)
    ensures Load(lines).Ok? <==>
      && |lines| >= 3
      && |lines[0]| == 1 && |lines[1]| == 1 && |lines[2]| == 1
      && TileLinesWellFormed(lines[3..])
      && |NonBlank(lines[3..])| == lines[2][0]
  {
    if |lines| >= 3 {
      ScanTilesMeaning(lines[3..]);
    }
  }

  /** A loaded instance carries the header values and one tile per non-blank line, in order. */
  lemma LoadedInstance(lines: seq<Line>)
    requires Load(lines).Ok?
    ensures |lines| >= 3
    ensures Load(lines).value.gridSize == lines[0][0]
    ensures Load(lines).value.nrColours == lines[1][0]
    ensures var nb := NonBlank(lines[3..]);
      && |Load(lines).value.tiles| == |nb| == lines[2][0]
      && forall n :: 0 <= n < |nb| ==> |nb[n]| == 4 && Load(lines).value.tiles[n] == AsTile(nb[n])
  {
    ScanTilesMeaning(lines[3..]);
  }

  /** Which error is raised: the first missing or malformed header line, else the first
      malformed tile line, else the count mismatch with the number of tiles actually read. */
  lemma LoadErrors(lines: seq<Line>)
    ensures Load(lines) == Err(EmptyFile) <==> |lines| == 0
    ensures Load(lines) == Err(MissingColours) <==> |lines| == 1 && |lines[0]| == 1
    ensures Load(lines) == Err(MissingTileCount) <==>
      |lines| == 2 && |lines[0]| == 1 && |lines[1]| == 1
    ensures Load(lines) == Err(NotANumber) <==>
      || (|lines| >= 1 && |lines[0]| != 1)
      || (|lines| >= 2 && |lines[0]| == 1 && |lines[1]| != 1)
      || (|lines| >= 3 && |lines[0]| == 1 && |lines[1]| == 1 && |lines[2]| != 1)
    ensures Load(lines) == Err(WrongArity) <==>
      && |lines| >= 3 && |lines[0]| == 1 && |lines[1]| == 1 && |lines[2]| == 1
      && !TileLinesWellFormed(lines[3..])
    ensures Load(lines).Err? && Load(lines).error.CountMismatch? <==>
      && |lines| >= 3 && |lines[0]| == 1 && |lines[1]| == 1 && |lines[2]| == 1
      && TileLinesWellFormed(lines[3..])
      && |NonBlank(lines[3..])| != lines[2][0]
    ensures Load(lines).Err? && Load(lines).error.CountMismatch? ==>
      Load(lines).error == CountMismatch(lines[2][0], |NonBlank(lines[3..])|)
  {
    if |lines| >= 3 {
      ScanTilesMeaning(lines[3..]);
    }
  }

  // ---------------------------------------------------------------------------------------------
  // The loader as the program runs it: process-wide instance state updated in place.

  /** The module-level instance variables: grid size and colour count (unset until a file is
      read), the tile table and its length. */
  class InstanceState {
    var gridSize: Option<int>
    var nrColours: Option<int>
    var tiles: seq<Tile>
    var nrTiles: nat

    predicate Valid()
      reads this
    {
      nrTiles == |tiles|
    }

    constructor ()
      ensures Valid()
      ensures gridSize == None && nrColours == None && tiles == [] && nrTiles == 0
    {
      gridSize, nrColours, tiles, nrTiles := None, None, [], 0;
    }

    /** Reads an instance. Each header value is stored as soon as it is read, so a failure
        further on leaves the earlier ones set; the tile table changes only on success. */
    method LoadInstance(lines: seq<Line>) returns (r: Result<seq<Tile>>)
      requires Valid()
      modifies this
      ensures Valid()
      ensures r.Ok? <==> Load(lines).Ok?
      ensures r.Ok? ==> r.value == Load(lines).value.tiles
      ensures r.Err? ==> r.error == Load(lines).error
      ensures gridSize == (if |lines| >= 1 && |lines[0]| == 1 then Some(lines[0][0])
                           else old(gridSize))
      ensures nrColours == (if |lines| >= 2 && |lines[0]| == 1 && |lines[1]| == 1
                            then Some(lines[1][0]) else old(nrColours))
      ensures tiles == (if r.Ok? then r.value else old(tiles))
    {
      if |lines| == 0 {
        return Err(EmptyFile);
      }
      if |lines[0]| != 1 {
        return Err(NotANumber);
      }
      gridSize := Some(lines[0][0]);
      if |lines| == 1 {
        return Err(MissingColours);
      }
      if |lines[1]| != 1 {
        return Err(NotANumber);
      }
      nrColours := Some(lines[1][0]);
      if |lines| == 2 {
        return Err(MissingTileCount);
      }
      if |lines[2]| != 1 {
        return Err(NotANumber);
      }
      var m := lines[2][0];
      var body := lines[3..];
      var read: seq<Tile> := [];
      var n := 0;
      while n < |body|
        invariant 0 <= n <= |body|
        invariant ScanTiles(body[..n]) == Ok(read)
      {
        assert body[..n + 1][..n] == body[..n];
        var line := body[n];
        if line != [] {
          if |line| != 4 {
            ScanErrorSticks(body, n + 1);
            return Err(WrongArity);
          }
          read := read + [Tile(line[0], line[1], line[2], line[3])];
        }
        n := n + 1;
      }
      assert body[..n] == body;
      if |read| != m {
        return Err(CountMismatch(m, |read|));
      }
      tiles, nrTiles := read, |read|;
      return Ok(read);
    }
  }

  /** Once a prefix of the tile lines fails, reading more lines does not recover. */
  lemma {:induction false} ScanErrorSticks(body: seq<Line>, n: nat)
    requires n <= |body| && ScanTiles(body[..n]).Err?
    ensures ScanTiles(body) == ScanTiles(body[..n])
  {
    if n < |body| {
      assert body[..|body| - 1][..n] == body[..n];
      ScanErrorSticks(body[..|body| - 1], n);
    } else {
      assert body[..n] == body;
    }
  }
}
