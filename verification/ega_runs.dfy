/** What a strip's control bytes mean, stated without the decoder's
    cursor: a list of runs fills the 8 x h block cell by cell in
    column-major order, and `DecodeStripV3` of the runs' encoding is that
    block. */
module EgaRuns {
  import opened Bytes
  import opened EgaStrip

  predicate AllWellFormed(runs: seq<Run>)
  {
    forall i :: 0 <= i < |runs| ==> WellFormed(runs[i])
  }

  /** The control bytes of a run list, one run after another. */
  function EncodeRuns(runs: seq<Run>): (b: seq<byte>)
    requires AllWellFormed(runs)
    ensures |b| >= |runs|
  {
    if |runs| == 0 then [] else EncodeRun(runs[0]) + EncodeRuns(runs[1..])
  }

  /** The number of pixels the runs paint. */
  function Total(runs: seq<Run>): nat
  {
    if |runs| == 0 then 0 else runs[0].len + Total(runs[1..])
  }

  /** The colour of pixel `z` of `run`, given the cells painted before it
      in column-major order: a solid run's colour; for a copy run the cell
      one column to the left, which is `h` cells back (0 in the first
      column); for a dither run the high nibble of the pair on even pixels
      and the low nibble on odd ones. */
  function NextCell(cells: seq<int>, h: nat, run: Run, z: nat): int
  {
    match run
    case Solid(_, c) => c
    case CopyLeft(_) => if 0 < h <= |cells| then cells[|cells| - h] else 0
    case Dither(_, p) => if z % 2 == 0 then p / 16 else p % 16
  }

  /** The cells so far followed by pixels `z ..` of `run`. */
  function RunCells(cells: seq<int>, h: nat, run: Run, z: nat): (r: seq<int>)
    requires z <= run.len
    decreases run.len - z
    ensures |r| == |cells| + run.len - z
  {
    if z == run.len then cells
    else RunCells(cells + [NextCell(cells, h, run, z)], h, run, z + 1)
  }

  /** The cells so far followed by the pixels of every run in turn. */
  function CellsOf(cells: seq<int>, h: nat, runs: seq<Run>): (r: seq<int>)
    decreases |runs|
    ensures |r| == |cells| + Total(runs)
  {
    if |runs| == 0 then cells else CellsOf(RunCells(cells, h, runs[0], 0), h, runs[1..])
  }

  /** The block whose cell `k` in column-major order, row `k % h` of column
      `k / h`, holds `cells[k]`; cells past the end stay 0. */
  function Block(cells: seq<int>, h: nat): (g: Strip)
    ensures IsStrip(g, h)
  {
    seq(h, y requires 0 <= y < h => seq(8, x requires 0 <= x < 8 => CellOr0(cells, x * h + y)))
  }

  function CellOr0(cells: seq<int>, k: nat): int
  {
    if k < |cells| then cells[k] else 0
  }

  /** The block a run list describes. */
  function Expand(runs: seq<Run>, h: nat): (g: Strip)
    ensures IsStrip(g, h)
  {
    Block(CellsOf([], h, runs), h)
  }

  /** Decoding the encoding of runs that fit in the block paints exactly
      the cells the runs describe. */
  lemma {:induction false} DecodeStripV3Expands(runs: seq<Run>, h: nat)
    requires AllWellFormed(runs) && Total(runs) <= 8 * h
    ensures DecodeStripV3(EncodeRuns(runs), h) == Expand(runs, h)
  {
    var r := DecodeStripV3(EncodeRuns(runs), h);
    if h == 0 {
      assert r == [] == Expand(runs, h);
    } else {
      var data := EncodeRuns(runs);
      assert data[0..] == data;
      BlankMatches(h);
      DecodeClipCells(data, h, 0, Cursor(0, 0), Blank(h), [], runs);
      MatchesBlock(r, h, CellsOf([], h, runs));
    }
  }

  /** The grid holds the cells in column-major order, 0 past their end. */
  predicate Matches(g: Strip, h: nat, cells: seq<int>)
  {
    IsStrip(g, h) && forall y, x :: 0 <= y < h && 0 <= x < 8 ==> g[y][x] == CellOr0(cells, x * h + y)
  }

  /** The cursor is on cell `n` of the column-major order. */
  predicate At(at: Cursor, h: nat, n: nat)
  {
    at.y < h && at.x * h + at.y == n
  }

  lemma BlankMatches(h: nat)
    requires h > 0
    ensures Matches(Blank(h), h, []) && At(Cursor(0, 0), h, 0)
  {
  }

  lemma {:induction false} MatchesBlock(g: Strip, h: nat, cells: seq<int>)
    requires Matches(g, h, cells)
    ensures g == Block(cells, h)
  {
    var b := Block(cells, h);
    forall y | 0 <= y < h
      ensures g[y] == b[y]
    {
      assert forall x :: 0 <= x < 8 ==> g[y][x] == b[y][x];
    }
  }

  /** Distinct cursor positions are distinct cells. */
  lemma CellsApart(x: nat, y: nat, x': nat, y': nat, h: nat)
    requires y < h && y' < h && x * h + y == x' * h + y'
    ensures x == x' && y == y'
  {
    if x < x' {
      MulLe(x + 1, x', h);
      assert false;
    } else if x' < x {
      MulLe(x' + 1, x, h);
      assert false;
    }
  }

  lemma {:induction false} MulLe(a: nat, b: nat, h: nat)
    requires a <= b
    ensures a * h <= b * h
  {
    if a < b {
      MulLe(a, b - 1, h);
      assert b * h == (b - 1) * h + h;
    }
  }

  /** The cursor is inside the block exactly when its cell is. */
  lemma InsideBlock(at: Cursor, h: nat, n: nat)
    requires At(at, h, n)
    ensures at.x < 8 <==> n < 8 * h
  {
    if at.x < 8 {
      MulLe(at.x + 1, 8, h);
    } else {
      MulLe(8, at.x, h);
    }
  }

  lemma AdvanceAt(at: Cursor, h: nat, n: nat)
    requires At(at, h, n)
    ensures At(Advance(at, h, 0), h, n + 1)
  {
    assert (at.x + 1) * h == at.x * h + h;
  }

  /** The left neighbour of the cursor's cell is the cell `h` back. */
  lemma LeftCell(g: Strip, h: nat, at: Cursor, cells: seq<int>)
    requires Matches(g, h, cells) && At(at, h, |cells|) && at.x < 8
    ensures Left(g, at) == if 0 < h <= |cells| then cells[|cells| - h] else 0
  {
    if at.x > 0 {
      assert (at.x - 1) * h == at.x * h - h;
    } else {
      assert |cells| < h;
    }
  }

  /** Writing the next cell at the cursor. */
  lemma PutMatches(g: Strip, h: nat, at: Cursor, cells: seq<int>, v: int)
    requires Matches(g, h, cells) && At(at, h, |cells|) && at.x < 8
    ensures Matches(Put(g, at.y, at.x, v), h, cells + [v])
  {
    var g' := Put(g, at.y, at.x, v);
    var c' := cells + [v];
    forall y, x | 0 <= y < h && 0 <= x < 8
      ensures g'[y][x] == CellOr0(c', x * h + y)
    {
      if y == at.y && x == at.x {
      } else {
        if x * h + y == |cells| {
          CellsApart(x, y, at.x, at.y, h);
        }
      }
    }
  }

  /** The pixel loop paints the run's cells in turn. */
  lemma {:induction false} PaintClipCells(g: Strip, h: nat, at: Cursor, run: Run, z: nat, cells: seq<int>)
    requires z <= run.len && Matches(g, h, cells) && At(at, h, |cells|)
    requires |cells| + run.len - z <= 8 * h
    ensures var p := PaintClip(g, h, at, run, z);
      Matches(p.grid, h, RunCells(cells, h, run, z)) && At(p.at, h, |cells| + run.len - z)
    decreases run.len - z
  {
    if z < run.len {
      InsideBlock(at, h, |cells|);
      LeftCell(g, h, at, cells);
      var v := RunColour(run, z, Left(g, at));
      assert v == NextCell(cells, h, run, z);
      PutMatches(g, h, at, cells, v);
      AdvanceAt(at, h, |cells|);
      PaintClipCells(Put(g, at.y, at.x, v), h, Advance(at, h, 0), run, z + 1, cells + [v]);
    }
  }

  /** The control bytes of a well-formed run at `pos` read back as it. */
  lemma ReadCommandAt(data: seq<byte>, pos: nat, run: Run, rest: seq<byte>)
    requires WellFormed(run) && pos <= |data| && data[pos..] == EncodeRun(run) + rest
    ensures pos < |data| && ReadCommand(data, pos) == Some(Command(run, pos + |EncodeRun(run)|))
  {
    var d := data[pos..];
    EncodeRunRoundTrip(run, rest);
    assert d[0] == data[pos];
    if |EncodeRun(run)| >= 2 {
      assert d[1] == data[pos + 1];
    }
    if |EncodeRun(run)| == 3 {
      assert d[2] == data[pos + 2];
    }
  }

  /** Runs without pixels add no cells. */
  lemma {:induction false} NoPixels(cells: seq<int>, h: nat, runs: seq<Run>)
    requires Total(runs) == 0
    ensures CellsOf(cells, h, runs) == cells
  {
    if |runs| > 0 {
      NoPixels(cells, h, runs[1..]);
    }
  }

  /** The decoding loop paints the cells of the runs still to be read. */
  lemma {:induction false} DecodeClipCells(data: seq<byte>, h: nat, pos: nat, at: Cursor, g: Strip, cells: seq<int>, runs: seq<Run>)
    requires AllWellFormed(runs) && pos <= |data| && data[pos..] == EncodeRuns(runs)
    requires Matches(g, h, cells) && At(at, h, |cells|) && |cells| + Total(runs) <= 8 * h
    ensures Matches(DecodeClip(data, h, pos, at, g), h, CellsOf(cells, h, runs))
    decreases |data| - pos
  {
    if |runs| == 0 {
      assert pos == |data|;
      assert DecodeClip(data, h, pos, at, g) == g;
    } else {
      InsideBlock(at, h, |cells|);
      if at.x >= 8 {
        NoPixels(cells, h, runs);
        assert DecodeClip(data, h, pos, at, g) == g;
      } else {
        var next := pos + |EncodeRun(runs[0])|;
        var p := PaintClip(g, h, at, runs[0], 0);
        var c := RunCells(cells, h, runs[0], 0);
        EncodeRunsTail(data, pos, runs);
        DecodeClipStep(data, h, pos, at, g, runs[0], next);
        FirstRunPaints(g, h, at, cells, runs);
        DecodeClipCells(data, h, next, p.at, p.grid, c, runs[1..]);
      }
    }
  }

  /** One turn of the decoding loop for a command read inside the block. */
  lemma DecodeClipStep(data: seq<byte>, h: nat, pos: nat, at: Cursor, g: Strip, run: Run, next: nat)
    requires pos < |data| && IsStrip(g, h) && at.x < 8
    requires ReadCommand(data, pos) == Some(Command(run, next))
    ensures var p := PaintClip(g, h, at, run, 0);
      next <= |data| && DecodeClip(data, h, pos, at, g) == DecodeClip(data, h, next, p.at, p.grid)
  {
  }

  /** The first run is painted cell by cell, leaving the cursor on the
      cell after it. */
  lemma FirstRunPaints(g: Strip, h: nat, at: Cursor, cells: seq<int>, runs: seq<Run>)
    requires |runs| > 0 && Matches(g, h, cells) && At(at, h, |cells|) && |cells| + Total(runs) <= 8 * h
    ensures var p := PaintClip(g, h, at, runs[0], 0);
      var c := RunCells(cells, h, runs[0], 0);
      Matches(p.grid, h, c) && At(p.at, h, |c|) && |c| + Total(runs[1..]) <= 8 * h
      && CellsOf(cells, h, runs) == CellsOf(c, h, runs[1..])
  {
    PaintClipCells(g, h, at, runs[0], 0, cells);
  }

  /** The first run is read back from its bytes, after which come the
      encodings of the others, which are well formed too. */
  lemma EncodeRunsTail(data: seq<byte>, pos: nat, runs: seq<Run>)
    requires AllWellFormed(runs) && |runs| > 0 && pos <= |data| && data[pos..] == EncodeRuns(runs)
    ensures AllWellFormed(runs[1..])
    ensures var next := pos + |EncodeRun(runs[0])|;
      pos < |data| && next <= |data| && data[next..] == EncodeRuns(runs[1..])
      && ReadCommand(data, pos) == Some(Command(runs[0], next))
  {
    ReadCommandAt(data, pos, runs[0], EncodeRuns(runs[1..]));
    assert AllWellFormed(runs[1..]) by {
      forall i | 0 <= i < |runs| - 1
        ensures WellFormed(runs[1..][i])
      {
        assert runs[1..][i] == runs[i + 1];
      }
    }
    assert data[pos..][|EncodeRun(runs[0])|..] == EncodeRuns(runs[1..]);
  }

  /** A solid run of 4 in colour 1 fills column 0 of a 4-row strip. */
  lemma SolidExample()
    ensures var g := DecodeStripV3([0x41], 4);
      (forall y :: 0 <= y < 4 ==> g[y][0] == 1) && forall y, x :: 0 <= y < 4 && 1 <= x < 8 ==> g[y][x] == 0
  {
    var runs := [Solid(4, 1)];
    assert EncodeRuns(runs) == [0x41];
    DecodeStripV3Expands(runs, 4);
    var cells := CellsOf([], 4, runs);
    assert cells == [1, 1, 1, 1];
    var g := DecodeStripV3([0x41], 4);
    assert g == Block(cells, 4);
  }

  /** A dither run of 2 on the pair 0x21 paints 2 then 1. */
  lemma DitherExample()
    ensures var g := DecodeStripV3([0xC2, 0x21], 4);
      g[0][0] == 2 && g[1][0] == 1 && g[2][0] == 0
  {
    var runs := [Dither(2, 0x21)];
    assert EncodeRuns(runs) == [0xC2, 0x21];
    DecodeStripV3Expands(runs, 4);
    var cells := CellsOf([], 4, runs);
    assert cells == [2, 1];
    BlockAt(cells, 4, 0, 0);
    BlockAt(cells, 4, 1, 0);
    BlockAt(cells, 4, 2, 0);
  }

  lemma BlockAt(cells: seq<int>, h: nat, y: nat, x: nat)
    requires y < h && x < 8
    ensures Block(cells, h)[y][x] == if x * h + y < |cells| then cells[x * h + y] else 0
  {
  }

  /** After a solid run fills column 0, a copy run of 1 repeats its colour
      in row 0 of column 1, and row 1 of column 1 stays blank. */
  lemma CopyLeftExample()
    ensures var g := DecodeStripV3([0x41, 0x81], 4);
      g[0][0] == 1 && g[0][1] == 1 && g[1][1] == 0
  {
    var runs := [Solid(4, 1), CopyLeft(1)];
    assert EncodeRuns(runs) == [0x41, 0x81];
    DecodeStripV3Expands(runs, 4);
    var cells := CellsOf([], 4, runs);
    assert cells == [1, 1, 1, 1, 1];
    BlockAt(cells, 4, 0, 0);
    BlockAt(cells, 4, 0, 1);
    BlockAt(cells, 4, 1, 1);
  }
}
