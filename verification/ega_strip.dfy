/** The three-mode EGA strip run-length decoder (ScummVM's drawStripEGA)
    as written in `ScummV3Decoder.decodeStripV3` and its guarded Python
    copies.  A strip is 8 columns by `h` rows, filled column-major; every
    control byte selects a single-colour run, a copy-the-left-column run or
    a two-colour dither run. */
module EgaStrip {
  import opened Bytes

  /** One decoded control sequence. */
  datatype Run =
    | Solid(len: nat, colour: nat)   // 0x00-0x7F: run = high nibble, colour = low nibble
    | CopyLeft(len: nat)             // 0x80-0xBF: copy the same row of column x-1
    | Dither(len: nat, pair: byte)   // 0xC0-0xFF: alternate pair >> 4, pair & 0xF

  predicate WellFormed(run: Run)
  {
    run.len < 256 && (run.Solid? ==> run.colour < 16)
  }

  /** A run together with the position of the byte after it. */
  datatype Command = Command(run: Run, next: nat)

  /** Reads the control sequence at `pos`.  A zero run field means the run
      length is in the following byte; in dither mode the colour byte comes
      first and the extension byte after it.  None when a required byte is
      missing, which ends decoding. */
  function ReadCommand(data: seq<byte>, pos: nat): (r: Option<Command>)
    requires pos < |data|
    ensures r.Some? ==> pos < r.value.next <= pos + 3 && r.value.next <= |data|
    ensures r.Some? ==> WellFormed(r.value.run)
    ensures r.None? ==> |data| < pos + 3
  {
    var c := data[pos];
    if c < 0x80 then
      if c / 16 != 0 then Some(Command(Solid(c / 16, c % 16), pos + 1))
      else if pos + 1 < |data| then Some(Command(Solid(data[pos + 1], c % 16), pos + 2))
      else None
    else if c < 0xC0 then
      if c % 64 != 0 then Some(Command(CopyLeft(c % 64), pos + 1))
      else if pos + 1 < |data| then Some(Command(CopyLeft(data[pos + 1]), pos + 2))
      else None
    else if pos + 1 >= |data| then None
    else if c % 64 != 0 then Some(Command(Dither(c % 64, data[pos + 1]), pos + 2))
    else if pos + 2 < |data| then Some(Command(Dither(data[pos + 2], data[pos + 1]), pos + 3))
    else None
  }

  /** The shortest control sequence an encoder would emit for `run`. */
  function EncodeRun(run: Run): (b: seq<byte>)
    requires WellFormed(run)
  {
    match run
    case Solid(n, c) => if 1 <= n < 8 then [16 * n + c] else [c, n]
    case CopyLeft(n) => if 1 <= n < 64 then [0x80 + n] else [0x80, n]
    case Dither(n, p) => if 1 <= n < 64 then [0xC0 + n, p] else [0xC0, p, n]
  }

  /** Every well-formed run is read back from its encoding, whatever
      follows it. */
  lemma EncodeRunRoundTrip(run: Run, rest: seq<byte>)
    requires WellFormed(run)
    ensures ReadCommand(EncodeRun(run) + rest, 0) == Some(Command(run, |EncodeRun(run)|))
  {
    var d := EncodeRun(run) + rest;
    match run
    case Solid(n, c) =>
      if 1 <= n < 8 {
        assert d[0] == 16 * n + c;
      } else {
        assert d[0] == c && d[1] == n;
      }
    case CopyLeft(n) =>
      if 1 <= n < 64 {
        assert d[0] == 0x80 + n;
      } else {
        assert d[0] == 0x80 && d[1] == n;
      }
    case Dither(n, p) =>
      if 1 <= n < 64 {
        assert d[0] == 0xC0 + n && d[1] == p;
      } else {
        assert d[0] == 0xC0 && d[1] == p && d[2] == n;
      }
  }

  /** An 8-column strip buffer, one row per pixel row. */
  type Strip = seq<seq<int>>

  predicate IsStrip(g: Strip, h: nat)
  {
    |g| == h && forall r :: 0 <= r < h ==> |g[r]| == 8
  }

  /** Every pixel is a 4-bit palette index. */
  predicate Nibbles(g: seq<seq<int>>)
  {
    forall r, c :: 0 <= r < |g| && 0 <= c < |g[r]| ==> 0 <= g[r][c] < 16
  }

  function Blank(h: nat): (g: Strip)
    ensures IsStrip(g, h) && Nibbles(g)
    ensures forall r, c :: 0 <= r < h && 0 <= c < 8 ==> g[r][c] == 0
  {
    seq(h, _ => seq(8, _ => 0))
  }

  function Put(g: Strip, y: nat, x: nat, v: int): (g': Strip)
    requires y < |g| && x < |g[y]|
    ensures |g'| == |g| && |g'[y]| == |g[y]|
  {
    g[y := g[y][x := v]]
  }

  /** The write position: column `x`, row `y`. */
  datatype Cursor = Cursor(x: nat, y: nat)

  /** `y++; if (y >= height) { y = reset; x++ }`. */
  function Advance(at: Cursor, h: nat, reset: nat): (next: Cursor)
    ensures next.x == at.x || next.x == at.x + 1
  {
    if at.y + 1 >= h then Cursor(at.x + 1, reset) else Cursor(at.x, at.y + 1)
  }

  /** The cursor is on a row of the strip, or on row 0 of an empty strip. */
  predicate CursorOk(at: Cursor, h: nat)
  {
    at.y < h || at.y == 0
  }

  /** The colour of the `z`-th pixel of a run; `left` is the pixel in the
      same row of the previous column (0 in column 0). */
  function RunColour(run: Run, z: nat, left: int): (v: int)
    ensures WellFormed(run) && 0 <= left < 16 ==> 0 <= v < 16
  {
    match run
    case Solid(_, c) => c
    case CopyLeft(_) => left
    case Dither(_, p) => if z % 2 == 0 then p / 16 else p % 16
  }

  function Left(g: Strip, at: Cursor): int
    requires at.y < |g| && at.x <= |g[at.y]|
  {
    if at.x > 0 then g[at.y][at.x - 1] else 0
  }

  datatype Painted = Painted(grid: Strip, at: Cursor)

  /** The pixel loop of `decodeStripV3`: every pixel of the run advances the
      cursor, and it is written only when `y < height && x < 8`. */
  function PaintClip(g: Strip, h: nat, at: Cursor, run: Run, z: nat): (p: Painted)
    requires IsStrip(g, h) && z <= run.len
    decreases run.len - z
    ensures IsStrip(p.grid, h)
    ensures Nibbles(g) && WellFormed(run) ==> Nibbles(p.grid)
    ensures at.x <= p.at.x
    ensures CursorOk(at, h) ==> CursorOk(p.at, h)
    ensures forall r, c :: 0 <= r < h && 0 <= c < at.x && c < 8 ==> p.grid[r][c] == g[r][c]
  {
    if z == run.len then Painted(g, at)
    else
      var g' := if at.y < h && at.x < 8 then Put(g, at.y, at.x, RunColour(run, z, Left(g, at))) else g;
      PaintClip(g', h, Advance(at, h, 0), run, z + 1)
  }

  /** The outer loop of `decodeStripV3`: stops once column 8 is reached or
      a required byte is missing.  Each iteration consumes at least one
      byte, so `|data| - pos` decreases. */
  function DecodeClip(data: seq<byte>, h: nat, pos: nat, at: Cursor, g: Strip): (r: Strip)
    requires pos <= |data| && IsStrip(g, h)
    decreases |data| - pos
    ensures IsStrip(r, h)
    ensures Nibbles(g) ==> Nibbles(r)
    ensures forall y, c :: 0 <= y < h && 0 <= c < at.x && c < 8 ==> r[y][c] == g[y][c]
  {
    if at.x >= 8 || pos >= |data| then g
    else match ReadCommand(data, pos)
      case None => g
      case Some(cmd) =>
        var p := PaintClip(g, h, at, cmd.run, 0);
        DecodeClip(data, h, cmd.next, p.at, p.grid)
  }

  /** `ScummV3Decoder.decodeStripV3` (before the copy into the image) and
      `decode_strip_v3` / `decode_strip_debug`: the 8 x h block decoded from
      one strip, starting from a zero block. */
  function DecodeStripV3(data: seq<byte>, h: nat): (r: Strip)
    ensures IsStrip(r, h) && Nibbles(r)
  {
    DecodeClip(data, h, 0, Cursor(0, 0), Blank(h))
  }

  /** Empty strip data leaves the block untouched. */
  lemma DecodeStripV3Empty(h: nat)
    ensures DecodeStripV3([], h) == Blank(h)
  {
  }

  /** The pixel loop of the Python `decode_strip_ega` / `drawStripEGA`
      copies: the run is cut off (`break`) once `x >= 8`. */
  function PaintBreak(g: Strip, h: nat, at: Cursor, run: Run, z: nat): (p: Painted)
    requires IsStrip(g, h) && z <= run.len
    decreases run.len - z
    ensures IsStrip(p.grid, h)
  {
    if z == run.len || at.x >= 8 then Painted(g, at)
    else
      var g' := if at.y < h then Put(g, at.y, at.x, RunColour(run, z, Left(g, at))) else g;
      PaintBreak(g', h, Advance(at, h, 0), run, z + 1)
  }

  function DecodeBreak(data: seq<byte>, h: nat, pos: nat, at: Cursor, g: Strip): (r: Strip)
    requires pos <= |data| && IsStrip(g, h)
    decreases |data| - pos
    ensures IsStrip(r, h)
  {
    if at.x >= 8 || pos >= |data| then g
    else match ReadCommand(data, pos)
      case None => g
      case Some(cmd) =>
        var p := PaintBreak(g, h, at, cmd.run, 0);
        DecodeBreak(data, h, cmd.next, p.at, p.grid)
  }

  /** `decode_strip_ega` in decode_to_real_files.py, decode_objects_v3.py,
      decode_object_v2.py and decode_object_test.py, and the guarded
      `drawStripEGA` copies. */
  function DecodeStripEga(data: seq<byte>, h: nat): (r: Strip)
    ensures IsStrip(r, h)
  {
    DecodeBreak(data, h, 0, Cursor(0, 0), Blank(h))
  }

  /** Past column 7 the clipping loop writes nothing. */
  lemma {:induction false} PaintClipPastEnd(g: Strip, h: nat, at: Cursor, run: Run, z: nat)
    requires IsStrip(g, h) && z <= run.len && at.x >= 8
    ensures PaintClip(g, h, at, run, z).grid == g
    ensures PaintClip(g, h, at, run, z).at.x >= 8
    decreases run.len - z
  {
    if z < run.len {
      PaintClipPastEnd(g, h, Advance(at, h, 0), run, z + 1);
    }
  }

  /** Cutting a run off at column 8 and clipping its writes there paint the
      same pixels; the cursors agree until column 8 is reached. */
  lemma {:induction false} PaintBreakMatchesClip(g: Strip, h: nat, at: Cursor, run: Run, z: nat)
    requires IsStrip(g, h) && z <= run.len
    ensures PaintBreak(g, h, at, run, z).grid == PaintClip(g, h, at, run, z).grid
    ensures PaintClip(g, h, at, run, z).at.x < 8 ==> PaintBreak(g, h, at, run, z).at == PaintClip(g, h, at, run, z).at
    ensures PaintClip(g, h, at, run, z).at.x >= 8 ==> PaintBreak(g, h, at, run, z).at.x >= 8
    decreases run.len - z
  {
    if z == run.len {
    } else if at.x >= 8 {
      PaintClipPastEnd(g, h, at, run, z);
    } else {
      var g' := if at.y < h then Put(g, at.y, at.x, RunColour(run, z, Left(g, at))) else g;
      PaintBreakMatchesClip(g', h, Advance(at, h, 0), run, z + 1);
    }
  }

  lemma {:induction false} DecodeBreakMatchesClip(data: seq<byte>, h: nat, pos: nat, at: Cursor, g: Strip)
    requires pos <= |data| && IsStrip(g, h)
    ensures DecodeBreak(data, h, pos, at, g) == DecodeClip(data, h, pos, at, g)
    decreases |data| - pos
  {
    if at.x >= 8 || pos >= |data| {
    } else {
      match ReadCommand(data, pos)
      case None =>
      case Some(cmd) =>
        PaintBreakMatchesClip(g, h, at, cmd.run, 0);
        var pc := PaintClip(g, h, at, cmd.run, 0);
        var pb := PaintBreak(g, h, at, cmd.run, 0);
        if pc.at.x < 8 {
          DecodeBreakMatchesClip(data, h, cmd.next, pc.at, pc.grid);
        }
    }
  }

  /** The Python copies that cut runs off at column 8 decode exactly the
      block the TypeScript decoder does. */
  lemma DecodeStripEgaIsDecodeStripV3(data: seq<byte>, h: nat)
    ensures DecodeStripEga(data, h) == DecodeStripV3(data, h)
  {
    DecodeBreakMatchesClip(data, h, 0, Cursor(0, 0), Blank(h));
  }
}
