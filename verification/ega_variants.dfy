/** The copies of drawStripEGA that do not clip their writes: the grid copy
    in decode_all_rooms.py, the flat-buffer port in decode_strip_scummvm.py
    and the two "Y offset" experiments.  Each is related to the clipping
    decoder of `EgaStrip`: they agree with it exactly when no run reaches
    past column 7, and otherwise raise an IndexError or spill into the next
    row. */
module EgaVariants {
  import opened Bytes
  import opened EgaStrip

  /** What a Python strip decoder returns: a block, `None` for a too short
      input, or an IndexError from an out-of-range write. */
  datatype Outcome = Decoded(strip: Strip) | TooShort | Crashed

  /** How many pixels a run can still place from `at`, wrapping to row
      `reset`, before the cursor reaches column 8. */
  function Slots(at: Cursor, h: nat, reset: nat): nat
    decreases 8 - at.x, if at.y < h then h - at.y else 0
  {
    if at.x >= 8 then 0 else 1 + Slots(Advance(at, h, reset), h, reset)
  }

  /** The cursor after `n` pixels. */
  function Moved(at: Cursor, h: nat, reset: nat, n: nat): (next: Cursor)
    decreases n
    ensures at.x <= next.x
  {
    if n == 0 then at else Moved(Advance(at, h, reset), h, reset, n - 1)
  }

  /** The row a run wraps to: single-colour runs to `solidReset`, dither
      and copy runs to `otherReset`. */
  function ResetOf(run: Run, solidReset: nat, otherReset: nat): nat
  {
    if run.Solid? then solidReset else otherReset
  }

  /** The first run, if any, with more pixels than cells left before
      column 8, and how many of its pixels fit. */
  datatype Overrun = Fits | Overruns(run: Run, fitted: nat)

  /** How many pixels of the first overrunning run lie past column 7. */
  function Excess(o: Overrun): nat
  {
    if o.Overruns? && o.run.len > o.fitted then o.run.len - o.fitted else 0
  }

  /** Walks the runs of a strip by the cursor alone (the pixels written do
      not steer it) until the data ends, column 8 is reached or a run
      overruns. */
  function FirstOverrun(data: seq<byte>, h: nat, pos: nat, at: Cursor, solidReset: nat, otherReset: nat): (o: Overrun)
    requires pos <= |data|
    decreases |data| - pos
    ensures o.Overruns? ==> o.fitted < o.run.len
  {
    if at.x >= 8 || pos >= |data| then Fits
    else match ReadCommand(data, pos)
      case None => Fits
      case Some(cmd) =>
        var reset := ResetOf(cmd.run, solidReset, otherReset);
        var s := Slots(at, h, reset);
        if cmd.run.len > s then Overruns(cmd.run, s)
        else FirstOverrun(data, h, cmd.next, Moved(at, h, reset, cmd.run.len), solidReset, otherReset)
  }

  /** Every run of the strip, rows wrapping to 0, ends within column 7. */
  predicate RunsFit(data: seq<byte>, h: nat, pos: nat, at: Cursor)
    requires pos <= |data|
  {
    FirstOverrun(data, h, pos, at, 0, 0).Fits?
  }

  lemma {:induction false} MovedPastSlots(at: Cursor, h: nat, reset: nat, n: nat)
    requires n >= Slots(at, h, reset)
    ensures Moved(at, h, reset, n).x >= 8
    decreases n
  {
    if at.x < 8 {
      MovedPastSlots(Advance(at, h, reset), h, reset, n - 1);
    }
  }

  lemma {:induction false} MovedStaysIn(at: Cursor, h: nat, reset: nat, n: nat)
    requires reset <= at.y < h
    ensures reset <= Moved(at, h, reset, n).y < h
    decreases n
  {
    if n > 0 {
      MovedStaysIn(Advance(at, h, reset), h, reset, n - 1);
    }
  }

  /** The clipping decoder's cursor moves as the walk's does. */
  lemma {:induction false} PaintClipMoved(g: Strip, h: nat, at: Cursor, run: Run, z: nat)
    requires IsStrip(g, h) && z <= run.len
    ensures PaintClip(g, h, at, run, z).at == Moved(at, h, 0, run.len - z)
    decreases run.len - z
  {
    if z < run.len {
      var g' := if at.y < h && at.x < 8 then Put(g, at.y, at.x, RunColour(run, z, Left(g, at))) else g;
      PaintClipMoved(g', h, Advance(at, h, 0), run, z + 1);
    }
  }

  // ---------------------------------------------------------------------
  // Grid buffer without the `x < 8` guard

  /** The pixel loop guarded only by `y < height`: a write at column 8 or
      beyond raises. */
  function PaintUnguarded(g: Strip, h: nat, at: Cursor, reset: nat, run: Run, z: nat): (r: Option<Painted>)
    requires IsStrip(g, h) && z <= run.len
    decreases run.len - z
    ensures r.Some? ==> IsStrip(r.value.grid, h)
    ensures r.Some? && Nibbles(g) && WellFormed(run) ==> Nibbles(r.value.grid)
  {
    if z == run.len then Some(Painted(g, at))
    else if at.y < h then
      if at.x >= 8 then None
      else PaintUnguarded(Put(g, at.y, at.x, RunColour(run, z, Left(g, at))), h, Advance(at, h, reset), reset, run, z + 1)
    else PaintUnguarded(g, h, Advance(at, h, reset), reset, run, z + 1)
  }

  /** The outer loop; single-colour runs wrap to row `solidReset`, the
      other two modes to row `otherReset`. */
  function DecodeUnguarded(data: seq<byte>, h: nat, pos: nat, at: Cursor, g: Strip, solidReset: nat, otherReset: nat): (r: Outcome)
    requires pos <= |data| && IsStrip(g, h)
    decreases |data| - pos
    ensures r.Decoded? ==> IsStrip(r.strip, h)
    ensures r.Decoded? && Nibbles(g) ==> Nibbles(r.strip)
    ensures r != TooShort
  {
    if at.x >= 8 || pos >= |data| then Decoded(g)
    else match ReadCommand(data, pos)
      case None => Decoded(g)
      case Some(cmd) =>
        var reset := if cmd.run.Solid? then solidReset else otherReset;
        match PaintUnguarded(g, h, at, reset, cmd.run, 0)
        case None => Crashed
        case Some(p) => DecodeUnguarded(data, h, cmd.next, p.at, p.grid, solidReset, otherReset)
  }

  /** `drawStripEGA` in decode_all_rooms.py. */
  function DrawStripUnguarded(data: seq<byte>, h: nat): (r: Outcome)
    ensures r.Decoded? ==> IsStrip(r.strip, h) && Nibbles(r.strip)
    ensures r != TooShort
  {
    DecodeUnguarded(data, h, 0, Cursor(0, 0), Blank(h), 0, 0)
  }

  lemma {:induction false} PaintUnguardedIsClip(g: Strip, h: nat, at: Cursor, run: Run, z: nat)
    requires IsStrip(g, h) && z <= run.len && CursorOk(at, h)
    ensures PaintUnguarded(g, h, at, 0, run, z)
      == if h > 0 && run.len - z > Slots(at, h, 0) then None else Some(PaintClip(g, h, at, run, z))
    decreases run.len - z
  {
    if z == run.len {
    } else if at.y < h {
      if at.x < 8 {
        PaintUnguardedIsClip(Put(g, at.y, at.x, RunColour(run, z, Left(g, at))), h, Advance(at, h, 0), run, z + 1);
      }
    } else {
      PaintUnguardedIsClip(g, h, Advance(at, h, 0), run, z + 1);
    }
  }

  lemma {:induction false} DecodeUnguardedIsClip(data: seq<byte>, h: nat, pos: nat, at: Cursor, g: Strip)
    requires pos <= |data| && IsStrip(g, h) && CursorOk(at, h)
    ensures DecodeUnguarded(data, h, pos, at, g, 0, 0)
      == if h > 0 && !RunsFit(data, h, pos, at) then Crashed else Decoded(DecodeClip(data, h, pos, at, g))
    decreases |data| - pos
  {
    if at.x >= 8 || pos >= |data| {
    } else {
      match ReadCommand(data, pos)
      case None =>
      case Some(cmd) =>
        PaintUnguardedIsClip(g, h, at, cmd.run, 0);
        PaintClipMoved(g, h, at, cmd.run, 0);
        var p := PaintClip(g, h, at, cmd.run, 0);
        DecodeUnguardedIsClip(data, h, cmd.next, p.at, p.grid);
    }
  }

  /** The unguarded grid copy raises exactly when the strip is non-empty
      in height and some run reaches past column 7; otherwise it decodes
      the same block as `decodeStripV3`. */
  lemma DrawStripUnguardedSpec(data: seq<byte>, h: nat)
    ensures DrawStripUnguarded(data, h) == Crashed <==> h > 0 && !RunsFit(data, h, 0, Cursor(0, 0))
    ensures DrawStripUnguarded(data, h) != Crashed ==> DrawStripUnguarded(data, h) == Decoded(DecodeStripV3(data, h))
  {
    DecodeUnguardedIsClip(data, h, 0, Cursor(0, 0), Blank(h));
  }

  // ---------------------------------------------------------------------
  // Flat buffer `dst[y * 8 + x]`

  datatype FlatPainted = FlatPainted(buf: seq<int>, at: Cursor)

  /** All entries below `n` are zero. */
  predicate ZeroBelow(f: seq<int>, n: int)
  {
    forall k :: 0 <= k < |f| && k < n ==> f[k] == 0
  }

  /** The pixel loop on a flat buffer; a write at column 8 lands in column 0
      of the next row, and one past the end of the buffer raises.  With
      `guardY`, rows at or below `height` are skipped. */
  function PaintFlat(f: seq<int>, h: nat, at: Cursor, reset: nat, guardY: bool, run: Run, z: nat): (r: Option<FlatPainted>)
    requires z <= run.len
    decreases run.len - z
    ensures r.Some? ==> |r.value.buf| == |f|
    ensures r.Some? && at.y >= reset ==> r.value.at.y >= reset
    ensures r.Some? && at.y >= reset && ZeroBelow(f, 8 * reset) ==> ZeroBelow(r.value.buf, 8 * reset)
  {
    if z == run.len then Some(FlatPainted(f, at))
    else if guardY && at.y >= h then PaintFlat(f, h, Advance(at, h, reset), reset, guardY, run, z + 1)
    else
      var i := 8 * at.y + at.x;
      if i >= |f| then None
      else
        var left := if at.x > 0 then f[i - 1] else 0;
        PaintFlat(f[i := RunColour(run, z, left)], h, Advance(at, h, reset), reset, guardY, run, z + 1)
  }

  function DecodeFlat(data: seq<byte>, h: nat, pos: nat, at: Cursor, f: seq<int>, reset: nat, guardY: bool): (r: Option<seq<int>>)
    requires pos <= |data|
    decreases |data| - pos
    ensures r.Some? ==> |r.value| == |f|
    ensures r.Some? && at.y >= reset && ZeroBelow(f, 8 * reset) ==> ZeroBelow(r.value, 8 * reset)
  {
    if at.x >= 8 || pos >= |data| then Some(f)
    else match ReadCommand(data, pos)
      case None => Some(f)
      case Some(cmd) =>
        match PaintFlat(f, h, at, reset, guardY, cmd.run, 0)
        case None => None
        case Some(p) => DecodeFlat(data, h, cmd.next, p.at, p.buf, reset, guardY)
  }

  /** The final copy `pixels[row][col] = dst[row * 8 + col]`. */
  function Reshape(f: seq<int>, h: nat): (g: Strip)
    requires |f| == 8 * h
    ensures IsStrip(g, h)
    ensures forall r, c :: 0 <= r < h && 0 <= c < 8 ==> g[r][c] == f[8 * r + c]
  {
    seq(h, r requires 0 <= r < h => f[8 * r .. 8 * r + 8])
  }

  function Zeros(n: nat): (f: seq<int>)
    ensures |f| == n && ZeroBelow(f, n)
  {
    seq(n, _ => 0)
  }

  /** Every entry of a flat buffer is a 4-bit palette index. */
  predicate FlatNibbles(f: seq<int>)
  {
    forall k :: 0 <= k < |f| ==> 0 <= f[k] < 16
  }

  lemma {:induction false} PaintFlatNibbles(f: seq<int>, h: nat, at: Cursor, reset: nat, guardY: bool, run: Run, z: nat)
    requires z <= run.len && WellFormed(run) && FlatNibbles(f)
    decreases run.len - z
    ensures var r := PaintFlat(f, h, at, reset, guardY, run, z); r.Some? ==> FlatNibbles(r.value.buf)
  {
    if z == run.len {
    } else if guardY && at.y >= h {
      PaintFlatNibbles(f, h, Advance(at, h, reset), reset, guardY, run, z + 1);
    } else {
      var i := 8 * at.y + at.x;
      if i < |f| {
        var left := if at.x > 0 then f[i - 1] else 0;
        PaintFlatNibbles(f[i := RunColour(run, z, left)], h, Advance(at, h, reset), reset, guardY, run, z + 1);
      }
    }
  }

  /** The flat-buffer decoder writes only palette indices. */
  lemma {:induction false} DecodeFlatNibbles(data: seq<byte>, h: nat, pos: nat, at: Cursor, f: seq<int>, reset: nat, guardY: bool)
    requires pos <= |data| && FlatNibbles(f)
    decreases |data| - pos
    ensures var r := DecodeFlat(data, h, pos, at, f, reset, guardY); r.Some? ==> FlatNibbles(r.value)
  {
    if at.x >= 8 || pos >= |data| {
    } else {
      match ReadCommand(data, pos)
      case None =>
      case Some(cmd) =>
        PaintFlatNibbles(f, h, at, reset, guardY, cmd.run, 0);
        match PaintFlat(f, h, at, reset, guardY, cmd.run, 0)
        case None =>
        case Some(p) => DecodeFlatNibbles(data, h, cmd.next, p.at, p.buf, reset, guardY);
    }
  }

  /** `drawStripEGA` in decode_strip_scummvm.py. */
  function DrawStripFlat(data: seq<byte>, h: nat): (r: Outcome)
    ensures r.Decoded? ==> IsStrip(r.strip, h) && Nibbles(r.strip)
    ensures r != TooShort
  {
    DecodeFlatNibbles(data, h, 0, Cursor(0, 0), Zeros(8 * h), 0, false);
    match DecodeFlat(data, h, 0, Cursor(0, 0), Zeros(8 * h), 0, false)
    case None => Crashed
    case Some(f) => Decoded(Reshape(f, h))
  }

  /** `drawStripWithOffset` in decode_strip_with_offset.py: byte 4 is a
      starting row, the runs start at byte 5, and every column wrap returns
      to that row. */
  function DrawStripWithOffset(src: seq<byte>, h: nat): (r: Outcome)
    ensures r == TooShort <==> |src| < 5
    ensures r.Decoded? ==> IsStrip(r.strip, h)
    ensures r.Decoded? ==> forall y, c :: 0 <= y < h && y < src[4] && 0 <= c < 8 ==> r.strip[y][c] == 0
  {
    if |src| < 5 then TooShort
    else
      var yOff := src[4];
      match DecodeFlat(src[5..], h, 0, Cursor(0, yOff), Zeros(8 * h), yOff, true)
      case None => Crashed
      case Some(f) => Decoded(Reshape(f, h))
  }

  /** `f` holds the rows of `g` one after the other. */
  predicate Agrees(f: seq<int>, g: Strip, h: nat)
  {
    |f| == 8 * h && IsStrip(g, h)
    && forall r, c :: 0 <= r < h && 0 <= c < 8 ==> f[8 * r + c] == g[r][c]
  }

  lemma IndexUnique(r: int, c: int, y: int, x: int)
    requires 0 <= c < 8 && 0 <= x < 8
    ensures 8 * r + c == 8 * y + x <==> r == y && c == x
  {
  }

  lemma AgreesPut(f: seq<int>, g: Strip, h: nat, y: nat, x: nat, v: int)
    requires Agrees(f, g, h) && y < h && x < 8
    ensures 8 * y + x < |f|
    ensures Agrees(f[8 * y + x := v], Put(g, y, x, v), h)
  {
    forall r, c | 0 <= r < h && 0 <= c < 8
      ensures f[8 * y + x := v][8 * r + c] == Put(g, y, x, v)[r][c]
    {
      IndexUnique(r, c, y, x);
    }
  }

  lemma {:induction false} PaintFlatIsClip(f: seq<int>, g: Strip, h: nat, at: Cursor, run: Run, z: nat)
    requires z <= run.len && Agrees(f, g, h) && at.y < h
    requires run.len - z <= Slots(at, h, 0)
    ensures PaintFlat(f, h, at, 0, false, run, z).Some?
    ensures Agrees(PaintFlat(f, h, at, 0, false, run, z).value.buf, PaintClip(g, h, at, run, z).grid, h)
    ensures PaintFlat(f, h, at, 0, false, run, z).value.at == PaintClip(g, h, at, run, z).at
    decreases run.len - z
  {
    if z < run.len {
      var i := 8 * at.y + at.x;
      assert at.x < 8;
      var v := RunColour(run, z, Left(g, at));
      FlatClipStep(f, g, h, at, run, z);
      var next := Advance(at, h, 0);
      assert Slots(at, h, 0) == 1 + Slots(next, h, 0);
      assert next.y < h;
      PaintFlatIsClip(f[i := v], Put(g, at.y, at.x, v), h, next, run, z + 1);
    }
  }

  lemma {:induction false} DecodeFlatIsClip(data: seq<byte>, h: nat, pos: nat, at: Cursor, f: seq<int>, g: Strip)
    requires pos <= |data| && Agrees(f, g, h) && at.y < h
    requires RunsFit(data, h, pos, at)
    ensures DecodeFlat(data, h, pos, at, f, 0, false).Some?
    ensures Agrees(DecodeFlat(data, h, pos, at, f, 0, false).value, DecodeClip(data, h, pos, at, g), h)
    decreases |data| - pos
  {
    if at.x >= 8 || pos >= |data| {
    } else {
      match ReadCommand(data, pos)
      case None =>
      case Some(cmd) =>
        PaintFlatIsClip(f, g, h, at, cmd.run, 0);
        PaintClipMoved(g, h, at, cmd.run, 0);
        var p := PaintClip(g, h, at, cmd.run, 0);
        var q := PaintFlat(f, h, at, 0, false, cmd.run, 0).value;
        DecodeFlatIsClip(data, h, cmd.next, p.at, q.buf, p.grid);
    }
  }

  lemma ReshapeAgrees(f: seq<int>, g: Strip, h: nat)
    requires Agrees(f, g, h)
    ensures Reshape(f, h) == g
  {
    var s := Reshape(f, h);
    forall r | 0 <= r < h
      ensures s[r] == g[r]
    {
      assert forall c :: 0 <= c < 8 ==> s[r][c] == g[r][c];
    }
  }

  /** When every run ends within column 7 the flat-buffer port decodes the
      same block as `decodeStripV3`. */
  lemma DrawStripFlatIsDecodeStripV3(data: seq<byte>, h: nat)
    requires h > 0 && RunsFit(data, h, 0, Cursor(0, 0))
    ensures DrawStripFlat(data, h) == Decoded(DecodeStripV3(data, h))
  {
    assert Agrees(Zeros(8 * h), Blank(h), h);
    DecodeFlatIsClip(data, h, 0, Cursor(0, 0), Zeros(8 * h), Blank(h));
    var f := DecodeFlat(data, h, 0, Cursor(0, 0), Zeros(8 * h), 0, false).value;
    ReshapeAgrees(f, DecodeStripV3(data, h), h);
  }

  /** With a row offset of 0 the row guard never fires, so the offset port
      decodes the rest of the data like the flat port. */
  lemma {:induction false} PaintFlatGuardUnused(f: seq<int>, h: nat, at: Cursor, run: Run, z: nat)
    requires z <= run.len && at.y < h
    ensures PaintFlat(f, h, at, 0, true, run, z) == PaintFlat(f, h, at, 0, false, run, z)
    decreases run.len - z
  {
    if z < run.len {
      var i := 8 * at.y + at.x;
      if i < |f| {
        var left := if at.x > 0 then f[i - 1] else 0;
        PaintFlatGuardUnused(f[i := RunColour(run, z, left)], h, Advance(at, h, 0), run, z + 1);
      }
    }
  }

  lemma {:induction false} DecodeFlatGuardUnused(data: seq<byte>, h: nat, pos: nat, at: Cursor, f: seq<int>)
    requires pos <= |data| && at.y < h
    ensures DecodeFlat(data, h, pos, at, f, 0, true) == DecodeFlat(data, h, pos, at, f, 0, false)
    decreases |data| - pos
  {
    if at.x >= 8 || pos >= |data| {
    } else {
      match ReadCommand(data, pos)
      case None =>
      case Some(cmd) =>
        PaintFlatGuardUnused(f, h, at, cmd.run, 0);
        match PaintFlat(f, h, at, 0, false, cmd.run, 0)
        case None =>
        case Some(p) =>
          PaintFlatCursor(f, h, at, cmd.run, 0);
          DecodeFlatGuardUnused(data, h, cmd.next, p.at, p.buf);
    }
  }

  lemma {:induction false} PaintFlatCursor(f: seq<int>, h: nat, at: Cursor, run: Run, z: nat)
    requires z <= run.len && at.y < h
    ensures PaintFlat(f, h, at, 0, false, run, z).Some? ==> PaintFlat(f, h, at, 0, false, run, z).value.at.y < h
    decreases run.len - z
  {
    if z < run.len {
      var i := 8 * at.y + at.x;
      if i < |f| {
        var left := if at.x > 0 then f[i - 1] else 0;
        PaintFlatCursor(f[i := RunColour(run, z, left)], h, Advance(at, h, 0), run, z + 1);
      }
    }
  }

  lemma DrawStripWithOffsetZero(src: seq<byte>, h: nat)
    requires |src| >= 5 && src[4] == 0 && h > 0
    ensures DrawStripWithOffset(src, h) == DrawStripFlat(src[5..], h)
  {
    DecodeFlatGuardUnused(src[5..], h, 0, Cursor(0, 0), Zeros(8 * h));
  }

  // ---------------------------------------------------------------------
  // Grid buffer with a row offset (test/decode_full_room_with_offset.py)

  /** `decodeStripWithOffset`: like `DrawStripUnguarded` on the data after
      byte 4, starting at row `src[4]`; single-colour runs wrap to that row
      but dither and copy runs wrap to row 0. */
  function DecodeStripWithOffset(src: seq<byte>, h: nat): (r: Outcome)
    ensures r == TooShort <==> |src| < 5
    ensures r.Decoded? ==> IsStrip(r.strip, h) && Nibbles(r.strip)
  {
    if |src| < 5 then TooShort
    else DecodeUnguarded(src[5..], h, 0, Cursor(0, src[4]), Blank(h), src[4], 0)
  }

  lemma DecodeStripWithOffsetZero(src: seq<byte>, h: nat)
    requires |src| >= 5 && src[4] == 0
    ensures DecodeStripWithOffset(src, h) == DrawStripUnguarded(src[5..], h)
  {
  }

  // ---------------------------------------------------------------------
  // Where the copies part ways

  /** Once the cursor is on row 1 of column 7 of a strip two rows high, a
      two-pixel run puts its second pixel on column 8: the clipping decoder
      drops it, the flat port writes it over row 1 of column 0. */
  lemma FlatSpillExample()
    ensures DecodeClip([0x23], 2, 0, Cursor(7, 1), Blank(2))[1][0] == 0
    ensures DecodeFlat([0x23], 2, 0, Cursor(7, 1), Zeros(16), 0, false).Some?
    ensures DecodeFlat([0x23], 2, 0, Cursor(7, 1), Zeros(16), 0, false).value[8 * 1 + 0] == 3
  {
  }

  /** `Slots` counts the cells left from the cursor to the end of column 7. */
  lemma {:induction false} SlotsClosedForm(at: Cursor, h: nat)
    requires h > 0 && at.y < h && (at.x < 8 || (at.x == 8 && at.y == 0))
    ensures Slots(at, h, 0) == (8 - at.x) * h - at.y
    decreases 8 - at.x, h - at.y
  {
    if at.x < 8 {
      var next := Advance(at, h, 0);
      SlotsClosedForm(next, h);
      if at.y + 1 >= h {
        assert (8 - at.x) * h == (8 - (at.x + 1)) * h + h;
      }
    }
  }

  /** Seventeen pixels in a strip two rows high (16 cells) make the
      unguarded grid copy raise. */
  lemma UnguardedCrashExample()
    ensures DrawStripUnguarded([0x01, 17], 2) == Crashed
  {
    SlotsClosedForm(Cursor(0, 0), 2);
    DrawStripUnguardedSpec([0x01, 17], 2);
  }

  /** With a row offset of 1, a dither run that wraps a column goes back to
      row 0, so the row above the offset is painted; the flat offset port
      keeps every row above the offset at 0. */
  lemma OffsetWrapExample()
    ensures DecodeStripWithOffset([0, 0, 0, 0, 1, 0xC3, 0x12], 2).Decoded?
    ensures DecodeStripWithOffset([0, 0, 0, 0, 1, 0xC3, 0x12], 2).strip[0][1] == 2
    ensures DrawStripWithOffset([0, 0, 0, 0, 1, 0xC3, 0x12], 2).Decoded? ==>
      DrawStripWithOffset([0, 0, 0, 0, 1, 0xC3, 0x12], 2).strip[0][1] == 0
  {
    var src: seq<byte> := [0, 0, 0, 0, 1, 0xC3, 0x12];
    var data := src[5..];
    assert data == [0xC3, 0x12];
    var run := Dither(3, 0x12);
    assert ReadCommand(data, 0) == Some(Command(run, 2));
    var g0 := Blank(2);
    var g1 := Put(g0, 1, 0, 1);
    var g2 := Put(g1, 0, 1, 2);
    var g3 := Put(g2, 1, 1, 1);
    assert PaintUnguarded(g2, 2, Cursor(1, 1), 0, run, 2) == PaintUnguarded(g3, 2, Cursor(2, 0), 0, run, 3);
    assert PaintUnguarded(g1, 2, Cursor(1, 0), 0, run, 1) == PaintUnguarded(g2, 2, Cursor(1, 1), 0, run, 2);
    assert PaintUnguarded(g0, 2, Cursor(0, 1), 0, run, 0) == PaintUnguarded(g1, 2, Cursor(1, 0), 0, run, 1);
    assert DecodeStripWithOffset(src, 2) == Decoded(g3);
    assert g3[0][1] == 2;
  }

  // ---------------------------------------------------------------------
  // When the copies that do not clip raise

  /** A single run on the unguarded grid raises exactly when its wrap row
      is inside the strip and it has more pixels than cells left before
      column 8; otherwise its cursor ends where the walk's does. */
  lemma {:induction false} PaintUnguardedCrash(g: Strip, h: nat, at: Cursor, reset: nat, run: Run, z: nat)
    requires IsStrip(g, h) && z <= run.len && (at.x < 8 || at.y == reset)
    ensures PaintUnguarded(g, h, at, reset, run, z).None? <==> reset < h && run.len - z > Slots(at, h, reset)
    ensures PaintUnguarded(g, h, at, reset, run, z).Some? ==>
      PaintUnguarded(g, h, at, reset, run, z).value.at == Moved(at, h, reset, run.len - z)
    decreases run.len - z
  {
    if z < run.len {
      var next := Advance(at, h, reset);
      if at.y < h {
        if at.x < 8 {
          PaintUnguardedCrash(Put(g, at.y, at.x, RunColour(run, z, Left(g, at))), h, next, reset, run, z + 1);
        }
      } else {
        PaintUnguardedCrash(g, h, next, reset, run, z + 1);
      }
    }
  }

  lemma {:induction false} DecodeUnguardedCrash(data: seq<byte>, h: nat, pos: nat, at: Cursor, g: Strip, solidReset: nat, otherReset: nat)
    requires pos <= |data| && IsStrip(g, h)
    ensures DecodeUnguarded(data, h, pos, at, g, solidReset, otherReset) == Crashed <==>
      var o := FirstOverrun(data, h, pos, at, solidReset, otherReset);
      o.Overruns? && ResetOf(o.run, solidReset, otherReset) < h
    decreases |data| - pos
  {
    if at.x >= 8 || pos >= |data| {
    } else {
      match ReadCommand(data, pos)
      case None =>
      case Some(cmd) =>
        var reset := ResetOf(cmd.run, solidReset, otherReset);
        PaintUnguardedCrash(g, h, at, reset, cmd.run, 0);
        match PaintUnguarded(g, h, at, reset, cmd.run, 0)
        case None =>
        case Some(p) =>
          if cmd.run.len > Slots(at, h, reset) {
            MovedPastSlots(at, h, reset, cmd.run.len);
          } else {
            DecodeUnguardedCrash(data, h, cmd.next, p.at, p.grid, solidReset, otherReset);
          }
    }
  }

  /** `decodeStripWithOffset` raises exactly when the first run to reach
      past column 7 wraps to a row inside the strip: row `src[4]` for a
      single-colour run, row 0 for the other two modes. */
  lemma DecodeStripWithOffsetCrash(src: seq<byte>, h: nat)
    ensures DecodeStripWithOffset(src, h) == Crashed <==>
      |src| >= 5 && var o := FirstOverrun(src[5..], h, 0, Cursor(0, src[4]), src[4], 0);
      o.Overruns? && ResetOf(o.run, src[4], 0) < h
  {
    if |src| >= 5 {
      DecodeUnguardedCrash(src[5..], h, 0, Cursor(0, src[4]), Blank(h), src[4], 0);
    }
  }

  /** How many more pixels a run can take from `at` before a flat-buffer
      write lands past the end of the buffer: the cells left before column
      8 and then `h - reset` spilled rows, or on column 8 the rows from the
      cursor down. */
  function Room(at: Cursor, h: nat, reset: nat): int
  {
    if at.x < 8 then Slots(at, h, reset) + h - reset else h - at.y
  }

  lemma {:induction false} PaintFlatRoom(f: seq<int>, h: nat, at: Cursor, reset: nat, guardY: bool, run: Run, z: nat)
    requires |f| == 8 * h && reset <= at.y < h && at.x <= 8 && z <= run.len
    ensures PaintFlat(f, h, at, reset, guardY, run, z).None? <==> run.len - z >= Room(at, h, reset)
    ensures PaintFlat(f, h, at, reset, guardY, run, z).Some? ==>
      PaintFlat(f, h, at, reset, guardY, run, z).value.at == Moved(at, h, reset, run.len - z)
    decreases run.len - z
  {
    if z < run.len {
      var i := 8 * at.y + at.x;
      if i < |f| {
        var left := if at.x > 0 then f[i - 1] else 0;
        PaintFlatRoom(f[i := RunColour(run, z, left)], h, Advance(at, h, reset), reset, guardY, run, z + 1);
      }
    }
  }

  lemma {:induction false} DecodeFlatCrash(data: seq<byte>, h: nat, pos: nat, at: Cursor, f: seq<int>, reset: nat, guardY: bool)
    requires pos <= |data| && |f| == 8 * h && reset <= at.y < h
    ensures DecodeFlat(data, h, pos, at, f, reset, guardY).None? <==>
      Excess(FirstOverrun(data, h, pos, at, reset, reset)) >= h - reset
    decreases |data| - pos
  {
    if at.x >= 8 || pos >= |data| {
    } else {
      match ReadCommand(data, pos)
      case None =>
      case Some(cmd) =>
        PaintFlatRoom(f, h, at, reset, guardY, cmd.run, 0);
        match PaintFlat(f, h, at, reset, guardY, cmd.run, 0)
        case None =>
        case Some(p) =>
          if cmd.run.len > Slots(at, h, reset) {
            MovedPastSlots(at, h, reset, cmd.run.len);
          } else {
            MovedStaysIn(at, h, reset, cmd.run.len);
            DecodeFlatCrash(data, h, cmd.next, p.at, p.buf, reset, guardY);
          }
    }
  }

  /** Some run read before the data or a byte runs out has a pixel. */
  predicate AnyPixel(data: seq<byte>, pos: nat)
    requires pos <= |data|
    decreases |data| - pos
  {
    pos < |data| && match ReadCommand(data, pos)
      case None => false
      case Some(cmd) => cmd.run.len > 0 || AnyPixel(data, cmd.next)
  }

  lemma {:induction false} DecodeFlatNoRows(data: seq<byte>, pos: nat)
    requires pos <= |data|
    ensures DecodeFlat(data, 0, pos, Cursor(0, 0), [], 0, false) == if AnyPixel(data, pos) then None else Some([])
    decreases |data| - pos
  {
    if pos < |data| {
      match ReadCommand(data, pos)
      case None =>
      case Some(cmd) =>
        if cmd.run.len == 0 {
          DecodeFlatNoRows(data, cmd.next);
        }
    }
  }

  /** The flat-buffer port raises exactly when the first run to reach past
      column 7 has `h` or more pixels left there: column 8 of row `y` is
      buffer cell `8 (y + 1)`, so only the write after row `h - 1` falls
      off the end.  A strip without rows raises at the first pixel. */
  lemma DrawStripFlatCrash(data: seq<byte>, h: nat)
    ensures DrawStripFlat(data, h) == Crashed <==>
      if h == 0 then AnyPixel(data, 0) else Excess(FirstOverrun(data, h, 0, Cursor(0, 0), 0, 0)) >= h
  {
    if h == 0 {
      assert Zeros(0) == [];
      DecodeFlatNoRows(data, 0);
    } else {
      DecodeFlatCrash(data, h, 0, Cursor(0, 0), Zeros(8 * h), 0, false);
    }
  }

  /** A run that never leaves rows at or below the strip's height. */
  lemma {:induction false} PaintFlatSkips(f: seq<int>, h: nat, at: Cursor, reset: nat, run: Run, z: nat)
    requires h <= reset && h <= at.y && z <= run.len
    ensures PaintFlat(f, h, at, reset, true, run, z).Some?
    ensures PaintFlat(f, h, at, reset, true, run, z).value.buf == f
    ensures h <= PaintFlat(f, h, at, reset, true, run, z).value.at.y
    decreases run.len - z
  {
    if z < run.len {
      PaintFlatSkips(f, h, Advance(at, h, reset), reset, run, z + 1);
    }
  }

  lemma {:induction false} DecodeFlatSkips(data: seq<byte>, h: nat, pos: nat, at: Cursor, f: seq<int>, reset: nat)
    requires pos <= |data| && h <= reset && h <= at.y
    ensures DecodeFlat(data, h, pos, at, f, reset, true) == Some(f)
    decreases |data| - pos
  {
    if at.x < 8 && pos < |data| {
      match ReadCommand(data, pos)
      case None =>
      case Some(cmd) =>
        PaintFlatSkips(f, h, at, reset, cmd.run, 0);
        var p := PaintFlat(f, h, at, reset, true, cmd.run, 0).value;
        DecodeFlatSkips(data, h, cmd.next, p.at, f, reset);
    }
  }

  /** `drawStripWithOffset` raises exactly when the offset row is inside
      the strip and the first run to reach past column 7 has as many
      pixels left there as rows from the offset down; with the offset at
      or below the height no pixel is written. */
  lemma DrawStripWithOffsetCrash(src: seq<byte>, h: nat)
    ensures DrawStripWithOffset(src, h) == Crashed <==>
      |src| >= 5 && src[4] < h && Excess(FirstOverrun(src[5..], h, 0, Cursor(0, src[4]), src[4], src[4])) >= h - src[4]
    ensures |src| >= 5 && h <= src[4] ==> DrawStripWithOffset(src, h) == Decoded(Blank(h))
  {
    if |src| >= 5 {
      var yOff := src[4];
      if yOff < h {
        DecodeFlatCrash(src[5..], h, 0, Cursor(0, yOff), Zeros(8 * h), yOff, true);
      } else {
        DecodeFlatSkips(src[5..], h, 0, Cursor(0, yOff), Zeros(8 * h), yOff);
        ReshapeAgrees(Zeros(8 * h), Blank(h), h);
      }
    }
  }

  // ---------------------------------------------------------------------
  // Where the flat-buffer port spills

  /** `v` with the pixels an overrunning run places past column 7 written
      into column 0 of rows 1, 2, ...: its pixel `fitted + k` lands on row
      `k + 1`, a copy pixel taking column 7 of row `k`. */
  function Spill(v: Strip, h: nat, o: Overrun): (d: Strip)
    requires IsStrip(v, h) && Excess(o) < h
    ensures IsStrip(d, h)
  {
    match o
    case Fits => v
    case Overruns(run, s) =>
      seq(h, r requires 0 <= r < h =>
        if 1 <= r <= Excess(o) then v[r][0 := RunColour(run, s + r - 1, v[r - 1][7])] else v[r])
  }

  /** Cell `(r, c)` of `v` once rows 1 .. k of column 0 are spilled. */
  function SpilledCell(v: Strip, h: nat, run: Run, s: nat, k: nat, r: nat, c: nat): int
    requires IsStrip(v, h) && r < h && c < 8
  {
    if c == 0 && 1 <= r <= k then RunColour(run, s + r - 1, v[r - 1][7]) else v[r][c]
  }

  /** The buffer holds `v` with rows 1 .. k of column 0 spilled. */
  predicate SpillAgrees(f: seq<int>, v: Strip, h: nat, run: Run, s: nat, k: nat)
    requires IsStrip(v, h)
  {
    |f| == 8 * h
    && forall r: nat, c: nat :: r < h && c < 8 ==> f[8 * r + c] == SpilledCell(v, h, run, s, k, r, c)
  }

  /** On column 8 of row `y` a pixel goes to column 0 of row `y + 1`. */
  lemma {:induction false} SpillRows(f: seq<int>, v: Strip, h: nat, y: nat, run: Run, z: nat, s: nat)
    requires IsStrip(v, h) && y < h && z == s + y && z <= run.len && run.len - s < h
    requires SpillAgrees(f, v, h, run, s, y)
    ensures PaintFlat(f, h, Cursor(8, y), 0, false, run, z).Some?
    ensures PaintFlat(f, h, Cursor(8, y), 0, false, run, z).value.at.x >= 8
    ensures SpillAgrees(PaintFlat(f, h, Cursor(8, y), 0, false, run, z).value.buf, v, h, run, s, run.len - s)
    decreases run.len - z
  {
    if z < run.len {
      var i := 8 * y + 8;
      assert f[8 * y + 7] == SpilledCell(v, h, run, s, y, y, 7) == v[y][7];
      var w := RunColour(run, z, v[y][7]);
      var f' := f[i := w];
      var k := y + 1;
      forall r: nat, c: nat | r < h && c < 8
        ensures f'[8 * r + c] == SpilledCell(v, h, run, s, k, r, c)
      {
        assert f[8 * r + c] == SpilledCell(v, h, run, s, y, r, c);
        IndexUnique(r, c, y + 1, 0);
        if r == y + 1 && c == 0 {
          assert f'[8 * r + c] == w;
        } else {
          assert f'[8 * r + c] == f[8 * r + c];
        }
      }
      SpillRows(f', v, h, y + 1, run, z + 1, s);
    }
  }

  /** One pixel inside columns 0 .. 7: both decoders write the same cell. */
  lemma FlatClipStep(f: seq<int>, g: Strip, h: nat, at: Cursor, run: Run, z: nat)
    requires Agrees(f, g, h) && at.y < h && at.x < 8 && z < run.len
    ensures var v := RunColour(run, z, Left(g, at));
      var i := 8 * at.y + at.x;
      var next := Advance(at, h, 0);
      i < |f|
      && PaintFlat(f, h, at, 0, false, run, z) == PaintFlat(f[i := v], h, next, 0, false, run, z + 1)
      && PaintClip(g, h, at, run, z) == PaintClip(Put(g, at.y, at.x, v), h, next, run, z + 1)
      && Agrees(f[i := v], Put(g, at.y, at.x, v), h)
  {
    var i := 8 * at.y + at.x;
    var v := RunColour(run, z, Left(g, at));
    AgreesPut(f, g, h, at.y, at.x, v);
    if at.x > 0 {
      assert f[i - 1] == f[8 * at.y + (at.x - 1)];
    }
  }

  /** An overrunning run paints as the clipping decoder up to column 7 and
      spills the rest. */
  lemma {:induction false} PaintFlatOverrun(f: seq<int>, g: Strip, h: nat, at: Cursor, run: Run, z: nat)
    requires Agrees(f, g, h) && at.y < h && at.x < 8 && z <= run.len
    requires run.len - z > Slots(at, h, 0) && run.len - z - Slots(at, h, 0) < h
    ensures var q := PaintFlat(f, h, at, 0, false, run, z);
      q.Some? && q.value.at.x >= 8
      && SpillAgrees(q.value.buf, PaintClip(g, h, at, run, z).grid, h, run, z + Slots(at, h, 0), run.len - z - Slots(at, h, 0))
    decreases run.len - z
  {
    var i := 8 * at.y + at.x;
    var v := RunColour(run, z, Left(g, at));
    FlatClipStep(f, g, h, at, run, z);
    var next := Advance(at, h, 0);
    var g' := Put(g, at.y, at.x, v);
    if next.x < 8 {
      PaintFlatOverrun(f[i := v], g', h, next, run, z + 1);
    } else {
      PaintClipPastEnd(g', h, next, run, z + 1);
      SpillRows(f[i := v], g', h, 0, run, z + 1, z + 1);
    }
  }

  lemma SpillAgreesSpill(f: seq<int>, v: Strip, h: nat, run: Run, s: nat)
    requires IsStrip(v, h) && s < run.len && run.len - s < h && SpillAgrees(f, v, h, run, s, run.len - s)
    ensures Agrees(f, Spill(v, h, Overruns(run, s)), h)
  {
    var d := Spill(v, h, Overruns(run, s));
    forall r: nat, c: nat | r < h && c < 8
      ensures f[8 * r + c] == d[r][c]
    {
      assert f[8 * r + c] == SpilledCell(v, h, run, s, run.len - s, r, c);
    }
  }

  lemma {:induction false} DecodeFlatSpill(data: seq<byte>, h: nat, pos: nat, at: Cursor, f: seq<int>, g: Strip)
    requires pos <= |data| && Agrees(f, g, h) && at.y < h
    requires Excess(FirstOverrun(data, h, pos, at, 0, 0)) < h
    ensures DecodeFlat(data, h, pos, at, f, 0, false).Some?
    ensures Agrees(DecodeFlat(data, h, pos, at, f, 0, false).value,
      Spill(DecodeClip(data, h, pos, at, g), h, FirstOverrun(data, h, pos, at, 0, 0)), h)
    decreases |data| - pos
  {
    if at.x >= 8 || pos >= |data| {
    } else {
      match ReadCommand(data, pos)
      case None =>
      case Some(cmd) =>
        if cmd.run.len <= Slots(at, h, 0) {
          DecodeFlatWithin(data, h, pos, at, f, g, cmd);
          var p := PaintClip(g, h, at, cmd.run, 0);
          var q := PaintFlat(f, h, at, 0, false, cmd.run, 0).value;
          DecodeFlatSpill(data, h, cmd.next, p.at, q.buf, p.grid);
        } else {
          DecodeFlatSpillAt(data, h, pos, at, f, g, cmd);
        }
    }
  }

  /** A turn of `DecodeFlatSpill` at a run that fits: both decoders and
      the overrun walk move on to the next run with agreeing pixels. */
  lemma DecodeFlatWithin(data: seq<byte>, h: nat, pos: nat, at: Cursor, f: seq<int>, g: Strip, cmd: Command)
    requires pos < |data| && Agrees(f, g, h) && at.y < h && at.x < 8
    requires ReadCommand(data, pos) == Some(cmd) && cmd.run.len <= Slots(at, h, 0)
    ensures var p := PaintClip(g, h, at, cmd.run, 0);
      var q := PaintFlat(f, h, at, 0, false, cmd.run, 0);
      q.Some? && Agrees(q.value.buf, p.grid, h) && p.at.y < h && cmd.next <= |data|
      && DecodeFlat(data, h, pos, at, f, 0, false) == DecodeFlat(data, h, cmd.next, p.at, q.value.buf, 0, false)
      && DecodeClip(data, h, pos, at, g) == DecodeClip(data, h, cmd.next, p.at, p.grid)
      && FirstOverrun(data, h, pos, at, 0, 0) == FirstOverrun(data, h, cmd.next, p.at, 0, 0)
  {
    PaintClipMoved(g, h, at, cmd.run, 0);
    PaintFlatIsClip(f, g, h, at, cmd.run, 0);
  }

  /** The turn of `DecodeFlatSpill` at the run that overruns: the walk
      stops there and the spilled pixels agree. */
  lemma {:induction false} DecodeFlatSpillAt(data: seq<byte>, h: nat, pos: nat, at: Cursor, f: seq<int>, g: Strip, cmd: Command)
    requires pos < |data| && Agrees(f, g, h) && at.y < h && at.x < 8
    requires ReadCommand(data, pos) == Some(cmd) && cmd.run.len > Slots(at, h, 0)
    requires Excess(FirstOverrun(data, h, pos, at, 0, 0)) < h
    ensures DecodeFlat(data, h, pos, at, f, 0, false).Some?
    ensures Agrees(DecodeFlat(data, h, pos, at, f, 0, false).value,
      Spill(DecodeClip(data, h, pos, at, g), h, FirstOverrun(data, h, pos, at, 0, 0)), h)
  {
    PaintClipMoved(g, h, at, cmd.run, 0);
    var p := PaintClip(g, h, at, cmd.run, 0);
    PaintFlatOverrun(f, g, h, at, cmd.run, 0);
    MovedPastSlots(at, h, 0, cmd.run.len);
    var q := PaintFlat(f, h, at, 0, false, cmd.run, 0).value;
    ClipStopsAt(data, h, pos, at, g, cmd);
    FlatStopsAt(data, h, pos, at, f, cmd);
    SpillAgreesSpill(q.buf, p.grid, h, cmd.run, Slots(at, h, 0));
  }

  /** A run that carries the clipping decoder's cursor past column 7 is
      its last. */
  lemma ClipStopsAt(data: seq<byte>, h: nat, pos: nat, at: Cursor, g: Strip, cmd: Command)
    requires pos < |data| && IsStrip(g, h) && at.x < 8 && ReadCommand(data, pos) == Some(cmd)
    requires PaintClip(g, h, at, cmd.run, 0).at.x >= 8
    ensures DecodeClip(data, h, pos, at, g) == PaintClip(g, h, at, cmd.run, 0).grid
  {
    var p := PaintClip(g, h, at, cmd.run, 0);
    assert DecodeClip(data, h, cmd.next, p.at, p.grid) == p.grid;
  }

  /** A run that carries the flat-buffer decoder's cursor past column 7 is
      its last. */
  lemma FlatStopsAt(data: seq<byte>, h: nat, pos: nat, at: Cursor, f: seq<int>, cmd: Command)
    requires pos < |data| && at.x < 8 && ReadCommand(data, pos) == Some(cmd)
    requires PaintFlat(f, h, at, 0, false, cmd.run, 0).Some?
    requires PaintFlat(f, h, at, 0, false, cmd.run, 0).value.at.x >= 8
    ensures DecodeFlat(data, h, pos, at, f, 0, false) == Some(PaintFlat(f, h, at, 0, false, cmd.run, 0).value.buf)
  {
    var q := PaintFlat(f, h, at, 0, false, cmd.run, 0).value;
    assert DecodeFlat(data, h, cmd.next, q.at, q.buf, 0, false) == Some(q.buf);
  }

  /** The flat-buffer port, when it does not raise, decodes the block of
      `decodeStripV3` except that the pixels the first overrunning run
      places past column 7 overwrite column 0 of rows 1, 2, ... */
  lemma DrawStripFlatSpill(data: seq<byte>, h: nat)
    ensures var o := FirstOverrun(data, h, 0, Cursor(0, 0), 0, 0);
      h > 0 && Excess(o) < h ==> DrawStripFlat(data, h) == Decoded(Spill(DecodeStripV3(data, h), h, o))
  {
    if h > 0 && Excess(FirstOverrun(data, h, 0, Cursor(0, 0), 0, 0)) < h {
      assert Agrees(Zeros(8 * h), Blank(h), h);
      DecodeFlatSpill(data, h, 0, Cursor(0, 0), Zeros(8 * h), Blank(h));
      var f := DecodeFlat(data, h, 0, Cursor(0, 0), Zeros(8 * h), 0, false).value;
      ReshapeAgrees(f, Spill(DecodeStripV3(data, h), h, FirstOverrun(data, h, 0, Cursor(0, 0), 0, 0)), h);
    }
  }

  // ---------------------------------------------------------------------
  // Rows above the offset

  /** Some dither or copy run, which wraps to row 0, reaches past the
      bottom row of its column before the walk stops. */
  predicate OtherRunWraps(data: seq<byte>, h: nat, pos: nat, at: Cursor, solidReset: nat)
    requires pos <= |data|
    decreases |data| - pos
  {
    if at.x >= 8 || pos >= |data| then false
    else match ReadCommand(data, pos)
      case None => false
      case Some(cmd) =>
        (!cmd.run.Solid? && cmd.run.len > 0 && at.y + cmd.run.len >= h)
        || OtherRunWraps(data, h, cmd.next, Moved(at, h, ResetOf(cmd.run, solidReset, 0), cmd.run.len), solidReset)
  }

  /** Rows above `m` hold only zeros. */
  predicate ZeroAbove(g: Strip, m: nat)
  {
    forall y, c :: 0 <= y < |g| && y < m && 0 <= c < |g[y]| ==> g[y][c] == 0
  }

  lemma {:induction false} PaintUnguardedAbove(g: Strip, h: nat, at: Cursor, reset: nat, run: Run, z: nat, m: nat)
    requires IsStrip(g, h) && z <= run.len && m <= at.y && ZeroAbove(g, m)
    requires m <= reset || z == run.len || at.y + (run.len - z) < h
    ensures PaintUnguarded(g, h, at, reset, run, z).Some? ==>
      ZeroAbove(PaintUnguarded(g, h, at, reset, run, z).value.grid, m) && m <= PaintUnguarded(g, h, at, reset, run, z).value.at.y
    decreases run.len - z
  {
    if z < run.len {
      var next := Advance(at, h, reset);
      if at.y < h {
        if at.x < 8 {
          var g' := Put(g, at.y, at.x, RunColour(run, z, Left(g, at)));
          assert ZeroAbove(g', m);
          PaintUnguardedAbove(g', h, next, reset, run, z + 1, m);
        }
      } else {
        PaintUnguardedAbove(g, h, next, reset, run, z + 1, m);
      }
    }
  }

  lemma {:induction false} DecodeUnguardedAbove(data: seq<byte>, h: nat, pos: nat, at: Cursor, g: Strip, m: nat)
    requires pos <= |data| && IsStrip(g, h) && m <= at.y && ZeroAbove(g, m)
    requires !OtherRunWraps(data, h, pos, at, m)
    ensures DecodeUnguarded(data, h, pos, at, g, m, 0).Decoded? ==> ZeroAbove(DecodeUnguarded(data, h, pos, at, g, m, 0).strip, m)
    decreases |data| - pos
  {
    if at.x < 8 && pos < |data| {
      match ReadCommand(data, pos)
      case None =>
      case Some(cmd) =>
        var reset := ResetOf(cmd.run, m, 0);
        PaintUnguardedAbove(g, h, at, reset, cmd.run, 0, m);
        PaintUnguardedCrash(g, h, at, reset, cmd.run, 0);
        match PaintUnguarded(g, h, at, reset, cmd.run, 0)
        case None =>
        case Some(p) =>
          DecodeUnguardedAbove(data, h, cmd.next, p.at, p.grid, m);
    }
  }

  /** In `decodeStripWithOffset` a row above the offset `src[4]` can be
      painted only after a dither or copy run has wrapped a column back to
      row 0: without one, those rows stay zero. */
  lemma DecodeStripWithOffsetAbove(src: seq<byte>, h: nat)
    ensures DecodeStripWithOffset(src, h).Decoded? && !OtherRunWraps(src[5..], h, 0, Cursor(0, src[4]), src[4]) ==>
      forall y, c :: 0 <= y < h && y < src[4] && 0 <= c < 8 ==> DecodeStripWithOffset(src, h).strip[y][c] == 0
  {
    if |src| >= 5 && !OtherRunWraps(src[5..], h, 0, Cursor(0, src[4]), src[4]) {
      DecodeUnguardedAbove(src[5..], h, 0, Cursor(0, src[4]), Blank(h), src[4]);
    }
  }
}
