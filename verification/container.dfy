/** The room repackager and its reader.  `extractRoomImage` in
    tools/server.ts (and its line-for-line Python copy
    `extract_room_image` in decode_all_resources_complete.py and
    decode_all_resources_fixed.py) reads the SMAP strip table of a
    decrypted room and writes a self-describing container: width and
    height as little-endian words, then one 16-bit offset per strip,
    counted from the container start and beginning at `4 + 2N`, then the
    strip bytes.  `decode_scumm_image` in decode_to_real_files.py reads
    such a container back into an image. */
module Container {
  import opened Bytes
  import opened EgaStrip
  import opened Canvas
  import opened OffsetTable
  import opened StripTable

  /** What the repackager yields: nothing (`null` / `None`), a container
      with the room's width, height and strip count, or an exception. */
  datatype Extracted = NoImage | Packed(data: seq<byte>, width: nat, height: nat, strips: nat) | Thrown

  /** `roomData[i]` as JavaScript's `|` and `<<` see it: an index past
      the end reads `undefined`, which they treat as 0. */
  function ByteOrZero(room: seq<byte>, i: nat): (b: byte)
    ensures i < |room| ==> b == room[i]
    ensures |room| <= i ==> b == 0
  {
    if i < |room| then room[i] else 0
  }

  /** The SMAP pointer at 0x0A as the TypeScript reads it: rooms of 10 or
      11 bytes give a partial word instead of an error. */
  function SmapPointer(room: seq<byte>): (p: nat)
    ensures |room| >= 12 ==> p == U16(room, 10)
  {
    ByteOrZero(room, 10) as nat + 256 * ByteOrZero(room, 11) as nat
  }

  /** `min(200, ceil(width / 8))`. */
  function MaxStrips(width: nat): (n: nat)
    ensures n <= 200 && (n < 200 ==> 8 * n >= width) && 8 * (n - 1) < width
  {
    if (width + 7) / 8 < 200 then (width + 7) / 8 else 200
  }

  /** The strip table loop: entries at `smapPtr + 2 + 2i`, relative to
      the SMAP block, ending at a zero entry or one pointing past the
      data; there is no order check. */
  function RoomPolicy(smap: nat, width: nat): (pol: Policy)
    ensures !pol.skipLeadingZero && !pol.increasing && pol.maxEntries == MaxStrips(width)
  {
    SmapPolicy(smap, MaxStrips(width))
  }

  /** The absolute strip starts the repackager reads from a room whose
      SMAP pointer lies inside it. */
  function RoomOffsets(room: seq<byte>): (offs: seq<nat>)
    requires |room| >= 10 && SmapPointer(room) < |room|
    ensures InData(offs, |room|) && |offs| <= MaxStrips(U16(room, 4))
    ensures forall k :: 0 <= k < |offs| ==> offs[k] > SmapPointer(room)
  {
    ReadTable(room, RoomPolicy(SmapPointer(room), U16(room, 4)))
  }

  /** `stripSizes[i] = stripEnd - stripStart`: negative when the table
      goes backwards. */
  function Size(offs: seq<nat>, i: nat, n: nat): int
    requires i < |offs|
  {
    StripEnd(offs, i, n) - offs[i]
  }

  /** `currentOffset` (and `writePos`) before strip `i`: `4 + 2N` plus the
      sizes of the strips before it; after the last strip it is the
      container length. */
  function Running(offs: seq<nat>, n: nat, i: nat): int
    requires i <= |offs|
  {
    if i == 0 then 4 + 2 * |offs| else Running(offs, n, i - 1) + Size(offs, i - 1, n)
  }

  /** The sizes telescope: the running offset of strip `i` is `4 + 2N`
      plus its distance from the first strip, and the container length is
      `4 + 2N` plus the bytes from the first strip to the end. */
  lemma {:induction false} RunningTelescopes(offs: seq<nat>, n: nat, i: nat)
    requires 0 < |offs| && i <= |offs|
    ensures Running(offs, n, i) == 4 + 2 * |offs| + (if i < |offs| then offs[i] else n) - offs[0]
  {
    if i > 0 {
      RunningTelescopes(offs, n, i - 1);
    }
  }

  /** The table bytes written for strips `i ..`: `currentOffset & 0xFF,
      (currentOffset >> 8) & 0xFF` each. */
  function Entries(offs: seq<nat>, n: nat, i: nat): (e: seq<byte>)
    requires i <= |offs|
    decreases |offs| - i
    ensures |e| == 2 * (|offs| - i)
  {
    if i == |offs| then [] else Le16(Running(offs, n, i)) + Entries(offs, n, i + 1)
  }

  function ZeroBytes(n: nat): (z: seq<byte>)
    ensures |z| == n && forall k :: 0 <= k < n ==> z[k] == 0
  {
    seq(n, _ => 0)
  }

  /** The buffer after the header and the table are written: a zero
      buffer of the container length with width, height and entries at
      its start. */
  function Fresh(room: seq<byte>, offs: seq<nat>, width: nat, height: nat): (buf: seq<byte>)
    requires 0 < |offs| && InData(offs, |room|)
    ensures |buf| == Running(offs, |room|, |offs|)
  {
    RunningTelescopes(offs, |room|, |offs|);
    Le16(width) + Le16(height) + Entries(offs, |room|, 0) + ZeroBytes(|room| - offs[0])
  }

  /** The copy loop of `extractRoomImage`: strip `i`'s bytes
      `roomData.slice(start, start + size)` go to `writePos` with
      `TypedArray.set`, which throws a RangeError when the position is
      negative or the bytes do not fit. */
  function CopyStrips(buf: seq<byte>, room: seq<byte>, offs: seq<nat>, i: nat): (r: Option<seq<byte>>)
    requires InData(offs, |room|) && i <= |offs|
    decreases |offs| - i
    ensures r.Some? ==> |r.value| == |buf|
  {
    if i == |offs| then Some(buf)
    else
      var s := StripBytes(room, offs, i);
      var p := Running(offs, |room|, i);
      if p < 0 || p + |s| > |buf| then None
      else CopyStrips(buf[..p] + s + buf[p + |s| ..], room, offs, i + 1)
  }

  /** `extractRoomImage` in tools/server.ts. */
  function ExtractRoomImage(room: seq<byte>): (r: Extracted)
    ensures r.Packed? ==> |room| >= 10 && SmapPointer(room) < |room|
    ensures r.Packed? ==> r.width == U16(room, 4) && r.height == U16(room, 6)
    ensures r.Packed? ==> r.strips == |RoomOffsets(room)| > 0
    ensures r.Packed? ==> |r.data| == 4 + 2 * r.strips + |room| - RoomOffsets(room)[0]
  {
    if |room| < 10 || SmapPointer(room) >= |room| then NoImage
    else
      var offs := RoomOffsets(room);
      if |offs| == 0 then NoImage
      else
        var w, h := U16(room, 4), U16(room, 6);
        RunningTelescopes(offs, |room|, |offs|);
        match CopyStrips(Fresh(room, offs, w, h), room, offs, 0)
        case None => Thrown
        case Some(d) => Packed(d, w, h, |offs|)
  }

  // ---------------------------------------------------------------------
  // The Python copy

  /** Python's normalisation of a slice bound `i` on a sequence of `n`
      items: a negative bound counts from the end, and both are clamped to
      `0 .. n`. */
  function PyBound(i: int, n: nat): (k: nat)
    ensures k <= n
    ensures 0 <= i <= n ==> k == i
  {
    if i < 0 then (if i + n < 0 then 0 else i + n) else if i > n then n else i
  }

  /** `b[i:j] = s` on a bytearray: the normalised range (empty when `j`
      falls before `i`) is replaced by `s`, so the array grows or shrinks
      when the lengths differ. */
  function PySetSlice(b: seq<byte>, i: int, j: int, s: seq<byte>): (r: seq<byte>)
    ensures 0 <= i <= j <= |b| && j - i == |s| ==> r == b[..i] + s + b[j..]
  {
    var lo := PyBound(i, |b|);
    var hi := PyBound(j, |b|);
    b[..lo] + s + b[(if hi < lo then lo else hi) ..]
  }

  /** The copy loop of `extract_room_image`: `new_data[write_pos:write_pos
      + strip_size] = strip_data`, which never raises. */
  function CopyStripsPy(buf: seq<byte>, room: seq<byte>, offs: seq<nat>, i: nat): (r: seq<byte>)
    requires InData(offs, |room|) && i <= |offs|
    decreases |offs| - i
  {
    if i == |offs| then buf
    else
      var p := Running(offs, |room|, i);
      CopyStripsPy(PySetSlice(buf, p, p + Size(offs, i, |room|), StripBytes(room, offs, i)), room, offs, i + 1)
  }

  /** `extract_room_image` in decode_all_resources_complete.py and
      decode_all_resources_fixed.py: reading `room_data[10]` and
      `room_data[11]` raises an IndexError for rooms of 10 or 11 bytes. */
  function ExtractRoomImagePy(room: seq<byte>): (r: Extracted)
    ensures r == Thrown <==> 10 <= |room| < 12
    ensures r.Packed? ==> |room| >= 12 && SmapPointer(room) < |room|
    ensures r.Packed? ==> r.strips == |RoomOffsets(room)| > 0
    ensures r.Packed? ==> r.width == U16(room, 4) && r.height == U16(room, 6)
  {
    if |room| < 10 then NoImage
    else if |room| < 12 then Thrown
    else if SmapPointer(room) >= |room| then NoImage
    else
      var offs := RoomOffsets(room);
      if |offs| == 0 then NoImage
      else
        var w, h := U16(room, 4), U16(room, 6);
        Packed(CopyStripsPy(Fresh(room, offs, w, h), room, offs, 0), w, h, |offs|)
  }

  // ---------------------------------------------------------------------
  // What the repackager returns

  /** Some strip start lies more than `4 + 2N` bytes before the first one,
      so its write position is negative. */
  predicate Behind(offs: seq<nat>)
  {
    exists i :: 0 <= i < |offs| && offs[i] + 4 + 2 * |offs| < offs[0]
  }

  /** `null` exactly for rooms under 10 bytes, a SMAP pointer past the
      data, or an empty strip table. */
  lemma ExtractRoomImageNull(room: seq<byte>)
    ensures ExtractRoomImage(room) == NoImage <==>
      |room| < 10 || SmapPointer(room) >= |room| || |RoomOffsets(room)| == 0
  {
  }

  /** The copy loop from strip `i` on throws exactly when some strip from
      `i` on has a negative write position. */
  lemma {:induction false} CopyStripsThrows(buf: seq<byte>, room: seq<byte>, offs: seq<nat>, i: nat)
    requires 0 < |offs| && InData(offs, |room|) && i <= |offs|
    requires |buf| == Running(offs, |room|, |offs|)
    ensures CopyStrips(buf, room, offs, i).None? <==>
      exists k :: i <= k < |offs| && offs[k] + 4 + 2 * |offs| < offs[0]
    decreases |offs| - i
  {
    if i < |offs| {
      CopyStripStep(buf, room, offs, i);
      var s := StripBytes(room, offs, i);
      var p := Running(offs, |room|, i);
      if p >= 0 {
        var buf' := buf[..p] + s + buf[p + |s| ..];
        CopyStripsThrows(buf', room, offs, i + 1);
        if exists k :: i <= k < |offs| && offs[k] + 4 + 2 * |offs| < offs[0] {
          var k :| i <= k < |offs| && offs[k] + 4 + 2 * |offs| < offs[0];
          assert i + 1 <= k;
        }
      }
    }
  }

  /** One turn of the copy loop: strip `i` throws exactly when it lies
      more than `4 + 2N` bytes before the first strip, and otherwise its
      bytes fit in the buffer. */
  lemma CopyStripStep(buf: seq<byte>, room: seq<byte>, offs: seq<nat>, i: nat)
    requires 0 < |offs| && InData(offs, |room|) && i < |offs|
    requires |buf| == Running(offs, |room|, |offs|)
    ensures var s := StripBytes(room, offs, i);
      var p := Running(offs, |room|, i);
      (p < 0 <==> offs[i] + 4 + 2 * |offs| < offs[0])
      && (p < 0 ==> CopyStrips(buf, room, offs, i) == None)
      && (p >= 0 ==> p + |s| <= |buf| && CopyStrips(buf, room, offs, i) == CopyStrips(buf[..p] + s + buf[p + |s| ..], room, offs, i + 1))
  {
    RunningTelescopes(offs, |room|, i);
    RunningTelescopes(offs, |room|, |offs|);
    var s := StripBytes(room, offs, i);
    if offs[i] <= StripEnd(offs, i, |room|) {
      assert |s| == StripEnd(offs, i, |room|) - offs[i];
    }
  }

  /** The TypeScript repackager throws exactly when the strip table points
      more than `4 + 2N` bytes back before its first strip.  It never fails
      on its allocation: the sizes add up to the bytes from the first strip
      to the end. */
  lemma ExtractRoomImageThrows(room: seq<byte>)
    ensures ExtractRoomImage(room) == Thrown <==>
      |room| >= 10 && SmapPointer(room) < |room| && |RoomOffsets(room)| > 0 && Behind(RoomOffsets(room))
  {
    if |room| >= 10 && SmapPointer(room) < |room| && |RoomOffsets(room)| > 0 {
      var offs := RoomOffsets(room);
      RunningTelescopes(offs, |room|, |offs|);
      CopyStripsThrows(Fresh(room, offs, U16(room, 4), U16(room, 6)), room, offs, 0);
    }
  }

  /** The Python copy agrees with the TypeScript repackager on every room
      of at least 12 bytes the TypeScript does not throw on; where the
      TypeScript throws a RangeError the Python copy still returns a
      container. */
  lemma PortMatchesRepackager(room: seq<byte>)
    ensures |room| >= 12 && ExtractRoomImage(room) != Thrown ==> ExtractRoomImagePy(room) == ExtractRoomImage(room)
    ensures |room| >= 12 && ExtractRoomImage(room) == Thrown ==> ExtractRoomImagePy(room).Packed?
  {
    if |room| >= 12 && ExtractRoomImage(room).Packed? {
      var offs := RoomOffsets(room);
      RunningTelescopes(offs, |room|, |offs|);
      CopyStripsAgree(Fresh(room, offs, U16(room, 4), U16(room, 6)), room, offs, 0);
    }
  }

  /** Where the copy loop stands before strip `i`: the start of strip `i`,
      or the end of the room once every strip is copied. */
  function Upto(offs: seq<nat>, n: nat, i: nat): nat
    requires i <= |offs|
  {
    if i < |offs| then offs[i] else n
  }

  /** The buffer before strip `i` is copied when the starts increase: the
      header, the room's bytes from the first strip up to strip `i`, then
      zeros. */
  function Filled(head: seq<byte>, room: seq<byte>, offs: seq<nat>, i: nat): (buf: seq<byte>)
    requires 0 < |offs| && InData(offs, |room|) && Increasing(offs) && i <= |offs|
    ensures |buf| == |head| + |room| - offs[0]
  {
    head + room[offs[0] .. Upto(offs, |room|, i)] + ZeroBytes(|room| - Upto(offs, |room|, i))
  }

  /** Copying strip `i` into the buffer filled up to it fills it up to the
      next strip, in both copy loops. */
  lemma CopyNext(head: seq<byte>, room: seq<byte>, offs: seq<nat>, i: nat)
    requires 0 < |offs| && InData(offs, |room|) && Increasing(offs) && i < |offs|
    requires |head| == 4 + 2 * |offs|
    ensures var buf := Filled(head, room, offs, i);
      var p := Running(offs, |room|, i);
      var s := StripBytes(room, offs, i);
      0 <= p && p + |s| <= |buf| && buf[..p] + s + buf[p + |s| ..] == Filled(head, room, offs, i + 1)
      && PySetSlice(buf, p, p + Size(offs, i, |room|), s) == Filled(head, room, offs, i + 1)
  {
    var buf := Filled(head, room, offs, i);
    var e := StripEnd(offs, i, |room|);
    RunningTelescopes(offs, |room|, i);
    assert offs[i] < e && StripBytes(room, offs, i) == room[offs[i] .. e];
    assert e == Upto(offs, |room|, i + 1);
    CopyStep(head, room, offs[0], offs[i], e, buf);
  }

  /** The TypeScript copy loop from strip `i` on, with increasing starts,
      never throws and fills the buffer. */
  lemma {:induction false} CopyStripsInOrder(room: seq<byte>, offs: seq<nat>, head: seq<byte>, i: nat)
    requires 0 < |offs| && InData(offs, |room|) && Increasing(offs) && i <= |offs|
    requires |head| == 4 + 2 * |offs|
    ensures CopyStrips(Filled(head, room, offs, i), room, offs, i) == Some(Filled(head, room, offs, |offs|))
    decreases |offs| - i
  {
    if i < |offs| {
      CopyNext(head, room, offs, i);
      CopyStripsInOrder(room, offs, head, i + 1);
    }
  }

  /** Wherever the TypeScript copy loop does not throw, the Python copy
      loop writes the same bytes: every write position and every strip end
      is then inside the buffer, and a backwards strip is an empty slice
      that both leave alone. */
  lemma {:induction false} CopyStripsAgree(buf: seq<byte>, room: seq<byte>, offs: seq<nat>, i: nat)
    requires 0 < |offs| && InData(offs, |room|) && i <= |offs|
    requires |buf| == Running(offs, |room|, |offs|)
    requires CopyStrips(buf, room, offs, i).Some?
    ensures CopyStripsPy(buf, room, offs, i) == CopyStrips(buf, room, offs, i).value
    decreases |offs| - i
  {
    if i < |offs| {
      var s := StripBytes(room, offs, i);
      var p := Running(offs, |room|, i);
      var next := buf[..p] + s + buf[p + |s| ..];
      assert Running(offs, |room|, i + 1) == p + Size(offs, i, |room|);
      if i + 1 < |offs| {
        assert CopyStrips(next, room, offs, i + 1).Some?;
      } else {
        RunningTelescopes(offs, |room|, i + 1);
      }
      SetSliceAgrees(buf, p, p + Size(offs, i, |room|), s);
      CopyStripsAgree(next, room, offs, i + 1);
    }
  }

  /** A slice assignment whose start and stop are inside the array and
      whose stop is either the start plus the length of the new bytes or,
      with no new bytes, before the start, replaces exactly the bytes
      under it. */
  lemma SetSliceAgrees(b: seq<byte>, p: int, q: int, s: seq<byte>)
    requires 0 <= p && p + |s| <= |b| && q >= 0
    requires p <= q ==> q == p + |s|
    requires q < p ==> s == []
    ensures PySetSlice(b, p, q, s) == b[..p] + s + b[p + |s| ..]
  {
  }

  /** One strip written at its place behind the strips before it. */
  lemma CopyStep(head: seq<byte>, room: seq<byte>, a: nat, b: nat, e: nat, buf: seq<byte>)
    requires a <= b < e <= |room|
    requires buf == head + room[a .. b] + ZeroBytes(|room| - b)
    ensures |head| + b - a + (e - b) <= |buf|
    ensures buf[.. |head| + b - a] + room[b .. e] + buf[|head| + b - a + (e - b) ..]
      == head + room[a .. e] + ZeroBytes(|room| - e)
  {
    var p := |head| + b - a;
    assert buf[..p] == head + room[a .. b];
    assert buf[p + (e - b) ..] == ZeroBytes(|room| - e);
    assert room[a .. b] + room[b .. e] == room[a .. e];
  }

  /** The buffer at both ends of the copy: the fresh buffer, and the
      header followed by the room from the first strip on. */
  lemma FilledEnds(room: seq<byte>, offs: seq<nat>, w: nat, h: nat)
    requires 0 < |offs| && InData(offs, |room|) && Increasing(offs)
    ensures var head := Le16(w) + Le16(h) + Entries(offs, |room|, 0);
      Filled(head, room, offs, 0) == Fresh(room, offs, w, h)
      && Filled(head, room, offs, |offs|) == head + room[offs[0] ..]
  {
    assert room[offs[0] .. offs[0]] == [];
    assert room[offs[0] .. |room|] == room[offs[0] ..];
  }

  /** The container of a room with increasing strip starts: width, height,
      one entry per strip, then the room's bytes from the first strip to
      the end, verbatim.  The Python copy writes the same bytes whenever it
      does not fail on a short room. */
  lemma ExtractRoomImageLayout(room: seq<byte>)
    requires |room| >= 10 && SmapPointer(room) < |room|
    requires |RoomOffsets(room)| > 0 && Increasing(RoomOffsets(room))
    ensures var offs := RoomOffsets(room);
      ExtractRoomImage(room)
      == Packed(Le16(U16(room, 4)) + Le16(U16(room, 6)) + Entries(offs, |room|, 0) + room[offs[0] ..],
                U16(room, 4), U16(room, 6), |offs|)
    ensures |room| >= 12 ==> ExtractRoomImagePy(room) == ExtractRoomImage(room)
  {
    var offs := RoomOffsets(room);
    var head := Le16(U16(room, 4)) + Le16(U16(room, 6)) + Entries(offs, |room|, 0);
    FilledEnds(room, offs, U16(room, 4), U16(room, 6));
    CopyStripsInOrder(room, offs, head, 0);
    CopyStripsAgree(Fresh(room, offs, U16(room, 4), U16(room, 6)), room, offs, 0);
  }

  /** Entry `k` of the table sits at byte `2 (k - i)` of the entries from
      `i` on and holds the low 16 bits of strip `k`'s running offset. */
  lemma {:induction false} EntryAt(offs: seq<nat>, n: nat, i: nat, k: nat)
    requires i <= k < |offs|
    ensures Entries(offs, n, i)[2 * (k - i) .. 2 * (k - i) + 2] == Le16(Running(offs, n, k))
    decreases k - i
  {
    var rest := Entries(offs, n, i + 1);
    assert Entries(offs, n, i) == Le16(Running(offs, n, i)) + rest;
    if k > i {
      EntryAt(offs, n, i + 1, k);
      assert Entries(offs, n, i)[2 * (k - i) .. 2 * (k - i) + 2] == rest[2 * (k - i - 1) .. 2 * (k - i - 1) + 2];
    }
  }

  // ---------------------------------------------------------------------
  // The reader

  /** The table loop of `decode_scumm_image`: `(width + 7) // 8` words
      from byte 4, ending at a zero word or one at or past the end of the
      data; there is no order check. */
  function ScummPolicy(width: nat): (pol: Policy)
    ensures !pol.skipLeadingZero && pol.bias == 0 && pol.base == 4 && pol.minOffset == 0 && !pol.increasing
  {
    Policy(4, (width + 7) / 8, false, 0, 0, false)
  }

  /** `decode_scumm_image`: `None` for fewer than 8 bytes, a width outside
      `1 .. 2000`, a height outside `1 .. 300` or an empty table; otherwise
      the first `min(N, width // 8)` strips in a `width` by `height`
      image. */
  function DecodeScummImage(data: seq<byte>): (r: Option<Image>)
    ensures r.Some? <==>
      |data| >= 8 && 0 < U16(data, 0) <= 2000 && 0 < U16(data, 2) <= 300 && |ReadTable(data, ScummPolicy(U16(data, 0)))| > 0
    ensures r.Some? ==>
      WellShaped(r.value) && Indexed(r.value) && r.value.width == U16(data, 0) && r.value.height == U16(data, 2)
  {
    if |data| < 8 then None
    else
      var w, h := U16(data, 0), U16(data, 2);
      if w == 0 || h == 0 || w > 2000 || h > 300 then None
      else
        var offs := ReadTable(data, ScummPolicy(w));
        if |offs| == 0 then None
        else Some(TableImage(data, offs, Shown(|offs|, w), w, h))
  }

  // ---------------------------------------------------------------------
  // Round trip

  /** The conditions under which a repackaged room reads back: strictly
      increasing strip starts, one strip per 8 columns (rounded up), a
      width and height the reader accepts, and a container of at least 8
      and fewer than 65536 bytes, so that no entry is truncated. */
  predicate RoundTrips(room: seq<byte>)
  {
    |room| >= 10 && SmapPointer(room) < |room|
    && var offs := RoomOffsets(room);
    |offs| > 0 && Increasing(offs) && |offs| == (U16(room, 4) + 7) / 8
    && 0 < U16(room, 4) <= 2000 && 0 < U16(room, 6) <= 300
    && 8 <= 4 + 2 * |offs| + |room| - offs[0] < 0x1_0000
  }

  /** The container offsets: strip `k` sits `4 + 2N` plus its distance
      from the first strip into the container. */
  function Moved(offs: seq<nat>): (c: seq<nat>)
    requires 0 < |offs| && Increasing(offs)
  {
    seq(|offs|, k requires 0 <= k < |offs| => 4 + 2 * |offs| + offs[k] - offs[0])
  }

  /** Reading a repackaged room back gives the image its strips make:
      the offsets read are the moved strip starts, each strip slice of the
      container is the strip's slice of the room, and the first
      `min(N, width // 8)` strips are decoded. */
  lemma RoundTrip(room: seq<byte>)
    requires RoundTrips(room)
    ensures ExtractRoomImage(room).Packed?
    ensures var offs := RoomOffsets(room);
      var w, h := U16(room, 4), U16(room, 6);
      DecodeScummImage(ExtractRoomImage(room).data) == Some(TableImage(room, offs, Shown(|offs|, w), w, h))
  {
    var offs := RoomOffsets(room);
    var w, h := U16(room, 4), U16(room, 6);
    ExtractRoomImageLayout(room);
    var head := Le16(w) + Le16(h) + Entries(offs, |room|, 0);
    var c := head + room[offs[0] ..];
    HeaderReads(w, h, Entries(offs, |room|, 0), room[offs[0] ..]);
    TableReads(room, offs, Le16(w) + Le16(h), c, w);
    BlocksMoved(room, offs, head, Shown(|offs|, w), h);
  }

  /** The header of a container reads back as its width and height. */
  lemma HeaderReads(w: nat, h: nat, e: seq<byte>, t: seq<byte>)
    requires w < 0x1_0000 && h < 0x1_0000
    ensures |Le16(w) + Le16(h) + e + t| >= 4
    ensures U16(Le16(w) + Le16(h) + e + t, 0) == w && U16(Le16(w) + Le16(h) + e + t, 2) == h
  {
    Le16RoundTrip(w);
    Le16RoundTrip(h);
  }

  /** The reader takes each entry of a container whose offsets stay below
      65536 as the moved start of its strip. */
  lemma TableReads(room: seq<byte>, offs: seq<nat>, top: seq<byte>, c: seq<byte>, w: nat)
    requires 0 < |offs| && InData(offs, |room|) && Increasing(offs) && |offs| == (w + 7) / 8
    requires |top| == 4 && c == top + Entries(offs, |room|, 0) + room[offs[0] ..]
    requires |c| < 0x1_0000
    ensures ReadTable(c, ScummPolicy(w)) == Moved(offs)
  {
    forall k | 0 <= k < |offs|
      ensures TakesAt(c, ScummPolicy(w), Moved(offs), k)
    {
      EntryReads(room, offs, top, c, ScummPolicy(w), k);
    }
    ReadTableAll(c, ScummPolicy(w), Moved(offs));
  }

  /** Entry `k` of a container below 65536 bytes is read as the moved
      start of strip `k`. */
  lemma {:induction false} EntryReads(room: seq<byte>, offs: seq<nat>, top: seq<byte>, c: seq<byte>, pol: Policy, k: nat)
    requires 0 < |offs| && InData(offs, |room|) && Increasing(offs)
    requires |top| == 4 && c == top + Entries(offs, |room|, 0) + room[offs[0] ..]
    requires |c| < 0x1_0000 && k < |offs|
    requires pol.base == 4 && pol.bias == 0 && pol.minOffset == 0 && !pol.increasing
    ensures TakesAt(c, pol, Moved(offs), k)
  {
    EntryWord(room, offs, top, c, k);
    PlainWordTaken(c, pol, Moved(offs), k);
  }

  /** Under a policy without bias, minimum or order check, a word that is
      non-zero and points inside the data is taken as it stands. */
  lemma PlainWordTaken(data: seq<byte>, pol: Policy, want: seq<nat>, i: nat)
    requires pol.bias == 0 && pol.minOffset == 0 && !pol.increasing && i < |want|
    requires pol.base + 2 * i + 1 < |data| && 0 < want[i] < |data| && U16(data, pol.base + 2 * i) == want[i]
    ensures TakesAt(data, pol, want, i)
  {
  }

  /** The word at entry `k` of a container below 65536 bytes is the moved
      start of strip `k`, a position inside the container. */
  lemma {:induction false} EntryWord(room: seq<byte>, offs: seq<nat>, top: seq<byte>, c: seq<byte>, k: nat)
    requires 0 < |offs| && InData(offs, |room|) && Increasing(offs)
    requires |top| == 4 && c == top + Entries(offs, |room|, 0) + room[offs[0] ..]
    requires |c| < 0x1_0000 && k < |offs|
    ensures 4 + 2 * k + 1 < |c| && 0 < Moved(offs)[k] < |c| && U16(c, 4 + 2 * k) == Moved(offs)[k]
  {
    var e := Entries(offs, |room|, 0);
    var r := Running(offs, |room|, k);
    EntryAt(offs, |room|, 0, k);
    RunningTelescopes(offs, |room|, k);
    assert 0 < r < |c|;
    WordBehind(top, e, room[offs[0] ..], 2 * k);
    assert U16(c, 4 + 2 * k) == U16(Le16(r), 0);
    Le16Small(r);
  }

  /** A value below 65536 survives its two little-endian bytes. */
  lemma Le16Small(v: nat)
    requires v < 0x1_0000
    ensures U16(Le16(v), 0) == v
  {
    Le16RoundTrip(v);
  }

  /** A word of the middle part of `top + e + t` read at its place in the
      whole. */
  lemma WordBehind(top: seq<byte>, e: seq<byte>, t: seq<byte>, i: nat)
    requires i + 1 < |e|
    ensures U16(top + e + t, |top| + i) == U16(e[i .. i + 2], 0)
  {
    var c := top + e + t;
    assert c[|top| + i] == e[i] && c[|top| + i + 1] == e[i + 1];
  }

  /** The blocks decoded from the container are the blocks of the room's
      strips. */
  lemma BlocksMoved(room: seq<byte>, offs: seq<nat>, head: seq<byte>, m: nat, h: nat)
    requires 0 < |offs| && InData(offs, |room|) && Increasing(offs) && m <= |offs|
    requires |head| == 4 + 2 * |offs|
    ensures InData(Moved(offs), |head + room[offs[0] ..]|)
    ensures TableBlocks(head + room[offs[0] ..], Moved(offs), m, h) == TableBlocks(room, offs, m, h)
  {
    StripMoved(room, offs, head, 0);
    forall k | 0 <= k < m
      ensures StripBytes(head + room[offs[0] ..], Moved(offs), k) == StripBytes(room, offs, k)
    {
      StripMoved(room, offs, head, k);
    }
  }

  /** Strip `k`'s slice of the container is its slice of the room. */
  lemma StripMoved(room: seq<byte>, offs: seq<nat>, head: seq<byte>, k: nat)
    requires 0 < |offs| && InData(offs, |room|) && Increasing(offs) && k < |offs|
    requires |head| == 4 + 2 * |offs|
    ensures InData(Moved(offs), |head + room[offs[0] ..]|)
    ensures StripBytes(head + room[offs[0] ..], Moved(offs), k) == StripBytes(room, offs, k)
  {
    var c := head + room[offs[0] ..];
    var moved := Moved(offs);
    var e := StripEnd(offs, k, |room|);
    assert StripEnd(moved, k, |c|) == |head| + e - offs[0];
    assert c[|head| + offs[k] - offs[0] .. |head| + e - offs[0]] == room[offs[k] .. e];
  }
}
