/** The Python room decoders that read a room's SMAP strip table directly:
    `decode_room` in decode_all_rooms_correct.py, the Room 01 script
    test/decode_room_correct.py, and the heuristic `decode_room` in
    decode_all_rooms.py, which searches the resource table for something
    that looks like a strip table.  Each ends with a picture, with `False`
    for a room without strips, or with an exception. */
module RoomImage {
  import opened Bytes
  import opened EgaStrip
  import opened EgaVariants
  import opened Canvas
  import opened OffsetTable
  import opened StripTable
  import opened ObjectImage

  /** How a room decoding ends: an exception (an IndexError on a short
      room, or a ZeroDivisionError on an empty picture), no strips, or the
      picture. */
  datatype RoomResult = Raised | NoStrips | Drawn(img: Image)

  /** The picture of a table reader with a declared width and height: the
      first `min(N, width // 8)` strips in a zero image of that size. */
  function Drawing(room: seq<byte>, offs: seq<nat>, w: nat, h: nat): (img: Image)
    requires InData(offs, |room|)
    ensures WellShaped(img) && Indexed(img) && img.width == w && img.height == h
    ensures Placed(img, TableBlocks(room, offs, Shown(|offs|, w), h))
  {
    TableImage(room, offs, Shown(|offs|, w), w, h)
  }

  // ---------------------------------------------------------------------
  // decode_all_rooms_correct.py

  /** The strip starts `decode_room` reads: up to 200 entries of the SMAP
      block whose offset is the first resource word at 0x0A. */
  function CorrectOffsets(room: seq<byte>): (offs: seq<nat>)
    requires |room| >= 12
    ensures InData(offs, |room|) && |offs| <= 200
    ensures forall k :: 0 <= k < |offs| ==> U16(room, 10) < offs[k]
  {
    ReadTable(room, SmapPolicy(U16(room, 10), 200))
  }

  /** `decode_room(lfl_file, output_png)` on the decrypted room: an
      IndexError below 12 bytes, `False` for an empty table, a
      ZeroDivisionError (the percentage of non-zero pixels) for an empty
      picture, one whose pixel count `width * height` is zero because a
      side is, else the declared width by height picture. */
  function DecodeRoomCorrect(room: seq<byte>): (r: RoomResult)
    ensures r == Raised <==> |room| < 12 || (|CorrectOffsets(room)| > 0 && (U16(room, 4) == 0 || U16(room, 6) == 0))
    ensures r == NoStrips <==> |room| >= 12 && |CorrectOffsets(room)| == 0
    ensures r.Drawn? ==> WellShaped(r.img) && Indexed(r.img)
    ensures r.Drawn? ==> r.img.width == U16(room, 4) > 0 && r.img.height == U16(room, 6) > 0
  {
    if |room| < 12 then Raised
    else
      var offs := CorrectOffsets(room);
      var w, h := U16(room, 4), U16(room, 6);
      if |offs| == 0 then NoStrips
      else if w == 0 || h == 0 then Raised
      else Drawn(Drawing(room, offs, w, h))
  }

  /** A drawn room shows strip `i` of the SMAP table at columns `8 i ..`
      for every strip that fits the declared width; each strip start is the
      SMAP offset plus its table word, and the first word not taken ends
      the table. */
  lemma DecodeRoomCorrectTable(room: seq<byte>)
    requires DecodeRoomCorrect(room).Drawn?
    ensures var offs := CorrectOffsets(room);
      var img := DecodeRoomCorrect(room).img;
      Placed(img, TableBlocks(room, offs, Shown(|offs|, img.width), img.height))
    ensures var pol := SmapPolicy(U16(room, 10), 200);
      var offs := CorrectOffsets(room);
      (forall k :: 0 <= k < |offs| ==> Good(room, pol, offs, k))
      && (|offs| < 200 ==> !Accepts(room, pol, |offs|, Last(offs)))
  {
    var pol := SmapPolicy(U16(room, 10), 200);
    ReadTableExact(room, pol);
    assert Skip(room, pol) == 0;
  }

  // ---------------------------------------------------------------------
  // test/decode_room_correct.py

  /** The SMAP offset the Room 01 script hard-codes. */
  const Room01Smap: nat := 0x0135

  /** The Room 01 script: the SMAP block fixed at 0x0135, at most 100
      entries, an IndexError below 8 bytes, and no test for an empty table:
      the picture is then all zeros, unless it is empty, which raises
      ZeroDivisionError. */
  function DecodeRoom01(room: seq<byte>): (r: RoomResult)
    ensures r != NoStrips
    ensures r == Raised <==> |room| < 8 || U16(room, 4) == 0 || U16(room, 6) == 0
    ensures r.Drawn? ==> WellShaped(r.img) && Indexed(r.img)
    ensures r.Drawn? ==> r.img.width == U16(room, 4) && r.img.height == U16(room, 6)
  {
    if |room| < 8 then Raised
    else
      var w, h := U16(room, 4), U16(room, 6);
      if w == 0 || h == 0 then Raised
      else Drawn(Drawing(room, ReadTable(room, SmapPolicy(Room01Smap, 100)), w, h))
  }

  /** On a room whose resource word at 0x0A is 0x0135 and whose table
      stops before 100 entries, the script draws what `decode_room` draws. */
  lemma Room01MatchesDecodeRoom(room: seq<byte>)
    requires |room| >= 12 && U16(room, 10) == Room01Smap
    requires |ReadTable(room, SmapPolicy(Room01Smap, 200))| < 100
    requires DecodeRoomCorrect(room).Drawn?
    ensures DecodeRoom01(room) == DecodeRoomCorrect(room)
  {
    ReadTableShorter(room, SmapPolicy(Room01Smap, 200), 100);
    assert SmapPolicy(Room01Smap, 200).(maxEntries := 100) == SmapPolicy(Room01Smap, 100);
  }

  // ---------------------------------------------------------------------
  // decode_all_rooms.py

  /** The resource table: up to 20 words from 0x0A, ending at a zero word
      or one at or past the end of the data. */
  function ResourcePolicy(): (pol: Policy)
    ensures pol.base == 0x0A && pol.maxEntries == 20 && !pol.increasing && pol.bias == 0 && pol.minOffset == 0
  {
    Policy(0x0A, 20, false, 0, 0, false)
  }

  /** A candidate strip table read directly at a resource offset: up to
      200 absolute words, ending at a zero word or one at or past the end
      of the data. */
  function CandidatePolicy(at: nat): (pol: Policy)
    ensures pol.base == at && pol.maxEntries == 200 && !pol.increasing && pol.bias == 0 && pol.minOffset == 0
  {
    Policy(at, 200, false, 0, 0, false)
  }

  /** The differences of the first `m` neighbouring entries, added up. */
  function GapSum(p: seq<nat>, m: nat): int
    requires m < |p|
  {
    if m == 0 then 0 else GapSum(p, m - 1) + (p[m] as int - p[m - 1] as int)
  }

  /** The gaps telescope to the distance from the first to the `m`-th
      entry. */
  lemma {:induction false} GapSumTelescopes(p: seq<nat>, m: nat)
    requires m < |p|
    ensures GapSum(p, m) == p[m] as int - p[0] as int
  {
    if m > 0 {
      GapSumTelescopes(p, m - 1);
    }
  }

  /** The test on a candidate: at least three entries, and the mean of the
      first `min(5, N - 1)` gaps strictly between 10 and 5000 (as a
      floating-point quotient). */
  predicate LooksLikeStrips(p: seq<nat>)
  {
    |p| >= 3
    && var m := if |p| - 1 < 5 then |p| - 1 else 5;
    var mean := (GapSum(p, m) as real) / (m as real);
    10.0 < mean < 5000.0
  }

  /** A candidate passes exactly when it has at least three entries and
      its `m`-th entry lies more than `10 m` and less than `5000 m` bytes
      after its first, `m` being `min(5, N - 1)`. */
  lemma LooksLikeStripsIff(p: seq<nat>)
    ensures LooksLikeStrips(p) <==>
      |p| >= 3 && var m := if |p| - 1 < 5 then |p| - 1 else 5;
      10 * m < p[m] as int - p[0] as int < 5000 * m
  {
    if |p| >= 3 {
      var m := if |p| - 1 < 5 then |p| - 1 else 5;
      GapSumTelescopes(p, m);
      RatioAbove(GapSum(p, m), m, 10);
      RatioBelow(GapSum(p, m), m, 5000);
    }
  }

  /** The candidate strip table at resource offset `at`. */
  function Candidate(room: seq<byte>, at: nat): (p: seq<nat>)
    ensures InData(p, |room|) && |p| <= 200
  {
    ReadTable(room, CandidatePolicy(at))
  }

  /** The search loop: the candidate of the first resource offset that
      passes the test, or nothing. */
  function FindStrips(room: seq<byte>, res: seq<nat>, j: nat): (offs: seq<nat>)
    requires j <= |res|
    decreases |res| - j
    ensures |offs| == 0 || LooksLikeStrips(offs)
    ensures InData(offs, |room|)
  {
    if j == |res| then []
    else
      var p := Candidate(room, res[j]);
      if LooksLikeStrips(p) then p else FindStrips(room, res, j + 1)
  }

  /** The search returns the candidate of the first resource that passes
      the test, and nothing exactly when none passes. */
  lemma {:induction false} FindStripsIsFirst(room: seq<byte>, res: seq<nat>, j: nat)
    requires j <= |res|
    decreases |res| - j
    ensures |FindStrips(room, res, j)| == 0 <==>
      forall k :: j <= k < |res| ==> !LooksLikeStrips(Candidate(room, res[k]))
    ensures |FindStrips(room, res, j)| > 0 ==>
      exists k :: j <= k < |res| && FindStrips(room, res, j) == Candidate(room, res[k])
        && forall i :: j <= i < k ==> !LooksLikeStrips(Candidate(room, res[i]))
  {
    if j < |res| {
      var p := Candidate(room, res[j]);
      if LooksLikeStrips(p) {
        assert |p| >= 3;
        assert FindStrips(room, res, j) == p;
      } else {
        var q := FindStrips(room, res, j + 1);
        FindStripsIsFirst(room, res, j + 1);
        assert FindStrips(room, res, j) == q;
        if |q| > 0 {
          var k :| j + 1 <= k < |res| && q == Candidate(room, res[k])
            && forall i :: j + 1 <= i < k ==> !LooksLikeStrips(Candidate(room, res[i]));
          assert forall i :: j <= i < k ==> !LooksLikeStrips(Candidate(room, res[i]));
        }
      }
    }
  }

  /** Block `i` of the heuristic decoder: the unguarded `drawStripEGA`
      block, or zeros when it raises (the loop catches the exception and
      moves on). */
  function HeuristicBlocks(room: seq<byte>, offs: seq<nat>, h: nat): (blocks: seq<Strip>)
    requires InData(offs, |room|)
    ensures |blocks| == |offs| && Blocks(blocks, h)
    ensures forall i :: 0 <= i < |blocks| ==> Nibbles(blocks[i])
  {
    seq(|offs|, i requires 0 <= i < |offs| =>
      match DrawStripUnguarded(StripBytes(room, offs, i), h)
      case Decoded(s) => s
      case _ => Blank(h))
  }

  /** `decode_room(lfl_file, output_png)` in decode_all_rooms.py: an
      IndexError below 8 bytes, `False` when no candidate passes, else
      one strip per 8 columns and the declared height. */
  function DecodeAllRooms(room: seq<byte>): (r: RoomResult)
    ensures r == Raised <==> |room| < 8
    ensures r.Drawn? ==> WellShaped(r.img) && Indexed(r.img) && r.img.height == U16(room, 6)
  {
    if |room| < 8 then Raised
    else
      var offs := FindStrips(room, ReadTable(room, ResourcePolicy()), 0);
      if |offs| == 0 then NoStrips
      else
        var blocks := HeuristicBlocks(room, offs, U16(room, 6));
        ComposeIndexed(8 * |offs|, U16(room, 6), blocks);
        Drawn(Compose(8 * |offs|, U16(room, 6), blocks))
  }

  /** Block `i` of the heuristic decoder is the strip decoded as
      `decodeStripV3` decodes it, except that a strip with a run past
      column 7 stays zero. */
  lemma HeuristicBlock(room: seq<byte>, offs: seq<nat>, h: nat, i: nat)
    requires InData(offs, |room|) && i < |offs|
    ensures HeuristicBlocks(room, offs, h)[i]
      == if h > 0 && !RunsFit(StripBytes(room, offs, i), h, 0, Cursor(0, 0)) then Blank(h)
         else DecodeStripV3(StripBytes(room, offs, i), h)
  {
    DrawStripUnguardedSpec(StripBytes(room, offs, i), h);
  }

  /** The heuristic picture is `8 N` wide, `N` being the length of the
      first candidate that passes the test, and places the heuristic
      blocks of that candidate side by side. */
  lemma DecodeAllRoomsLayout(room: seq<byte>)
    requires DecodeAllRooms(room).Drawn?
    ensures var offs := FindStrips(room, ReadTable(room, ResourcePolicy()), 0);
      var img := DecodeAllRooms(room).img;
      LooksLikeStrips(offs) && img.width == 8 * |offs| && Placed(img, HeuristicBlocks(room, offs, U16(room, 6)))
  {
  }
}
