/** `ScummV3Decoder.decodeObjectImage` and its Python port
    `decode_object_image` in decode_room_correct.py: skip the zero padding,
    classify the data by its first little-endian word, then either decode
    it as raw strips, or read an offset table of at most forty strictly
    increasing strip offsets and place the strips side by side.  Every
    input of at least eight bytes yields an image. */
module ObjectImage {
  import opened Bytes
  import opened EgaStrip
  import opened Canvas
  import opened OffsetTable
  import opened StripTable
  import opened RawStrip
  import opened Planar

  /** `p` is the index of the first non-zero byte (`|data|` when there is
      none). */
  predicate FirstNonZero(data: seq<byte>, p: nat)
  {
    p <= |data| && (forall k :: 0 <= k < p ==> data[k] == 0) && (p < |data| ==> data[p] != 0)
  }

  /** The padding loop `while (offset < length && data[offset] === 0)`
      from `i` on. */
  function Padding(data: seq<byte>, i: nat): (p: nat)
    requires i <= |data|
    decreases |data| - i
    ensures i <= p <= |data|
    ensures forall k :: i <= k < p ==> data[k] == 0
    ensures p < |data| ==> data[p] != 0
  {
    if i < |data| && data[i] == 0 then Padding(data, i + 1) else i
  }

  /** How the data after the padding is read. */
  datatype Framing =
    | Padded                                            // at most one byte after the padding
    | Raw(start: nat)                                   // first word above the remaining size
    | Table(start: nat, tableStart: nat, minOffset: nat)  // an offset table

  /** The format detection of `decodeObjectImage`.  Format B (a word below
      1000 and below the remaining size) puts the table at the word itself
      and accepts any offset; otherwise the table starts after the word and
      offsets must not point into it.  The "format A" test only feeds a
      log line. */
  function Classify(data: seq<byte>): (f: Framing)
    ensures f.Padded? <==> forall k :: 0 <= k < |data| - 1 ==> data[k] == 0
    ensures f.Raw? ==>
      FirstNonZero(data, f.start) && f.start + 1 < |data| && U16(data, f.start) > |data| - f.start
    ensures f.Table? ==>
      FirstNonZero(data, f.start) && f.start + 1 < |data| && U16(data, f.start) <= |data| - f.start
    ensures f.Table? && U16(data, f.start) < 1000 && U16(data, f.start) < |data| - f.start ==>
      f.tableStart == f.start && f.minOffset == 0
    ensures f.Table? && !(U16(data, f.start) < 1000 && U16(data, f.start) < |data| - f.start) ==>
      f.tableStart == f.start + 2 && f.minOffset == f.start + 2
  {
    var p := Padding(data, 0);
    if p + 1 >= |data| then
      assert forall k :: 0 <= k < |data| - 1 ==> data[k] == 0;
      Padded
    else
      assert data[p] != 0;
      var w := U16(data, p);
      var fileSize := |data| - p;
      if w > fileSize then Raw(p)
      else if w < 1000 && w < fileSize then Table(p, p, 0)
      else Table(p, p + 2, p + 2)
  }

  /** The strip table loop of `decodeObjectImage`: forty words, a zero
      first word skipped, offsets at or above `minOffset`, inside the data
      and strictly increasing. */
  function ObjectPolicy(tableStart: nat, minOffset: nat): (pol: Policy)
    ensures pol.maxEntries == 40 && pol.increasing && pol.bias == 0
  {
    Policy(tableStart, 40, true, 0, minOffset, true)
  }

  /** `estimateHeight`: the height from the mean strip size
      `dataSize / numStrips`, compared with 80, 150 and 250 bytes. */
  function EstimateHeight(dataSize: nat, numStrips: nat): (h: nat)
    requires numStrips > 0
    ensures h == 64 <==> (dataSize as real) / (numStrips as real) < 80.0
    ensures h == 88 <==> 80.0 <= (dataSize as real) / (numStrips as real) < 150.0
    ensures h == 128 <==> 150.0 <= (dataSize as real) / (numStrips as real) < 250.0
    ensures h == 144 <==> 250.0 <= (dataSize as real) / (numStrips as real)
  {
    RatioBelow(dataSize, numStrips, 80);
    RatioBelow(dataSize, numStrips, 150);
    RatioBelow(dataSize, numStrips, 250);
    if dataSize < 80 * numStrips then 64
    else if dataSize < 150 * numStrips then 88
    else if dataSize < 250 * numStrips then 128
    else 144
  }

  /** The floating-point test `n / s < k` of the source is the integer
      test `n < k * s`. */
  lemma RatioBelow(n: int, s: nat, k: nat)
    requires s > 0
    ensures (n as real) / (s as real) < k as real <==> n < k * s
  {
    var q := (n as real) / (s as real);
    assert q * (s as real) == n as real;
    assert (k * s) as real == (k as real) * (s as real);
    if q < k as real {
      assert q * (s as real) < (k as real) * (s as real);
    } else {
      assert q * (s as real) >= (k as real) * (s as real);
    }
  }

  /** The floating-point test `n / s > k` is the integer test
      `n > k * s`. */
  lemma RatioAbove(n: int, s: nat, k: nat)
    requires s > 0
    ensures (n as real) / (s as real) > k as real <==> n > k * s
  {
    var q := (n as real) / (s as real);
    assert q * (s as real) == n as real;
    assert (k * s) as real == (k as real) * (s as real);
    if q > k as real {
      assert q * (s as real) > (k as real) * (s as real);
    } else {
      assert q * (s as real) <= (k as real) * (s as real);
    }
  }

  /** A larger object never gets a smaller estimated height. */
  lemma EstimateHeightMonotone(n1: nat, n2: nat, s: nat)
    requires s > 0 && n1 <= n2
    ensures EstimateHeight(n1, s) <= EstimateHeight(n2, s)
  {
  }

  /** `decodeObjectImage`: null for fewer than eight bytes; the planar
      fallback when nothing follows the padding or no strip is accepted;
      the raw format when the first word exceeds the remaining size; else
      `numStrips` strips in an image `8 * numStrips` wide. */
  function DecodeObjectImage(data: seq<byte>): (r: Option<Image>)
    ensures r.None? <==> |data| < 8
    ensures r.Some? ==> WellShaped(r.value) && Indexed(r.value)
  {
    if |data| < 8 then None
    else match Classify(data)
      case Padded => Some(DecodeFallback(data))
      case Raw(p) => Some(DecodeRawFormat(data[p..]))
      case Table(_, t, m) =>
        var offs := ReadTable(data, ObjectPolicy(t, m));
        if |offs| == 0 then Some(DecodeFallback(data))
        else Some(TableImage(data, offs, |offs|, 8 * |offs|, EstimateHeight(|data|, |offs|)))
  }

  /** The offsets `decodeObjectImage` reads from a table framing. */
  function ObjectOffsets(data: seq<byte>, f: Framing): (offs: seq<nat>)
    requires f.Table?
    ensures |offs| <= 40 && Increasing(offs) && InData(offs, |data|)
    ensures forall k :: 0 <= k < |offs| ==> f.minOffset <= offs[k]
  {
    ReadTable(data, ObjectPolicy(f.tableStart, f.minOffset))
  }

  /** The table path: an image `8 * numStrips` wide with the estimated
      height, strip `i` being the bytes from offset `i` to the next offset
      (or the end), placed at columns `8 * i ..`; the offsets rise strictly
      inside `[minOffset, |data|)`, and each is the table word at its index
      (past a skipped zero first word), the first rejected word ending the
      table. */
  lemma DecodeObjectImageTable(data: seq<byte>)
    requires |data| >= 8 && Classify(data).Table? && |ObjectOffsets(data, Classify(data))| > 0
    ensures var offs := ObjectOffsets(data, Classify(data));
      var n := |offs|;
      var img := DecodeObjectImage(data).value;
      img.width == 8 * n && img.height == EstimateHeight(|data|, n)
      && Placed(img, TableBlocks(data, offs, n, img.height))
    ensures var f := Classify(data);
      var pol := ObjectPolicy(f.tableStart, f.minOffset);
      var offs := ObjectOffsets(data, f);
      (forall k :: 0 <= k < |offs| ==> Good(data, pol, offs, k))
      && (|offs| + Skip(data, pol) < 40 ==> !Accepts(data, pol, |offs| + Skip(data, pol), Last(offs)))
  {
    var f := Classify(data);
    ReadTableExact(data, ObjectPolicy(f.tableStart, f.minOffset));
  }

  /** The other paths: the raw format is a 320 by 200 image of the strips
      after the padding; the fallback takes its size from the length. */
  lemma DecodeObjectImageOtherPaths(data: seq<byte>)
    requires |data| >= 8
    ensures Classify(data).Raw? ==> DecodeObjectImage(data) == Some(DecodeRawFormat(data[Classify(data).start ..]))
    ensures Classify(data).Raw? ==> DecodeObjectImage(data).value.width == 320 && DecodeObjectImage(data).value.height == 200
    ensures Classify(data).Padded? || (Classify(data).Table? && |ObjectOffsets(data, Classify(data))| == 0) ==>
      DecodeObjectImage(data) == Some(DecodeFallback(data))
  {
  }

  /** A container written by the room repackager starts with its width; a
      width below 1000 whose low byte is not zero is taken as the start of
      a format-B table, so the width becomes the first strip offset. */
  lemma ContainerWidthReadAsOffset(data: seq<byte>)
    requires |data| >= 8 && data[0] != 0 && U16(data, 0) < 1000 && U16(data, 0) < |data|
    ensures Classify(data) == Table(0, 0, 0)
    ensures |ObjectOffsets(data, Table(0, 0, 0))| > 0 && ObjectOffsets(data, Table(0, 0, 0))[0] == U16(data, 0)
  {
    assert FirstNonZero(data, 0);
    var pol := ObjectPolicy(0, 0);
    ReadTableExact(data, pol);
    assert Skip(data, pol) == 0;
    assert Accepts(data, pol, 0, None);
  }

  // ---------------------------------------------------------------------
  // The Python port

  /** `decode_object_image(data, height)` in decode_room_correct.py: the
      same padding, classification and table rules, but `(None, None,
      None)` for the raw format, for padding-only data and for an empty
      table, and the height is the argument. */
  function DecodeObjectImagePy(data: seq<byte>, height: nat): (r: Option<Image>)
    ensures r.Some? ==> WellShaped(r.value) && Indexed(r.value) && r.value.height == height
  {
    if |data| < 8 then None
    else match Classify(data)
      case Padded => None
      case Raw(_) => None
      case Table(_, t, m) =>
        var offs := ReadTable(data, ObjectPolicy(t, m));
        if |offs| == 0 then None
        else Some(TableImage(data, offs, |offs|, 8 * |offs|, height))
  }

  /** The port returns an image exactly when the TypeScript decoder takes
      its table path, and then the same image when the height argument is
      the estimated height. */
  lemma PortMatchesDecoder(data: seq<byte>, height: nat)
    ensures DecodeObjectImagePy(data, height).Some? <==>
      |data| >= 8 && Classify(data).Table? && |ObjectOffsets(data, Classify(data))| > 0
    ensures DecodeObjectImagePy(data, height).Some? && height == DecodeObjectImage(data).value.height ==>
      DecodeObjectImagePy(data, height) == DecodeObjectImage(data)
  {
  }
}
