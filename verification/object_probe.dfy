/** The Python object decoders that guess the OBIM layout instead of
    classifying it: `try_decode_with_header_size` and `decode_object_smart`
    in tools/decode_objects_v3.py, `decode_object_with_strips` in
    tools/archive/decode_object_v2.py, and the equal-split
    `decode_object_image` in tools/archive/decode_object_test.py.  Each
    decodes its strips with `decode_strip_ega`, which yields the blocks of
    `EgaStrip.DecodeStripV3` (`EgaStrip.DecodeStripEgaIsDecodeStripV3`). */
module ObjectProbe {
  import opened Bytes
  import opened EgaStrip
  import opened Canvas
  import opened OffsetTable
  import opened StripTable
  import opened RawStrip

  // ---------------------------------------------------------------------
  // decode_objects_v3.py

  /** The table loop of `try_decode_with_header_size`: at most 80 words
      from the end of the header, ending at a zero word, a word at or past
      the end of the data, a word not above the previous one, or a word
      pointing into the header or the first table word. */
  function ProbePolicy(headerSize: nat): (pol: Policy)
    ensures pol.base == headerSize && pol.maxEntries == 80 && pol.minOffset == headerSize + 2
    ensures !pol.skipLeadingZero && pol.bias == 0 && pol.increasing
  {
    Policy(headerSize, 80, false, 0, headerSize + 2, true)
  }

  /** The height rule: 64 rows above 2000 bytes, 48 above 500, else the
      default. */
  function ProbeHeight(size: nat, defaultHeight: nat): nat
  {
    if size > 2000 then 64 else if size > 500 then 48 else defaultHeight
  }

  /** A decoded object with the number of strips and the header size that
      produced it (the `format` is named after the header size). */
  datatype Probe = Probe(img: Image, strips: nat, headerSize: nat)

  /** `try_decode_with_header_size`: `None` for data shorter than the
      header plus four bytes or an empty table; else `N` strips side by
      side, `8 N` wide.  Its test for more than 80 strips never fires, as
      the loop reads at most 80 words. */
  function TryDecodeWithHeaderSize(data: seq<byte>, headerSize: nat, defaultHeight: nat): (r: Option<Probe>)
    ensures r.Some? <==> |data| >= headerSize + 4 && |ReadTable(data, ProbePolicy(headerSize))| > 0
    ensures r.Some? ==> r.value.headerSize == headerSize && 0 < r.value.strips <= 80
    ensures r.Some? ==> r.value.strips == |ReadTable(data, ProbePolicy(headerSize))|
    ensures r.Some? ==> WellShaped(r.value.img) && Indexed(r.value.img)
    ensures r.Some? ==> r.value.img.width == 8 * r.value.strips
    ensures r.Some? && |data| > 2000 ==> r.value.img.height == 64
    ensures r.Some? && 500 < |data| <= 2000 ==> r.value.img.height == 48
    ensures r.Some? && |data| <= 500 ==> r.value.img.height == defaultHeight
  {
    if |data| < headerSize + 4 then None
    else
      var offs := ReadTable(data, ProbePolicy(headerSize));
      if |offs| == 0 then None
      else
        var n := |offs|;
        Some(Probe(TableImage(data, offs, n, 8 * n, ProbeHeight(|data|, defaultHeight)), n, headerSize))
  }

  /** A probe that succeeds places strip `i`, the bytes from offset `i` to
      the next offset or the end, at columns `8 i ..`; the offsets rise
      strictly inside `[headerSize + 2, |data|)`, each is the table word at
      its index, and the first word not taken ends the table. */
  lemma ProbeTable(data: seq<byte>, headerSize: nat, defaultHeight: nat)
    requires TryDecodeWithHeaderSize(data, headerSize, defaultHeight).Some?
    ensures var offs := ReadTable(data, ProbePolicy(headerSize));
      var p := TryDecodeWithHeaderSize(data, headerSize, defaultHeight).value;
      Increasing(offs) && InData(offs, |data|)
      && (forall k :: 0 <= k < |offs| ==> headerSize + 2 <= offs[k])
      && Placed(p.img, TableBlocks(data, offs, |offs|, p.img.height))
    ensures var pol := ProbePolicy(headerSize);
      var offs := ReadTable(data, pol);
      (forall k :: 0 <= k < |offs| ==> Good(data, pol, offs, k))
      && (|offs| < 80 ==> !Accepts(data, pol, |offs|, Last(offs)))
  {
    var pol := ProbePolicy(headerSize);
    ReadTableExact(data, pol);
    assert Skip(data, pol) == 0;
  }

  /** The header sizes `decode_object_smart` tries, in order:
      GF_SMALL_HEADER (8), GF_OLD_BUNDLE (0), then 2, 4 and 6. */
  const HeaderSizes: seq<nat> := [8, 0, 2, 4, 6]

  /** The first header size of `sizes` whose probe succeeds. */
  function FirstProbe(data: seq<byte>, sizes: seq<nat>, defaultHeight: nat): (r: Option<Probe>)
    decreases |sizes|
    ensures r.Some? ==> r.value.headerSize in sizes
  {
    if |sizes| == 0 then None
    else match TryDecodeWithHeaderSize(data, sizes[0], defaultHeight)
      case Some(p) => Some(p)
      case None => FirstProbe(data, sizes[1..], defaultHeight)
  }

  /** The inputs `decode_object_smart` rejects before probing: under 16
      bytes, exactly 19 bytes, or at most 20 bytes whose first 16 are
      zero. */
  predicate SkippedObject(data: seq<byte>)
  {
    |data| < 16 || |data| == 19 || (|data| <= 20 && AllZero(data[..16]))
  }

  /** `decode_object_smart`. */
  function DecodeObjectSmart(data: seq<byte>, defaultHeight: nat): (r: Option<Probe>)
    ensures SkippedObject(data) ==> r.None?
    ensures r.Some? ==> r.value.headerSize in HeaderSizes
  {
    if SkippedObject(data) then None else FirstProbe(data, HeaderSizes, defaultHeight)
  }

  /** `FirstProbe` returns the probe of the first header size that
      succeeds, and `None` exactly when none does. */
  lemma {:induction false} FirstProbeIsFirst(data: seq<byte>, sizes: seq<nat>, defaultHeight: nat)
    ensures FirstProbe(data, sizes, defaultHeight).None? <==>
      forall k :: 0 <= k < |sizes| ==> TryDecodeWithHeaderSize(data, sizes[k], defaultHeight).None?
    ensures FirstProbe(data, sizes, defaultHeight).Some? ==>
      exists k :: 0 <= k < |sizes| && FirstProbe(data, sizes, defaultHeight) == TryDecodeWithHeaderSize(data, sizes[k], defaultHeight)
        && forall j :: 0 <= j < k ==> TryDecodeWithHeaderSize(data, sizes[j], defaultHeight).None?
    decreases |sizes|
  {
    if |sizes| > 0 {
      var rest := sizes[1..];
      FirstProbeIsFirst(data, rest, defaultHeight);
      assert forall k :: 0 < k < |sizes| ==> sizes[k] == rest[k - 1];
      if TryDecodeWithHeaderSize(data, sizes[0], defaultHeight).None? && FirstProbe(data, rest, defaultHeight).Some? {
        var k :| 0 <= k < |rest| && FirstProbe(data, rest, defaultHeight) == TryDecodeWithHeaderSize(data, rest[k], defaultHeight)
          && forall j :: 0 <= j < k ==> TryDecodeWithHeaderSize(data, rest[j], defaultHeight).None?;
        assert FirstProbe(data, sizes, defaultHeight) == TryDecodeWithHeaderSize(data, sizes[k + 1], defaultHeight);
        assert forall j :: 0 <= j < k + 1 ==> TryDecodeWithHeaderSize(data, sizes[j], defaultHeight).None?;
      }
    }
  }

  /** `decode_object_smart` returns the first probe, in the order 8, 0, 2,
      4, 6, that succeeds on an object it does not skip, and `None`
      exactly for skipped objects and objects no header size fits. */
  lemma DecodeObjectSmartOrder(data: seq<byte>, defaultHeight: nat)
    ensures DecodeObjectSmart(data, defaultHeight).None? <==>
      SkippedObject(data) || forall k :: 0 <= k < 5 ==> TryDecodeWithHeaderSize(data, HeaderSizes[k], defaultHeight).None?
    ensures DecodeObjectSmart(data, defaultHeight).Some? ==>
      exists k :: 0 <= k < 5 && DecodeObjectSmart(data, defaultHeight) == TryDecodeWithHeaderSize(data, HeaderSizes[k], defaultHeight)
        && forall j :: 0 <= j < k ==> TryDecodeWithHeaderSize(data, HeaderSizes[j], defaultHeight).None?
  {
    FirstProbeIsFirst(data, HeaderSizes, defaultHeight);
  }

  /** The empty-object test changes nothing: when the first 16 bytes are
      zero, the first table word of every header size tried is zero, so
      every probe fails anyway. */
  lemma ZeroObjectFailsEveryProbe(data: seq<byte>, defaultHeight: nat)
    requires |data| >= 16 && AllZero(data[..16])
    ensures forall k :: 0 <= k < 5 ==> TryDecodeWithHeaderSize(data, HeaderSizes[k], defaultHeight).None?
    ensures FirstProbe(data, HeaderSizes, defaultHeight).None?
  {
    forall k | 0 <= k < 5
      ensures TryDecodeWithHeaderSize(data, HeaderSizes[k], defaultHeight).None?
    {
      var hs := HeaderSizes[k];
      var pol := ProbePolicy(hs);
      assert data[hs] == data[..16][hs] && data[hs + 1] == data[..16][hs + 1];
      assert U16(data, hs) == 0;
      assert ReadTable(data, pol) == [];
    }
    FirstProbeIsFirst(data, HeaderSizes, defaultHeight);
  }

  // ---------------------------------------------------------------------
  // decode_object_v2.py

  /** The table loop of `decode_object_with_strips`: at most 40 words
      after the 8-byte header, ending at a zero word, a word at or past the
      end, or a word not above the previous one. */
  function StripsPolicy(): (pol: Policy)
    ensures pol.base == 8 && pol.maxEntries == 40 && pol.minOffset == 0 && pol.increasing && pol.bias == 0
  {
    Policy(8, 40, false, 0, 0, true)
  }

  /** `decode_object_with_strips(obim_data, height)`: `(None, None, None)`
      for an empty table, else `N` strips `8 N` wide and `height` high. */
  function DecodeObjectWithStrips(data: seq<byte>, height: nat): (r: Option<Image>)
    ensures r.Some? <==> |ReadTable(data, StripsPolicy())| > 0
    ensures r.Some? ==> WellShaped(r.value) && Indexed(r.value)
    ensures r.Some? ==> r.value.width == 8 * |ReadTable(data, StripsPolicy())| <= 320 && r.value.height == height
  {
    var offs := ReadTable(data, StripsPolicy());
    if |offs| == 0 then None
    else Some(TableImage(data, offs, |offs|, 8 * |offs|, height))
  }

  /** The strips of `decode_object_with_strips` tile the data from the
      first offset to the end, and strip `i` is placed at columns
      `8 i ..`. */
  lemma DecodeObjectWithStripsLayout(data: seq<byte>, height: nat)
    requires DecodeObjectWithStrips(data, height).Some?
    ensures var offs := ReadTable(data, StripsPolicy());
      Joined(data, offs, 0) == data[offs[0] ..]
      && Placed(DecodeObjectWithStrips(data, height).value, TableBlocks(data, offs, |offs|, height))
  {
    StripsTile(data, ReadTable(data, StripsPolicy()), 0);
  }

  // ---------------------------------------------------------------------
  // decode_object_test.py

  /** The default width: one strip per 20 bytes, at least one and at most
      eight strips. */
  function DefaultWidth(size: nat): (w: nat)
    ensures 8 <= w <= 64 && w % 8 == 0
    ensures size < 40 ==> w == 8
    ensures size >= 160 ==> w == 64
    ensures 40 <= size < 160 ==> w == 8 * (size / 20)
  {
    Min(Max(1, size / 20) * 8, 64)
  }

  /** The chunks the strip loop cuts for `left` remaining strips: each
      takes `len(strip_data) // remaining_strips` bytes of what is left.
      Once nothing is left the loop breaks; the chunks it would cut are
      empty and decode to the zero block, so cutting them changes
      nothing. */
  function EqualSplit(rest: seq<byte>, left: nat): (chunks: seq<seq<byte>>)
    decreases left
    ensures |chunks| == left
  {
    if left == 0 then []
    else
      var k := |rest| / left;
      DivAtMost(|rest|, left);
      [rest[..k]] + EqualSplit(rest[k..], left - 1)
  }

  /** Prepending a chunk to a list of chunks prepends its bytes to their
      concatenation. */
  lemma {:induction false} ConcatCons(a: seq<byte>, t: seq<seq<byte>>, s: nat)
    requires s <= |t|
    ensures Concat([a] + t, s + 1) == Concat(t, s)
    decreases |t| - s
  {
    if s < |t| {
      ConcatCons(a, t, s + 1);
      assert ([a] + t)[s + 1] == t[s];
    }
  }

  /** For at least one strip the chunks tile the data: nothing is dropped
      or read twice, the last chunk taking whatever is left. */
  lemma {:induction false} EqualSplitTiles(rest: seq<byte>, left: nat)
    requires left > 0
    ensures Concat(EqualSplit(rest, left), 0) == rest
    decreases left
  {
    var k := |rest| / left;
    DivAtMost(|rest|, left);
    var t := EqualSplit(rest[k..], left - 1);
    ConcatCons(rest[..k], t, 0);
    if left == 1 {
      assert k == |rest|;
    } else {
      EqualSplitTiles(rest[k..], left - 1);
      assert rest[..k] + rest[k..] == rest;
    }
  }

  /** The chunk sizes are balanced: with `q left <= |rest| <= (q + 1) left`
      every chunk has `q` or `q + 1` bytes. */
  lemma {:induction false} EqualSplitBalanced(rest: seq<byte>, left: nat, q: nat)
    requires left > 0 && q * left <= |rest| <= (q + 1) * left
    ensures forall i :: 0 <= i < left ==> q <= |EqualSplit(rest, left)[i]| <= q + 1
    decreases left
  {
    var k := |rest| / left;
    DivAtMost(|rest|, left);
    var chunks := EqualSplit(rest, left);
    DivBetween(|rest|, left, q);
    assert |chunks[0]| == k;
    if left > 1 {
      var t := EqualSplit(rest[k..], left - 1);
      RemainderBetween(|rest|, left, q, k);
      EqualSplitBalanced(rest[k..], left - 1, q);
      forall i | 1 <= i < left
        ensures q <= |chunks[i]| <= q + 1
      {
        assert chunks[i] == t[i - 1];
      }
    }
  }

  /** `n // d` lies between `q` and `q + 1` when `n` lies between `q d`
      and `(q + 1) d`. */
  lemma DivBetween(n: nat, d: nat, q: nat)
    requires d > 0 && q * d <= n <= (q + 1) * d
    ensures q <= n / d <= q + 1
    ensures n / d == q + 1 ==> n == (q + 1) * d
  {
    var k := n / d;
    assert k * d <= n < (k + 1) * d;
    assert (k + 1 - q) * d > 0;
    PositiveFactor(k + 1 - q, d);
    assert (q + 2 - k) * d > 0;
    PositiveFactor(q + 2 - k, d);
  }

  /** A product with a positive factor is positive only when the other
      factor is. */
  lemma PositiveFactor(x: int, d: nat)
    requires d > 0 && x * d > 0
    ensures x > 0
  {
  }

  /** A quotient by a positive divisor is at most the dividend. */
  lemma DivAtMost(n: nat, d: nat)
    requires d > 0
    ensures n / d <= n
  {
    var k := n / d;
    assert k * d <= n;
    NonNegativeProduct(k, d - 1);
    assert k * d == k * (d - 1) + k;
  }

  lemma NonNegativeProduct(a: nat, b: nat)
    ensures a * b >= 0
  {
  }

  /** After a chunk of `n // d` bytes, the rest still lies between `q` and
      `q + 1` bytes per remaining strip. */
  lemma RemainderBetween(n: nat, d: nat, q: nat, k: nat)
    requires d > 1 && q * d <= n <= (q + 1) * d && k == n / d
    requires q <= k <= q + 1 && (k == q + 1 ==> n == (q + 1) * d)
    ensures q * (d - 1) <= n - k <= (q + 1) * (d - 1)
  {
    assert k * d <= n < (k + 1) * d;
    if k == q {
      assert n < (q + 1) * d;
      assert (q + 1) * d == (q + 1) * (d - 1) + q + 1;
      assert q * d == q * (d - 1) + q;
    } else {
      assert (q + 1) * d == (q + 1) * (d - 1) + (q + 1);
      assert q * d == q * (d - 1) + q;
    }
  }

  /** The blocks of the equal-split decoder: chunk `i` decoded `h` rows
      high. */
  function SplitBlocks(chunks: seq<seq<byte>>, h: nat): (blocks: seq<Strip>)
    ensures |blocks| == |chunks| && Blocks(blocks, h)
    ensures forall i :: 0 <= i < |blocks| ==> Nibbles(blocks[i])
  {
    seq(|chunks|, i requires 0 <= i < |chunks| => DecodeStripV3(chunks[i], h))
  }

  /** `decode_object_image(obim_data, width, height)` in
      decode_object_test.py: the sizes default to `DefaultWidth` and 32;
      the data after an 8-byte header (kept when the data has at most 8
      bytes) is split equally among `width // 8` strips. */
  function DecodeObjectTest(data: seq<byte>, width: Option<nat>, height: Option<nat>): (img: Image)
    ensures WellShaped(img) && Indexed(img)
    ensures img.width == (if width.Some? then width.value else DefaultWidth(|data|))
    ensures img.height == (if height.Some? then height.value else 32)
  {
    var w := if width.Some? then width.value else DefaultWidth(|data|);
    var h := if height.Some? then height.value else 32;
    var offset := if |data| > 8 then 8 else 0;
    var blocks := SplitBlocks(EqualSplit(data[offset..], w / 8), h);
    ComposeIndexed(w, h, blocks);
    Compose(w, h, blocks)
  }

  /** The equal-split decoder places chunk `i` at columns `8 i ..`; the
      chunks tile the data after the header and each has `q` or `q + 1`
      bytes, `q` being the bytes per strip rounded down. */
  lemma {:induction false} DecodeObjectTestLayout(data: seq<byte>, width: Option<nat>, height: Option<nat>)
    ensures var w := if width.Some? then width.value else DefaultWidth(|data|);
      var h := if height.Some? then height.value else 32;
      var rest := data[if |data| > 8 then 8 else 0 ..];
      var chunks := EqualSplit(rest, w / 8);
      Placed(DecodeObjectTest(data, width, height), SplitBlocks(chunks, h))
      && (w / 8 > 0 ==> Concat(chunks, 0) == rest)
      && (w / 8 > 0 ==> forall i :: 0 <= i < w / 8 ==> |rest| / (w / 8) <= |chunks[i]| <= |rest| / (w / 8) + 1)
  {
    var w := if width.Some? then width.value else DefaultWidth(|data|);
    var rest := data[if |data| > 8 then 8 else 0 ..];
    if w / 8 > 0 {
      EqualSplitFacts(rest, w / 8);
    }
  }

  /** For at least one strip the equal split tiles the data in chunks of
      `q` or `q + 1` bytes, `q` being the bytes per strip rounded down. */
  lemma {:induction false} EqualSplitFacts(rest: seq<byte>, n: nat)
    requires n > 0
    ensures Concat(EqualSplit(rest, n), 0) == rest
    ensures forall i :: 0 <= i < n ==> |rest| / n <= |EqualSplit(rest, n)[i]| <= |rest| / n + 1
  {
    EqualSplitTiles(rest, n);
    var q := |rest| / n;
    DivBounds(|rest|, n);
    EqualSplitBalanced(rest, n, q);
  }

  /** `n // d` times `d` is at most `n`, and one more `d` is above it. */
  lemma DivBounds(n: nat, d: nat)
    requires d > 0
    ensures (n / d) * d <= n < (n / d + 1) * d
  {
    assert n == (n / d) * d + n % d;
    assert (n / d + 1) * d == (n / d) * d + d;
  }
}
