/** Four-bitplane images: `planarToChunky` and the planar fallback of
    `decodeObjectImage`.  Plane `p` holds bit `p` of every pixel's palette
    index; in each plane byte the leftmost pixel is the most significant
    bit. */
module Planar {
  import opened Bytes
  import opened Bits
  import opened Canvas

  /** Bit `k` of byte `idx` of a plane; a read past the end of the plane
      (`undefined` in JavaScript) shifts to 0. */
  function PlaneBit(plane: seq<byte>, idx: nat, k: nat): (b: nat)
    requires k < 8
    ensures IsBit(b)
  {
    if idx < |plane| then Bit(plane[idx], k) else 0
  }

  /** The palette index at (`x`, `y`) of a planar image whose lines are
      `bpl` bytes apart, reading byte `byteIndex` of each plane. */
  function PlanarPixel(p0: seq<byte>, p1: seq<byte>, p2: seq<byte>, p3: seq<byte>, byteIndex: nat, x: nat): (c: nat)
    ensures c < 16
  {
    var k := 7 - x % 8;
    Combine(PlaneBit(p0, byteIndex, k), PlaneBit(p1, byteIndex, k), PlaneBit(p2, byteIndex, k), PlaneBit(p3, byteIndex, k))
  }

  /** `ScummV3Decoder.planarToChunky`.  `bytesPerLine = width / 8` is a
      JavaScript division: when `y * width` is not a multiple of 8 the byte
      index has a fraction, every plane read is `undefined` and the pixel
      is 0. */
  function PlanarToChunky(p0: seq<byte>, p1: seq<byte>, p2: seq<byte>, p3: seq<byte>, w: nat, h: nat): (img: Image)
    ensures WellShaped(img) && Indexed(img) && img.width == w && img.height == h
  {
    Image(w, h, seq(h, y requires 0 <= y < h => seq(w, x requires 0 <= x < w => ChunkyPixel(p0, p1, p2, p3, w, y, x))))
  }

  function ChunkyPixel(p0: seq<byte>, p1: seq<byte>, p2: seq<byte>, p3: seq<byte>, w: nat, y: nat, x: nat): (c: nat)
    ensures c < 16
  {
    if (y * w) % 8 == 0 then PlanarPixel(p0, p1, p2, p3, (y * w) / 8 + x / 8, x) else 0
  }

  /** The fallback image size chosen from the data length. */
  function FallbackSize(n: nat): (wh: (nat, nat))
    ensures wh.0 % 8 == 0 && wh.0 > 0 && wh.1 > 0
    ensures n < 5000 ==> wh == (160, 64)
    ensures 5000 <= n < 15000 ==> wh == (160, 128)
    ensures 15000 <= n < 25000 ==> wh == (160, 144)
    ensures 25000 <= n ==> wh == (320, 200)
  {
    if n < 5000 then (160, 64)
    else if n < 15000 then (160, 128)
    else if n < 25000 then (160, 144)
    else (320, 200)
  }

  /** The palette index the fallback decoder writes at (`x`, `y`): the data
      is read as four planes of `|data| / 4` bytes, lines `bpl` bytes
      apart. */
  function FallbackPixel(data: seq<byte>, bpl: nat, y: nat, x: nat): (c: nat)
    ensures c < 16
  {
    FallbackAt(data, y * bpl + x / 8, 7 - x % 8)
  }

  /** Bit `k` of byte `bi` of each plane combined; a byte index outside the
      first plane leaves the pixel 0, and each plane byte is read only if it
      lies inside the data. */
  function FallbackAt(data: seq<byte>, bi: nat, k: nat): (c: nat)
    requires k < 8
    ensures c < 16
  {
    var ps := |data| / 4;
    if bi < ps then
      (if bi < |data| then Bit(data[bi], k) else 0)
      + 2 * (if ps + bi < |data| then Bit(data[ps + bi], k) else 0)
      + 4 * (if 2 * ps + bi < |data| then Bit(data[2 * ps + bi], k) else 0)
      + 8 * (if 3 * ps + bi < |data| then Bit(data[3 * ps + bi], k) else 0)
    else 0
  }

  /** `ScummV3Decoder.decodeFallback`. */
  function DecodeFallback(data: seq<byte>): (img: Image)
    ensures WellShaped(img) && Indexed(img)
    ensures (img.width, img.height) == FallbackSize(|data|)
  {
    var (w, h) := FallbackSize(|data|);
    var bpl := (w + 7) / 8;
    Image(w, h, seq(h, y requires 0 <= y < h => seq(w, x requires 0 <= x < w => FallbackPixel(data, bpl, y, x))))
  }

  /** Plane `p` of the fallback layout. */
  function FallbackPlane(data: seq<byte>, p: nat): (plane: seq<byte>)
    requires p < 4
    ensures |plane| == |data| / 4
  {
    data[p * (|data| / 4) .. (p + 1) * (|data| / 4)]
  }

  lemma FallbackPixelIsPlanar(data: seq<byte>, w: nat, y: nat, x: nat)
    requires w % 8 == 0 && x < w
    ensures FallbackPixel(data, (w + 7) / 8, y, x)
      == ChunkyPixel(FallbackPlane(data, 0), FallbackPlane(data, 1), FallbackPlane(data, 2), FallbackPlane(data, 3), w, y, x)
  {
    var q := w / 8;
    assert (w + 7) / 8 == q;
    MulDiv8(y, w, q);
    FallbackAtIsPlanar(data, y * q + x / 8, x);
  }

  lemma FallbackAtIsPlanar(data: seq<byte>, bi: nat, x: nat)
    ensures FallbackAt(data, bi, 7 - x % 8)
      == PlanarPixel(FallbackPlane(data, 0), FallbackPlane(data, 1), FallbackPlane(data, 2), FallbackPlane(data, 3), bi, x)
  {
    var ps := |data| / 4;
    var k := 7 - x % 8;
    var p0, p1, p2, p3 := FallbackPlane(data, 0), FallbackPlane(data, 1), FallbackPlane(data, 2), FallbackPlane(data, 3);
    if bi < ps {
      assert 3 * ps + bi < 4 * ps <= |data|;
      assert p0[bi] == data[bi] && p1[bi] == data[ps + bi] && p2[bi] == data[2 * ps + bi] && p3[bi] == data[3 * ps + bi];
    } else {
      assert PlaneBit(p0, bi, k) == 0 && PlaneBit(p1, bi, k) == 0 && PlaneBit(p2, bi, k) == 0 && PlaneBit(p3, bi, k) == 0;
    }
  }

  lemma MulDiv8(y: nat, w: nat, q: nat)
    requires w == 8 * q
    ensures (y * w) % 8 == 0 && (y * w) / 8 == y * q
  {
    assert y * w == 8 * (y * q);
  }

  /** The fallback decoder is `planarToChunky` applied to the four quarters
      of the data; its explicit in-range test on each plane byte never
      fails. */
  lemma FallbackIsPlanarToChunky(data: seq<byte>)
    ensures var (w, h) := FallbackSize(|data|);
      DecodeFallback(data)
      == PlanarToChunky(FallbackPlane(data, 0), FallbackPlane(data, 1), FallbackPlane(data, 2), FallbackPlane(data, 3), w, h)
  {
    var (w, h) := FallbackSize(|data|);
    var a := DecodeFallback(data);
    var b := PlanarToChunky(FallbackPlane(data, 0), FallbackPlane(data, 1), FallbackPlane(data, 2), FallbackPlane(data, 3), w, h);
    forall y | 0 <= y < h
      ensures a.rows[y] == b.rows[y]
    {
      FallbackRowIsPlanar(data, y);
    }
  }

  /** Row `y` of the fallback image is row `y` of the planar image. */
  lemma FallbackRowIsPlanar(data: seq<byte>, y: nat)
    requires y < FallbackSize(|data|).1
    ensures var (w, h) := FallbackSize(|data|);
      DecodeFallback(data).rows[y]
      == PlanarToChunky(FallbackPlane(data, 0), FallbackPlane(data, 1), FallbackPlane(data, 2), FallbackPlane(data, 3), w, h).rows[y]
  {
    var (w, h) := FallbackSize(|data|);
    var a := DecodeFallback(data).rows[y];
    var b := PlanarToChunky(FallbackPlane(data, 0), FallbackPlane(data, 1), FallbackPlane(data, 2), FallbackPlane(data, 3), w, h).rows[y];
    forall x | 0 <= x < w
      ensures a[x] == b[x]
    {
      FallbackPixelIsPlanar(data, w, y, x);
    }
  }
}
