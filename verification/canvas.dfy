/** Decoded images: a width, a height and one row of palette indices per
    pixel row (the source's flat `width * height` buffers, indexed
    `y * width + x`, are the rows laid end to end).  Strip decoders place
    8-column blocks side by side. */
module Canvas {
  import opened EgaStrip

  datatype Image = Image(width: nat, height: nat, rows: seq<seq<int>>)

  predicate WellShaped(img: Image)
  {
    |img.rows| == img.height && forall y :: 0 <= y < img.height ==> |img.rows[y]| == img.width
  }

  /** Every pixel is a 4-bit palette index. */
  predicate Indexed(img: Image)
  {
    Nibbles(img.rows)
  }

  /** A zero-filled buffer (`new Uint8Array(width * height)`). */
  function Zero(w: nat, h: nat): (img: Image)
    ensures WellShaped(img) && Indexed(img) && img.width == w && img.height == h
    ensures forall y, x :: 0 <= y < h && 0 <= x < w ==> img.rows[y][x] == 0
  {
    Image(w, h, seq(h, _ => seq(w, _ => 0)))
  }

  /** The copy of one decoded block into columns `x0 .. x0 + 7`. */
  function Blit(img: Image, x0: nat, block: Strip): (r: Image)
    requires WellShaped(img) && IsStrip(block, img.height) && x0 + 8 <= img.width
    ensures WellShaped(r) && r.width == img.width && r.height == img.height
    ensures forall y, x :: 0 <= y < img.height && 0 <= x < img.width ==>
      r.rows[y][x] == if x0 <= x < x0 + 8 then block[y][x - x0] else img.rows[y][x]
  {
    Image(img.width, img.height,
      seq(img.height, y requires 0 <= y < img.height =>
        seq(img.width, x requires 0 <= x < img.width =>
          if x0 <= x < x0 + 8 then block[y][x - x0] else img.rows[y][x])))
  }

  predicate Blocks(blocks: seq<Strip>, h: nat)
  {
    forall i :: 0 <= i < |blocks| ==> IsStrip(blocks[i], h)
  }

  /** Blocks `0 .. n - 1` copied, in order, into a zero image of `w` by `h`:
      block `i` lands on columns `8 * i .. 8 * i + 7` and every column to the
      right of the last block stays 0. */
  function Compose(w: nat, h: nat, blocks: seq<Strip>): (img: Image)
    requires Blocks(blocks, h) && 8 * |blocks| <= w
    ensures WellShaped(img) && img.width == w && img.height == h
    ensures Placed(img, blocks)
  {
    if |blocks| == 0 then Zero(w, h)
    else
      var n := |blocks| - 1;
      var prev := Compose(w, h, blocks[..n]);
      BlitPlaces(prev, blocks);
      Blit(prev, 8 * n, blocks[n])
  }

  /** Column `x` of `img` shows column `x % 8` of block `x / 8`, or 0 right
      of the last block. */
  predicate Placed(img: Image, blocks: seq<Strip>)
    requires WellShaped(img) && Blocks(blocks, img.height) && 8 * |blocks| <= img.width
  {
    forall y, x :: 0 <= y < img.height && 0 <= x < img.width ==> img.rows[y][x] == BlockPixel(blocks, y, x)
  }

  function BlockPixel(blocks: seq<Strip>, y: nat, x: nat): int
    requires forall i :: 0 <= i < |blocks| ==> y < |blocks[i]| && |blocks[i][y]| == 8
  {
    if x < 8 * |blocks| then blocks[x / 8][y][x % 8] else 0
  }

  lemma BlitPlaces(prev: Image, blocks: seq<Strip>)
    requires |blocks| > 0 && WellShaped(prev) && Blocks(blocks, prev.height) && 8 * |blocks| <= prev.width
    requires Placed(prev, blocks[..|blocks| - 1])
    ensures Placed(Blit(prev, 8 * (|blocks| - 1), blocks[|blocks| - 1]), blocks)
  {
    var n := |blocks| - 1;
    var r := Blit(prev, 8 * n, blocks[n]);
    assert |blocks[..n]| == n;
    forall y, x | 0 <= y < prev.height && 0 <= x < prev.width
      ensures r.rows[y][x] == BlockPixel(blocks, y, x)
    {
      assert r.rows[y][x] == if 8 * n <= x < 8 * n + 8 then blocks[n][y][x - 8 * n] else prev.rows[y][x];
      if x < 8 * n {
        assert 0 <= x / 8 < n;
        assert blocks[..n][x / 8] == blocks[x / 8];
        assert prev.rows[y][x] == BlockPixel(blocks[..n], y, x);
      } else if x < 8 * |blocks| {
        assert x / 8 == n && x % 8 == x - 8 * n;
      } else {
        assert prev.rows[y][x] == BlockPixel(blocks[..n], y, x);
      }
    }
  }

  lemma ComposeIndexed(w: nat, h: nat, blocks: seq<Strip>)
    requires Blocks(blocks, h) && 8 * |blocks| <= w
    requires forall i :: 0 <= i < |blocks| ==> Nibbles(blocks[i])
    ensures Indexed(Compose(w, h, blocks))
  {
    var img := Compose(w, h, blocks);
    forall y, x | 0 <= y < |img.rows| && 0 <= x < |img.rows[y]|
      ensures 0 <= img.rows[y][x] < 16
    {
      assert y < h && x < w;
      assert Placed(img, blocks);
      if x < 8 * |blocks| {
        assert 0 <= x / 8 < |blocks| && 0 <= x % 8 < 8;
        var b := blocks[x / 8];
        assert Nibbles(b) && IsStrip(b, h);
        assert img.rows[y][x] == b[y][x % 8];
      }
    }
  }
}
