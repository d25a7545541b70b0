/** The strips an offset table points at.  Every table-driven reader cuts
    strip `i` as `data[offs[i] : offs[i + 1]]` (the last one up to the end
    of the data), decodes it into an 8-column block and copies block `i`
    to columns `8 * i .. 8 * i + 7` of a zero image.  The Python readers
    decode with `decode_strip_ega`, which yields the same block as
    `decodeStripV3` (`EgaStrip.DecodeStripEgaIsDecodeStripV3`), so all of
    them share `TableBlocks`. */
module StripTable {
  import opened Bytes
  import opened EgaStrip
  import opened Canvas

  /** Every offset lies inside `n` bytes of data. */
  predicate InData(offs: seq<nat>, n: nat)
  {
    forall k :: 0 <= k < |offs| ==> offs[k] < n
  }

  /** Where strip `i` ends: at the next offset, or at the end of the data
      for the last strip. */
  function StripEnd(offs: seq<nat>, i: nat, n: nat): (e: nat)
    requires i < |offs|
    ensures InData(offs, n) ==> e <= n
  {
    if i + 1 < |offs| then offs[i + 1] else n
  }

  /** The bytes of strip `i`; empty when the next offset is not above this
      one. */
  function StripBytes(data: seq<byte>, offs: seq<nat>, i: nat): (s: seq<byte>)
    requires InData(offs, |data|) && i < |offs|
    ensures offs[i] <= StripEnd(offs, i, |data|) ==> s == data[offs[i] .. StripEnd(offs, i, |data|)]
    ensures StripEnd(offs, i, |data|) < offs[i] ==> s == []
  {
    Slice(data, offs[i], StripEnd(offs, i, |data|))
  }

  /** The blocks of the first `n` strips, decoded `h` rows high. */
  function TableBlocks(data: seq<byte>, offs: seq<nat>, n: nat, h: nat): (blocks: seq<Strip>)
    requires InData(offs, |data|) && n <= |offs|
    ensures |blocks| == n && Blocks(blocks, h)
    ensures forall i :: 0 <= i < n ==> Nibbles(blocks[i])
  {
    seq(n, i requires 0 <= i < n => DecodeStripV3(StripBytes(data, offs, i), h))
  }

  /** The first `n` strips placed in a zero image `w` by `h`. */
  function TableImage(data: seq<byte>, offs: seq<nat>, n: nat, w: nat, h: nat): (img: Image)
    requires InData(offs, |data|) && n <= |offs| && 8 * n <= w
    ensures WellShaped(img) && Indexed(img) && img.width == w && img.height == h
    ensures Placed(img, TableBlocks(data, offs, n, h))
  {
    ComposeIndexed(w, h, TableBlocks(data, offs, n, h));
    Compose(w, h, TableBlocks(data, offs, n, h))
  }

  /** How many strips a reader with a declared width draws:
      `min(N, width // 8)`, the strips that fit the width whole. */
  function Shown(n: nat, w: nat): (m: nat)
    ensures m <= n && 8 * m <= w
    ensures m == n || m == w / 8
  {
    if n <= w / 8 then n else w / 8
  }

  /** The strips from `i` on, end to end. */
  function Joined(data: seq<byte>, offs: seq<nat>, i: nat): (s: seq<byte>)
    requires InData(offs, |data|) && i <= |offs|
    decreases |offs| - i
  {
    if i == |offs| then [] else StripBytes(data, offs, i) + Joined(data, offs, i + 1)
  }

  /** With strictly increasing offsets the strips tile the data from the
      first offset to the end: no byte is skipped or read twice. */
  lemma {:induction false} StripsTile(data: seq<byte>, offs: seq<nat>, i: nat)
    requires InData(offs, |data|) && Increasing(offs) && i < |offs|
    ensures Joined(data, offs, i) == data[offs[i] ..]
    decreases |offs| - i
  {
    if i + 1 == |offs| {
      assert Joined(data, offs, i + 1) == [];
    } else {
      StripsTile(data, offs, i + 1);
      assert offs[i] < offs[i + 1];
      assert data[offs[i] .. offs[i + 1]] + data[offs[i + 1] ..] == data[offs[i] ..];
    }
  }
}
