/** `PaletteManager`: the 16-entry EGA palette of the engine, held as 6-bit
    channel values (0..63), the table loader, and the conversion to 8-bit
    RGBA.  The manager's one mutable field becomes a `Palette` value that
    each operation takes and returns. */
module Palette {
  import opened Bytes

  /** One palette entry, channel values as stored (not yet scaled). */
  datatype Rgb = Rgb(r: nat, g: nat, b: nat)

  /** The current palette: the manager keeps sixteen entries. */
  type Palette = seq<Rgb>

  /** An RGBA colour as `getColorRGBA` returns it. */
  datatype Rgba = Rgba(r: int, g: int, b: int, a: int)

  /** The standard EGA colours on the 0..63 scale. */
  const DefaultPalette: Palette := [
    Rgb(0, 0, 0), Rgb(0, 0, 42), Rgb(0, 42, 0), Rgb(0, 42, 42),
    Rgb(42, 0, 0), Rgb(42, 0, 42), Rgb(42, 21, 0), Rgb(42, 42, 42),
    Rgb(21, 21, 21), Rgb(21, 21, 63), Rgb(21, 63, 21), Rgb(21, 63, 63),
    Rgb(63, 21, 21), Rgb(63, 21, 63), Rgb(63, 63, 21), Rgb(63, 63, 63)]

  /** Every channel of an entry on the 6-bit scale. */
  predicate SixBit(c: Rgb)
  {
    c.r < 64 && c.g < 64 && c.b < 64
  }

  /** The default table has sixteen entries, all on the 6-bit scale, and
      no two alike. */
  lemma DefaultPaletteShape()
    ensures |DefaultPalette| == 16
    ensures forall i :: 0 <= i < 16 ==> SixBit(DefaultPalette[i])
    ensures forall i, j :: 0 <= i < j < 16 ==> DefaultPalette[i] != DefaultPalette[j]
  {
  }

  /** The constructor and `reset()`: a fresh copy of the default table. */
  function Reset(): (p: Palette)
    ensures |p| == 16 && forall i :: 0 <= i < 16 ==> SixBit(p[i]) && p[i] == DefaultPalette[i]
  {
    DefaultPalette
  }

  /** `loadPalette(data)`: 48 bytes are sixteen raw RGB triples; 16 bytes
      reorder the default table, entry `i` being default colour
      `data[i] % 16`; any other length leaves the palette as it is. */
  function LoadPalette(p: Palette, data: seq<byte>): (q: Palette)
    ensures |data| == 48 ==> |q| == 16 && forall i :: 0 <= i < 16 ==> q[i] == Rgb(data[3 * i], data[3 * i + 1], data[3 * i + 2])
    ensures |data| == 16 ==> |q| == 16 && forall i :: 0 <= i < 16 ==> q[i] == DefaultPalette[data[i] % 16]
    ensures |data| != 48 && |data| != 16 ==> q == p
  {
    if |data| == 48 then
      seq(16, i requires 0 <= i < 16 => Rgb(data[3 * i], data[3 * i + 1], data[3 * i + 2]))
    else if |data| == 16 then
      seq(16, i requires 0 <= i < 16 => DefaultPalette[data[i] % 16])
    else p
  }

  /** A loaded palette always has sixteen entries when the old one had. */
  lemma LoadKeepsSixteen(p: Palette, data: seq<byte>)
    requires |p| == 16
    ensures |LoadPalette(p, data)| == 16
  {
  }

  /** Every channel of an entry fits a byte. */
  predicate EightBit(c: Rgb)
  {
    c.r < 256 && c.g < 256 && c.b < 256
  }

  /** The 48-byte form of a palette: its channels in entry order. */
  function Serialize(p: Palette): (data: seq<byte>)
    requires forall i :: 0 <= i < |p| ==> EightBit(p[i])
    ensures |data| == 3 * |p|
    ensures forall i :: 0 <= i < |p| ==> data[3 * i] == p[i].r && data[3 * i + 1] == p[i].g && data[3 * i + 2] == p[i].b
  {
    if |p| == 0 then []
    else
      assert EightBit(p[0]);
      var rest := Serialize(p[1..]);
      var data := [p[0].r as byte, p[0].g as byte, p[0].b as byte] + rest;
      assert forall i :: 1 <= i < |p| ==> data[3 * i] == rest[3 * (i - 1)];
      data
  }

  /** Loading the 48-byte form of a 16-colour palette restores it,
      whatever palette was current before. */
  lemma {:induction false} LoadSerializedRoundTrip(old_: Palette, p: Palette)
    requires |p| == 16 && forall i :: 0 <= i < 16 ==> EightBit(p[i])
    ensures LoadPalette(old_, Serialize(p)) == p
  {
    var q := LoadPalette(old_, Serialize(p));
    assert forall i :: 0 <= i < 16 ==> q[i] == p[i];
  }

  /** The identity index table `0, 1, .., 15` loads the default palette. */
  lemma {:induction false} IdentityTableLoadsDefault(old_: Palette)
    ensures LoadPalette(old_, IdentityTable()) == DefaultPalette
  {
    var data := IdentityTable();
    var q := LoadPalette(old_, data);
    assert |q| == 16 == |DefaultPalette|;
    forall i | 0 <= i < 16
      ensures q[i] == DefaultPalette[i]
    {
      IdentityEntry(old_, i);
    }
  }

  lemma IdentityEntry(old_: Palette, i: nat)
    requires i < 16
    ensures LoadPalette(old_, IdentityTable())[i] == DefaultPalette[i]
  {
    var data := IdentityTable();
    assert data[i] % 16 == i;
  }

  /** The index table that names every default colour once, in order. */
  function IdentityTable(): (data: seq<byte>)
    ensures |data| == 16 && forall i :: 0 <= i < 16 ==> data[i] == i
  {
    seq(16, i requires 0 <= i < 16 => i)
  }

  /** `egaToRgb(v)`: `floor(v * 255 / 63)`, the largest value whose
      product with 63 stays at most `v * 255`. */
  function EgaToRgb(v: nat): (c: nat)
    ensures 63 * c <= 255 * v < 63 * (c + 1)
  {
    255 * v / 63
  }

  /** The scale maps 0 to 0 and 63 to 255, keeps the 6-bit range inside
      0..255, and has no clamp: 64 and above leave it. */
  lemma EgaToRgbRange(v: nat)
    ensures EgaToRgb(0) == 0 && EgaToRgb(63) == 255
    ensures v < 64 <==> EgaToRgb(v) < 256
  {
  }

  /** The scale is strictly increasing, so distinct 6-bit levels stay
      distinct. */
  lemma {:induction false} EgaToRgbIncreasing(u: nat, v: nat)
    requires u < v
    ensures EgaToRgb(u) < EgaToRgb(v)
  {
    var cu, cv := EgaToRgb(u), EgaToRgb(v);
    assert 63 * cu <= 255 * u;
    assert 255 * v < 63 * (cv + 1);
    assert 255 * u + 255 <= 255 * v;
  }

  /** `index % 16` as JavaScript computes it: the sign of the dividend. */
  function JsMod16(index: int): (m: int)
    ensures -16 < m < 16 && (m == 0 || (m < 0 <==> index < 0))
    ensures (index - m) % 16 == 0
  {
    if index >= 0 then index % 16 else -((-index) % 16)
  }

  /** `getColorRGBA(index)`: entry `index % 16` with each channel scaled
      and alpha 255.  A negative index with a non-zero remainder selects
      no entry and reading its channels throws, modelled as `None`. */
  function GetColorRgba(p: Palette, index: int): (c: Option<Rgba>)
    requires |p| == 16
    ensures c.None? <==> JsMod16(index) < 0
    ensures c.Some? ==> c.value.a == 255
    ensures c.Some? ==> var e := p[JsMod16(index)];
      c.value == Rgba(EgaToRgb(e.r), EgaToRgb(e.g), EgaToRgb(e.b), 255)
  {
    var m := JsMod16(index);
    if m < 0 then None
    else
      var e := p[m];
      Some(Rgba(EgaToRgb(e.r), EgaToRgb(e.g), EgaToRgb(e.b), 255))
  }

  /** Colour indices repeat every 16, and on a palette of 6-bit levels
      every channel of every colour is in 0..255. */
  lemma GetColorRgbaPeriodic(p: Palette, index: nat)
    requires |p| == 16
    ensures GetColorRgba(p, index + 16) == GetColorRgba(p, index)
    ensures (forall i :: 0 <= i < 16 ==> SixBit(p[i])) ==>
      var c := GetColorRgba(p, index).value;
      0 <= c.r < 256 && 0 <= c.g < 256 && 0 <= c.b < 256
  {
    var e := p[index % 16];
    if SixBit(e) {
      EgaToRgbRange(e.r);
      EgaToRgbRange(e.g);
      EgaToRgbRange(e.b);
    }
  }

  /** A 48-byte table with a byte above 63 yields a channel above 255:
      `Rgb(64, 0, 0)` becomes red 259. */
  lemma RawTableEscapesRange()
    ensures var data := [64 as byte] + seq(47, i => 0 as byte);
      GetColorRgba(LoadPalette(DefaultPalette, data), 0) == Some(Rgba(259, 0, 0, 255))
  {
    var data := [64 as byte] + seq(47, i => 0 as byte);
    var q := LoadPalette(DefaultPalette, data);
    assert q[0] == Rgb(64, 0, 0);
  }
}
