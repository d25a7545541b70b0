/** The sound helpers: wrapping raw Roland MT-32 event data in a Standard
    MIDI File (`create_standard_midi` in convert_to_standard_midi.py and
    `create_midi_header` in convert_sounds_to_midi.py), the ScummVM `RO`
    tag, and the byte statistics of `analyze_roland_data`.  The file layout
    is that of the Standard MIDI File 1.0 specification: a header chunk
    `MThd` of length 6 (format, track count, division), then one track
    chunk `MTrk` whose events end with the End-of-Track meta event
    `FF 2F 00`. */
module Midi {
  import opened Bytes

  /** The chunk tags. */
  const MThd: seq<byte> := [0x4D, 0x54, 0x68, 0x64]
  const MTrk: seq<byte> := [0x4D, 0x54, 0x72, 0x6B]

  /** Delta time 0 followed by the End-of-Track meta event. */
  const EndOfTrack: seq<byte> := [0x00, 0xFF, 0x2F, 0x00]

  /** Ticks per quarter note written into every header. */
  const Division: nat := 480

  /** The tags spell "MThd" and "MTrk" in ASCII. */
  lemma ChunkTagsAreAscii()
    ensures MThd == Ascii("MThd") && MTrk == Ascii("MTrk")
  {
  }

  /** `struct.pack('>I', n)` raises `struct.error` from 2^32 on. */
  predicate FitsU32(n: nat)
  {
    n < 0x1_0000_0000
  }

  /** The 14-byte header chunk: `MThd`, length 6, format 0, one track,
      480 ticks per quarter note. */
  function HeaderChunk(): (b: seq<byte>)
    ensures |b| == 14 && b[..4] == MThd && Be32Value(b[4..8]) == 6
    ensures b[8..10] == [0, 0] && b[10..12] == [0, 1] && 256 * b[12] as int + b[13] as int == Division
  {
    MThd + Be32(6) + Be16(0) + Be16(1) + Be16(Division)
  }

  /** `create_standard_midi(roland_data)`: the header chunk, then one
      track holding the data followed by End-of-Track; `None` when the
      track length does not fit the 32-bit length field. */
  function CreateStandardMidi(data: seq<byte>): (r: Option<seq<byte>>)
    ensures r.Some? <==> FitsU32(|data| + 4)
    ensures r.Some? ==> |r.value| == |data| + 26
    ensures r.Some? ==> r.value[..14] == HeaderChunk() && r.value[14..18] == MTrk
    ensures r.Some? ==> Be32Value(r.value[18..22]) == |data| + 4
    ensures r.Some? ==> r.value[22..22 + |data|] == data && r.value[22 + |data|..] == EndOfTrack
  {
    if !FitsU32(|data| + 4) then None
    else
      var out := HeaderChunk() + MTrk + Be32(|data| + 4) + (data + EndOfTrack);
      assert out[..14] == HeaderChunk();
      assert out[14..18] == MTrk;
      assert out[18..22] == Be32(|data| + 4);
      assert out[22..] == data + EndOfTrack;
      Some(out)
  }

  /** `create_midi_header(track_data)`: the header chunk and the track
      chunk's tag and length, without the track itself. */
  function CreateMidiHeader(track: seq<byte>): (r: Option<seq<byte>>)
    ensures r.Some? <==> FitsU32(|track|)
    ensures r.Some? ==> |r.value| == 22 && r.value[..14] == HeaderChunk() && r.value[14..18] == MTrk
    ensures r.Some? ==> Be32Value(r.value[18..]) == |track|
  {
    if !FitsU32(|track|) then None
    else
      var out := HeaderChunk() + MTrk + Be32(|track|);
      assert out[..14] == HeaderChunk();
      assert out[14..18] == MTrk;
      assert out[18..] == Be32(|track|);
      Some(out)
  }

  /** The header of `create_midi_header` followed by the track gives the
      file of `create_standard_midi` once the track ends with
      End-of-Track. */
  lemma HeaderThenTrackIsStandardMidi(data: seq<byte>)
    requires FitsU32(|data| + 4)
    ensures CreateMidiHeader(data + EndOfTrack).value + (data + EndOfTrack) == CreateStandardMidi(data).value
  {
  }

  /** A reader of the files written here: a valid header chunk and one
      track chunk whose length field covers exactly the rest of the file
      and whose events end with End-of-Track; the events before it. */
  function ReadStandardMidi(file: seq<byte>): (r: Option<seq<byte>>)
    ensures r.Some? ==> |file| == |r.value| + 26 && file[22 + |r.value|..] == EndOfTrack
  {
    if |file| < 26 || file[..14] != HeaderChunk() || file[14..18] != MTrk then None
    else if Be32Value(file[18..22]) != |file| - 22 || file[|file| - 4..] != EndOfTrack then None
    else Some(file[22..|file| - 4])
  }

  /** Every file `create_standard_midi` writes reads back as its input. */
  lemma StandardMidiRoundTrip(data: seq<byte>)
    requires FitsU32(|data| + 4)
    ensures ReadStandardMidi(CreateStandardMidi(data).value) == Some(data)
  {
    var file := CreateStandardMidi(data).value;
    assert file[|file| - 4..] == file[22 + |data|..];
    assert file[22..|file| - 4] == file[22..22 + |data|];
  }

  /** The length of the track chunk is always four more than the data, so
      the header alone tells how many event bytes the file holds. */
  lemma TrackLengthCountsEndOfTrack(data: seq<byte>)
    requires FitsU32(|data| + 4)
    ensures Be32Value(CreateStandardMidi(data).value[18..22]) == |CreateStandardMidi(data).value| - 22
  {
  }

  // ---------------------------------------------------------------------
  // The RO tag

  const RoTag: seq<byte> := [0x52, 0x4F]

  /** `add_ro_tag(roland_data)`: the two bytes "RO" in front. */
  function AddRoTag(data: seq<byte>): (r: seq<byte>)
    ensures |r| == |data| + 2 && r[..2] == RoTag && r[2..] == data
  {
    RoTag + data
  }

  /** What a reader of `.ro` files sees: the data after the tag, or
      nothing for a file without one. */
  function StripRoTag(file: seq<byte>): (r: Option<seq<byte>>)
    ensures r.Some? <==> |file| >= 2 && file[..2] == RoTag
    ensures r.Some? ==> |r.value| + 2 == |file|
  {
    if |file| >= 2 && file[..2] == RoTag then Some(file[2..]) else None
  }

  /** Tagging is undone by stripping the tag. */
  lemma RoTagRoundTrip(data: seq<byte>)
    ensures StripRoTag(AddRoTag(data)) == Some(data)
  {
  }

  /** A tagged file is one `add_ro_tag` could have written: it is the tag
      on the stripped data. */
  lemma StripRoTagInverse(file: seq<byte>)
    requires StripRoTag(file).Some?
    ensures AddRoTag(StripRoTag(file).value) == file
  {
  }

  // ---------------------------------------------------------------------
  // Byte statistics

  /** The statistics `analyze_roland_data` reports; `preview` holds the
      bytes the hex text is made of (at most the first 32). */
  datatype RolandStats =
    | NoStats
    | Stats(size: nat, preview: seq<byte>, uniqueBytes: nat, nullCount: nat, highBitCount: nat)

  /** The set of values that occur in the data (`set(roland_data)`). */
  function Values(data: seq<byte>): set<byte>
  {
    set k | 0 <= k < |data| :: data[k]
  }

  /** Number of bytes at or above 0x80. */
  function CountHigh(data: seq<byte>): (n: nat)
    ensures n <= |data|
  {
    if |data| == 0 then 0 else CountHigh(data[..|data| - 1]) + (if data[|data| - 1] >= 0x80 then 1 else 0)
  }

  /** `analyze_roland_data(roland_data)`: nothing for empty data, else
      the size, the first 32 bytes, the number of distinct values, of
      zero bytes and of bytes with the high bit set. */
  function AnalyzeRolandData(data: seq<byte>): (r: RolandStats)
    ensures r == NoStats <==> |data| == 0
    ensures r.Stats? ==> r.size == |data| && r.uniqueBytes == |Values(data)|
    ensures r.Stats? ==> r.preview == data[..Min(32, |data|)]
    ensures r.Stats? ==> r.nullCount == CountZero(data) && r.highBitCount == CountHigh(data)
  {
    if |data| == 0 then NoStats
    else Stats(|data|, data[..Min(32, |data|)], |Values(data)|, CountZero(data), CountHigh(data))
  }

  /** The counts are consistent: a zero byte has no high bit, so nulls and
      high bytes together are at most the size, and there are between one
      and `min(size, 256)` distinct values. */
  lemma RolandStatsBounds(data: seq<byte>)
    requires |data| > 0
    ensures var r := AnalyzeRolandData(data);
      r.nullCount + r.highBitCount <= r.size
      && 1 <= r.uniqueBytes <= r.size && r.uniqueBytes <= 256
  {
    ZeroAndHighDisjoint(data);
    ValuesAtMostLength(data);
    ValuesAtMost256(data);
    assert data[0] in Values(data);
  }

  lemma {:induction false} ZeroAndHighDisjoint(data: seq<byte>)
    ensures CountZero(data) + CountHigh(data) <= |data|
  {
    if |data| > 0 {
      ZeroAndHighDisjoint(data[..|data| - 1]);
    }
  }

  /** No more distinct values than bytes. */
  lemma {:induction false} ValuesAtMostLength(data: seq<byte>)
    ensures |Values(data)| <= |data|
  {
    if |data| > 0 {
      var init := data[..|data| - 1];
      ValuesAtMostLength(init);
      assert Values(data) == Values(init) + {data[|data| - 1]};
    }
  }

  /** No more distinct values than there are byte values. */
  lemma ValuesAtMost256(data: seq<byte>)
    ensures |Values(data)| <= 256
  {
    RangeSize(256);
    forall b | b in Values(data)
      ensures b in Range(256)
    {
      InRange(256, b);
    }
    SubsetSize(Values(data), Range(256));
  }

  /** The byte values below `n`. */
  function Range(n: nat): set<byte>
    requires n <= 256
  {
    if n == 0 then {} else Range(n - 1) + {n - 1}
  }

  lemma {:induction false} InRange(n: nat, b: byte)
    requires n <= 256
    ensures b in Range(n) <==> b < n
  {
    if n > 0 {
      InRange(n - 1, b);
    }
  }

  lemma {:induction false} RangeSize(n: nat)
    requires n <= 256
    ensures |Range(n)| == n
  {
    if n > 0 {
      RangeSize(n - 1);
      InRange(n - 1, n - 1);
    }
  }

  lemma {:induction false} SubsetSize(a: set<byte>, b: set<byte>)
    requires a <= b
    ensures |a| <= |b|
    decreases |b|
  {
    if a != {} {
      var x :| x in a;
      SubsetSize(a - {x}, b - {x});
    }
  }
}
