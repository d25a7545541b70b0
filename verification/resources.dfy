/** `extract_all_resources` and `create_resources_json` of
    decode_all_resources_complete.py (and the counting of
    decode_all_resources_fixed.py): the room's resource table at byte
    0x0A, its entries grouped by the offset they share, each group cut out
    up to the next offset and classified by its first index, its size and
    how many of its first 100 bytes are non-zero. */
module Resources {
  import opened Bytes

  /** Where the resource table starts and how many words it holds at most. */
  const ResourceTableStart: nat := 0x0A
  const MaxResources: nat := 50

  /** The table: the words from `pos` on, at most `n`, until a zero word
      or the end of the data.  Offsets are not checked against the data. */
  function TableWords(data: seq<byte>, pos: nat, n: nat): (ws: seq<nat>)
    decreases n
    ensures |ws| <= n
  {
    if n == 0 || pos + 1 >= |data| || U16(data, pos) == 0 then []
    else [U16(data, pos)] + TableWords(data, pos + 2, n - 1)
  }

  /** Entry `i` of the table is the non-zero word `i`. */
  lemma {:induction false} TableWordsReads(data: seq<byte>, pos: nat, n: nat)
    decreases n
    ensures var ws := TableWords(data, pos, n);
      forall i :: 0 <= i < |ws| ==> pos + 2 * i + 1 < |data| && ws[i] == U16(data, pos + 2 * i) && ws[i] != 0
  {
    if !(n == 0 || pos + 1 >= |data| || U16(data, pos) == 0) {
      var rest := TableWords(data, pos + 2, n - 1);
      var ws := TableWords(data, pos, n);
      TableWordsReads(data, pos + 2, n - 1);
      assert ws == [U16(data, pos)] + rest;
      forall i | 1 <= i < |ws|
        ensures pos + 2 * i + 1 < |data| && ws[i] == U16(data, pos + 2 * i) && ws[i] != 0
      {
        assert ws[i] == rest[i - 1] && pos + 2 * i == pos + 2 + 2 * (i - 1);
      }
    }
  }

  /** A table shorter than `n` ends at a zero word or at the end of the
      data. */
  lemma {:induction false} TableWordsEnds(data: seq<byte>, pos: nat, n: nat)
    decreases n
    ensures var ws := TableWords(data, pos, n);
      |ws| < n ==> pos + 2 * |ws| + 1 >= |data| || U16(data, pos + 2 * |ws|) == 0
  {
    if !(n == 0 || pos + 1 >= |data| || U16(data, pos) == 0) {
      var rest := TableWords(data, pos + 2, n - 1);
      TableWordsEnds(data, pos + 2, n - 1);
      assert |TableWords(data, pos, n)| == |rest| + 1;
      assert pos + 2 * (|rest| + 1) == pos + 2 + 2 * |rest|;
    }
  }

  /** The resource offsets, entry `i` being resource index `i`. */
  function ResourceOffsets(data: seq<byte>): (offs: seq<nat>)
    ensures |offs| <= MaxResources
  {
    TableWords(data, ResourceTableStart, MaxResources)
  }

  // ---------------------------------------------------------------------
  // Grouping by offset

  /** Strictly increasing. */
  predicate Ascending(s: seq<nat>)
  {
    forall i, j :: 0 <= i < j < |s| ==> s[i] < s[j]
  }

  /** `v` put into its place in an ascending list, unless already there. */
  function InsertSorted(s: seq<nat>, v: nat): (r: seq<nat>)
    requires Ascending(s)
    ensures Ascending(r)
    ensures forall x :: x in r <==> x in s || x == v
  {
    if |s| == 0 then [v]
    else if v == s[0] then s
    else if v < s[0] then [v] + s
    else
      var t := InsertSorted(s[1..], v);
      assert forall j :: 0 <= j < |t| ==> s[0] < t[j] by {
        forall j | 0 <= j < |t|
          ensures s[0] < t[j]
        {
          assert t[j] in t;
          if t[j] != v {
            var k :| 0 <= k < |s[1..]| && s[1..][k] == t[j];
            assert s[1..][k] == s[k + 1];
          }
        }
      }
      [s[0]] + t
  }

  /** The distinct offsets in ascending order: the keys of
      `sorted(unique_offsets.items())`. */
  function DistinctSorted(offs: seq<nat>): (keys: seq<nat>)
    ensures Ascending(keys)
    ensures forall x :: x in keys <==> x in offs
  {
    if |offs| == 0 then []
    else InsertSorted(DistinctSorted(offs[..|offs| - 1]), offs[|offs| - 1])
  }

  /** The indices that point at `v`, in table order: the list
      `unique_offsets[v]` ends up with. */
  function IndicesOf(offs: seq<nat>, v: nat): (ix: seq<nat>)
    ensures Ascending(ix)
    ensures forall i: nat :: i in ix <==> i < |offs| && offs[i] == v
  {
    if |offs| == 0 then []
    else
      var n := |offs| - 1;
      var init := IndicesOf(offs[..n], v);
      forall a | 0 <= a < |init|
        ensures init[a] < n
      {
        assert init[a] in init;
      }
      init + (if offs[n] == v then [n] else [])
  }

  /** Every index of the table lies in exactly one group: the one of
      its own offset. */
  lemma {:induction false} GroupsPartition(offs: seq<nat>, i: nat) returns (k: nat)
    requires i < |offs|
    ensures var keys := DistinctSorted(offs);
      k < |keys| && keys[k] == offs[i] && i in IndicesOf(offs, keys[k])
    ensures var keys := DistinctSorted(offs);
      forall m :: 0 <= m < |keys| && i in IndicesOf(offs, keys[m]) ==> m == k
  {
    var keys := DistinctSorted(offs);
    assert offs[i] in keys;
    k :| 0 <= k < |keys| && keys[k] == offs[i];
    assert i in IndicesOf(offs, keys[k]);
    forall m | 0 <= m < |keys| && i in IndicesOf(offs, keys[m])
      ensures m == k
    {
      assert keys[m] == keys[k];
    }
  }

  // ---------------------------------------------------------------------
  // Classification

  /** The `(type, subtype)` pairs the extractor assigns. */
  datatype Kind =
    | Background      // ('background', 'image')
    | ObjectGraphics  // ('graphics', 'object')
    | ImageGraphics   // ('graphics', 'image')
    | PcmSound        // ('sounds', 'pcm')
    | Bytecode        // ('scripts', 'bytecode')
    | UnknownData     // ('unknown', 'data')

  function TypeName(k: Kind): string
  {
    match k
    case Background => "background"
    case ObjectGraphics => "graphics"
    case ImageGraphics => "graphics"
    case PcmSound => "sounds"
    case Bytecode => "scripts"
    case UnknownData => "unknown"
  }

  /** One entry of the returned list; `size` may be negative when an
      offset lies past the end of the data. */
  datatype Resource = Resource(indices: seq<nat>, offset: nat, size: int, kind: Kind, data: seq<byte>)

  /** The type test of one group: index 0 is the background; above 1000
      bytes graphics (an object for a first index 1..9); strictly between
      100 and 1000 bytes a sound when more than 60 of the first 100 bytes
      are non-zero, else a script; anything else unknown. */
  function Classify(first: nat, size: int, chunk: seq<byte>): (k: Kind)
    ensures k == Background <==> first == 0
    ensures (k == ObjectGraphics || k == ImageGraphics) <==> first != 0 && size > 1000
    ensures k == ObjectGraphics <==> first != 0 && size > 1000 && first < 10
    ensures (k == PcmSound || k == Bytecode) <==> first != 0 && 100 < size < 1000
    ensures k == PcmSound <==> first != 0 && 100 < size < 1000 && CountNonZero(chunk[..Min(100, |chunk|)]) > 60
    ensures k == UnknownData <==> first != 0 && (size <= 100 || size == 1000)
  {
    if first == 0 then Background
    else if size > 1000 then (if first > 0 && first < 10 then ObjectGraphics else ImageGraphics)
    else if size > 100 && size < 1000 then
      (if CountNonZero(chunk[..Min(100, |chunk|)]) > 60 then PcmSound else Bytecode)
    else UnknownData
  }

  /** The resource of group `j`. */
  function ResourceAt(data: seq<byte>, offs: seq<nat>, keys: seq<nat>, j: nat): (r: Resource)
    requires j < |keys| && |IndicesOf(offs, keys[j])| > 0
    ensures r.offset == keys[j] && r.indices == IndicesOf(offs, keys[j])
    ensures CutAt(data, keys, j, r)
  {
    var next := if j + 1 < |keys| then keys[j + 1] else |data|;
    var ix := IndicesOf(offs, keys[j]);
    var chunk := ClampedSlice(data, keys[j], next);
    Resource(ix, keys[j], next - keys[j], Classify(ix[0], next - keys[j], chunk), chunk)
  }

  /** Resource `j` runs from its offset to the next distinct offset (the
      end of the data for the last), its bytes are that slice as far as
      the data goes, and its kind is decided by its lowest index, its size
      and those bytes. */
  predicate CutAt(data: seq<byte>, keys: seq<nat>, j: nat, r: Resource)
    requires j < |keys|
  {
    var next := if j + 1 < |keys| then keys[j + 1] else |data|;
    r.size == next - keys[j] && r.data == ClampedSlice(data, keys[j], next)
    && |r.indices| > 0 && r.kind == Classify(r.indices[0], r.size, r.data)
  }

  /** What `extract_all_resources` returns: the bare `[]` for data under
      10 bytes, else the resources with the width and height words. */
  datatype Extraction = Bare | Extracted(resources: seq<Resource>, width: nat, height: nat)

  /** The extraction proper, for data whose width and height words can be
      read: one resource per distinct table offset, in ascending order of
      offset, each with the indices that share it. */
  function Extract(data: seq<byte>): (r: Extraction)
    requires |data| >= 8
    ensures r.Extracted? && r.width == U16(data, 4) && r.height == U16(data, 6)
    ensures var offs := ResourceOffsets(data); var keys := DistinctSorted(offs);
      |r.resources| == |keys|
      && (forall j :: 0 <= j < |keys| ==> r.resources[j].offset == keys[j] && r.resources[j].indices == IndicesOf(offs, keys[j]))
      && forall j :: 0 <= j < |keys| ==> CutAt(data, keys, j, r.resources[j])
  {
    var offs := ResourceOffsets(data);
    var keys := DistinctSorted(offs);
    KeysHaveIndices(offs);
    Extracted(seq(|keys|, j requires 0 <= j < |keys| => ResourceAt(data, offs, keys, j)), U16(data, 4), U16(data, 6))
  }

  /** `extract_all_resources(room_data)` as written: the bare `[]` under
      10 bytes. */
  function ExtractAllResources(data: seq<byte>): (r: Extraction)
    ensures r.Bare? <==> |data| < 10
    ensures r.Extracted? ==> r == Extract(data)
  {
    if |data| < 10 then Bare else Extract(data)
  }

  /** The caller in `process_all_rooms` reads the width and height words
      itself (an `IndexError` under 8 bytes) and then unpacks three values
      from the result (a `ValueError` for the bare `[]`); `None` stands for
      either exception. */
  function RoomResourcesAsWritten(data: seq<byte>): (r: Option<seq<Resource>>)
    ensures r.Some? <==> |data| >= 10
  {
    if |data| < 8 then None
    else match ExtractAllResources(data)
      case Bare => None
      case Extracted(rs, _, _) => Some(rs)
  }

  /** A 9-byte room has readable width and height words, yet the caller
      fails on unpacking. */
  lemma NineByteRoomFails()
    ensures var room: seq<byte> := [0, 0, 0, 0, 8, 0, 8, 0, 0];
      |room| >= 8 && RoomResourcesAsWritten(room).None?
  {
  }

  /** The caller with the three values returned at every length: it fails
      exactly when the header words are missing, and a room too short for
      a table entry has no resources. */
  function RoomResources(data: seq<byte>): (r: Option<seq<Resource>>)
    ensures r.Some? <==> |data| >= 8
    ensures |data| >= 10 ==> r == RoomResourcesAsWritten(data)
    ensures 8 <= |data| < 12 ==> r == Some([])
  {
    if |data| < 8 then None else Some(Extract(data).resources)
  }

  /** Every group is non-empty, so `indices[0]` exists. */
  lemma {:induction false} KeysHaveIndices(offs: seq<nat>)
    ensures forall j :: 0 <= j < |DistinctSorted(offs)| ==> |IndicesOf(offs, DistinctSorted(offs)[j])| > 0
  {
    var keys := DistinctSorted(offs);
    forall j | 0 <= j < |keys|
      ensures |IndicesOf(offs, keys[j])| > 0
    {
      assert keys[j] in offs;
      var i :| 0 <= i < |offs| && offs[i] == keys[j];
      assert i in IndicesOf(offs, keys[j]);
    }
  }

  /** The sum of the sizes of the first `n` resources. */
  function SizeTotal(rs: seq<Resource>, n: nat): int
    requires n <= |rs|
  {
    if n == 0 then 0 else SizeTotal(rs, n - 1) + rs[n - 1].size
  }

  /** The resources cover the room from the lowest offset to its end:
      their sizes add up to `len - offset[0]`. */
  lemma {:induction false} SizesCoverRoom(data: seq<byte>)
    requires |data| >= 8 && |Extract(data).resources| > 0
    ensures var rs := Extract(data).resources;
      SizeTotal(rs, |rs|) == |data| - rs[0].offset
  {
    var rs := Extract(data).resources;
    var keys := DistinctSorted(ResourceOffsets(data));
    SizeTotalTelescopes(data, keys, rs, |rs|);
  }

  lemma {:induction false} SizeTotalTelescopes(data: seq<byte>, keys: seq<nat>, rs: seq<Resource>, n: nat)
    requires 0 < n <= |rs| == |keys|
    requires forall j :: 0 <= j < |keys| ==> rs[j].offset == keys[j] && CutAt(data, keys, j, rs[j])
    ensures SizeTotal(rs, n) == (if n < |keys| then keys[n] else |data|) - keys[0]
  {
    if n > 1 {
      SizeTotalTelescopes(data, keys, rs, n - 1);
      assert CutAt(data, keys, n - 1, rs[n - 1]);
    } else {
      assert CutAt(data, keys, 0, rs[0]);
    }
  }

  /** A non-empty table gives exactly one background: the group of index
      0, at the first table offset. */
  lemma {:induction false} OneBackground(data: seq<byte>) returns (b: nat)
    requires |data| >= 8 && |ResourceOffsets(data)| > 0
    ensures var rs := Extract(data).resources;
      b < |rs| && rs[b].kind == Background && rs[b].offset == ResourceOffsets(data)[0]
      && forall m :: 0 <= m < |rs| && m != b ==> rs[m].kind != Background
  {
    var offs := ResourceOffsets(data);
    var keys := DistinctSorted(offs);
    var rs := Extract(data).resources;
    b := GroupsPartition(offs, 0);
    forall m | 0 <= m < |rs|
      ensures rs[m].kind == Background <==> m == b
    {
      BackgroundIffIndexZero(data, m);
      assert rs[m].indices == IndicesOf(offs, keys[m]);
    }
    assert rs[b].offset == keys[b];
  }

  /** A resource is the background exactly when index 0 is in its group. */
  lemma {:induction false} BackgroundIffIndexZero(data: seq<byte>, m: nat)
    requires |data| >= 8 && m < |Extract(data).resources|
    ensures var r := Extract(data).resources[m];
      r.kind == Background <==> 0 in r.indices
  {
    var offs := ResourceOffsets(data);
    var keys := DistinctSorted(offs);
    var r := Extract(data).resources[m];
    assert CutAt(data, keys, m, r);
    var ix := r.indices;
    if 0 in ix {
      var a :| 0 <= a < |ix| && ix[a] == 0;
      assert a == 0 || ix[0] < ix[a];
    }
  }

  // ---------------------------------------------------------------------
  // create_resources_json

  /** The type names counted by decode_all_resources_complete.py and, with
      "palettes", by decode_all_resources_fixed.py. */
  const CompleteKeys: seq<string> := ["background", "graphics", "sounds", "scripts", "unknown"]
  const FixedKeys: seq<string> := ["background", "graphics", "sounds", "scripts", "palettes", "unknown"]

  /** Every key once. */
  predicate DistinctKeys(keys: seq<string>)
  {
    forall i, j :: 0 <= i < j < |keys| ==> keys[i] != keys[j]
  }

  /** The statistics of `resources.json`. */
  datatype JsonCounts = JsonCounts(totalRooms: nat, totalResources: nat, typeCounts: seq<nat>)

  /** How many entries of `types` are none of the keys. */
  function Outside(types: seq<string>, keys: seq<string>): (n: nat)
    ensures n <= |types|
  {
    if |types| == 0 then 0 else Outside(types[..|types| - 1], keys) + (if types[|types| - 1] in keys then 0 else 1)
  }

  /** `if res_type in type_counts: type_counts[res_type] += 1`. */
  function Bump(counts: seq<nat>, keys: seq<string>, t: string): (c: seq<nat>)
    requires |counts| == |keys|
    ensures |c| == |keys|
  {
    seq(|keys|, i requires 0 <= i < |keys| => counts[i] + (if keys[i] == t then 1 else 0))
  }

  /** The counting loop over the resource types in turn. */
  function CountTypes(types: seq<string>, keys: seq<string>): (c: seq<nat>)
    ensures |c| == |keys|
  {
    if |types| == 0 then seq(|keys|, i => 0)
    else Bump(CountTypes(types[..|types| - 1], keys), keys, types[|types| - 1])
  }

  /** The types of all rooms' resources, room after room. */
  function Flatten(rooms: seq<seq<string>>): seq<string>
  {
    if |rooms| == 0 then [] else Flatten(rooms[..|rooms| - 1]) + rooms[|rooms| - 1]
  }

  /** The statistics of `create_resources_json(all_rooms, ..)` given the
      type names of every room's resources: the number of rooms, of
      resources, and of each key among the types. */
  function ResourcesJson(rooms: seq<seq<string>>, keys: seq<string>): (j: JsonCounts)
    requires DistinctKeys(keys)
    ensures j.totalRooms == |rooms| && j.totalResources == |Flatten(rooms)|
    ensures |j.typeCounts| == |keys|
    ensures forall i :: 0 <= i < |keys| ==> j.typeCounts[i] == Count(Flatten(rooms), keys[i])
  {
    var types := Flatten(rooms);
    CountTypesCounts(types, keys);
    JsonCounts(|rooms|, |types|, CountTypes(types, keys))
  }

  lemma {:induction false} CountTypesCounts(types: seq<string>, keys: seq<string>)
    requires DistinctKeys(keys)
    ensures forall i :: 0 <= i < |keys| ==> CountTypes(types, keys)[i] == Count(types, keys[i])
  {
    if |types| > 0 {
      CountTypesCounts(types[..|types| - 1], keys);
    }
  }

  /** The sum of the first `n` counts. */
  function SumTo(c: seq<nat>, n: nat): nat
    requires n <= |c|
  {
    if n == 0 then 0 else SumTo(c, n - 1) + c[n - 1]
  }

  /** Types outside the keys are skipped silently: the counts add up to
      the number of resources less those. */
  lemma {:induction false} CountsPlusSkipped(types: seq<string>, keys: seq<string>)
    requires DistinctKeys(keys)
    ensures SumTo(CountTypes(types, keys), |keys|) + Outside(types, keys) == |types|
  {
    if |types| > 0 {
      var init, t := types[..|types| - 1], types[|types| - 1];
      CountsPlusSkipped(init, keys);
      assert CountTypes(types, keys) == Bump(CountTypes(init, keys), keys, t);
      assert Outside(types, keys) == Outside(init, keys) + (if t in keys then 0 else 1);
      BumpSum(CountTypes(init, keys), keys, t, |keys|);
      if t in keys {
        var k :| 0 <= k < |keys| && keys[k] == t;
        BumpSumOne(keys, t, k, |keys|);
      } else {
        BumpSumNone(keys, t, |keys|);
      }
    } else {
      SumZero(CountTypes(types, keys), |keys|);
    }
  }

  lemma {:induction false} SumZero(c: seq<nat>, n: nat)
    requires n <= |c| && forall i :: 0 <= i < |c| ==> c[i] == 0
    ensures SumTo(c, n) == 0
  {
    if n > 0 {
      SumZero(c, n - 1);
    }
  }

  /** How many of the first `n` keys are `t`. */
  function Hits(keys: seq<string>, t: string, n: nat): nat
    requires n <= |keys|
  {
    if n == 0 then 0 else Hits(keys, t, n - 1) + (if keys[n - 1] == t then 1 else 0)
  }

  lemma {:induction false} BumpSum(counts: seq<nat>, keys: seq<string>, t: string, n: nat)
    requires |counts| == |keys| && n <= |keys|
    ensures SumTo(Bump(counts, keys, t), n) == SumTo(counts, n) + Hits(keys, t, n)
  {
    if n > 0 {
      BumpSum(counts, keys, t, n - 1);
    }
  }

  lemma {:induction false} BumpSumOne(keys: seq<string>, t: string, k: nat, n: nat)
    requires DistinctKeys(keys) && k < |keys| && keys[k] == t && n <= |keys|
    ensures Hits(keys, t, n) == if k < n then 1 else 0
  {
    if n > 0 {
      BumpSumOne(keys, t, k, n - 1);
    }
  }

  lemma {:induction false} BumpSumNone(keys: seq<string>, t: string, n: nat)
    requires t !in keys && n <= |keys|
    ensures Hits(keys, t, n) == 0
  {
    if n > 0 {
      BumpSumNone(keys, t, n - 1);
    }
  }

  /** Every type name the extractor assigns is one of the five keys, so
      for its rooms the counts add up to the number of resources. */
  lemma {:induction false} ExtractedTypesAllCounted(rooms: seq<seq<Resource>>)
    ensures var names := TypeNames(rooms);
      SumTo(CountTypes(Flatten(names), CompleteKeys), |CompleteKeys|) == |Flatten(names)|
  {
    var types := Flatten(TypeNames(rooms));
    NamesAreKeys(TypeNames(rooms));
    OutsideNone(types, CompleteKeys);
    CountsPlusSkipped(types, CompleteKeys);
  }

  /** The type names of the rooms' resources. */
  function TypeNames(rooms: seq<seq<Resource>>): (names: seq<seq<string>>)
    ensures |names| == |rooms|
    ensures forall r :: 0 <= r < |rooms| ==>
      |names[r]| == |rooms[r]| && forall k :: 0 <= k < |rooms[r]| ==> names[r][k] == TypeName(rooms[r][k].kind)
  {
    seq(|rooms|, r requires 0 <= r < |rooms| =>
      seq(|rooms[r]|, k requires 0 <= k < |rooms[r]| => TypeName(rooms[r][k].kind)))
  }

  lemma {:induction false} NamesAreKeys(names: seq<seq<string>>)
    requires forall r, k :: 0 <= r < |names| && 0 <= k < |names[r]| ==> names[r][k] in CompleteKeys
    ensures forall k :: 0 <= k < |Flatten(names)| ==> Flatten(names)[k] in CompleteKeys
  {
    if |names| > 0 {
      NamesAreKeys(names[..|names| - 1]);
    }
  }

  lemma {:induction false} OutsideNone(types: seq<string>, keys: seq<string>)
    requires forall k :: 0 <= k < |types| ==> types[k] in keys
    ensures Outside(types, keys) == 0
  {
    if |types| > 0 {
      OutsideNone(types[..|types| - 1], keys);
    }
  }
}
