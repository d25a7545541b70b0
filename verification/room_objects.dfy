/** `extract_objects_from_room` of extract_objects_v3.py: the object table
    of a version 3 room, a run of OBIM (object image) offsets at byte 29
    followed by as many OBCD (object code) offsets, and the size of every
    object image estimated from the offset that follows it. */
module RoomObjects {
  import opened Bytes
  import opened OffsetTable

  /** Where the object table starts. */
  const ObjectTableStart: nat := 29

  /** One entry of the `objects` list. */
  datatype ObjectInfo = ObjectInfo(id: nat, obimOffset: nat, obcdOffset: nat, obimSize: nat)

  /** The returned dict; the room's name (the file stem) is not modelled. */
  datatype RoomObjectList = RoomObjectList(width: nat, height: nat, numObjects: nat, objects: seq<ObjectInfo>)

  /** The OBIM reader: at most 200 words from byte 29, ending at a word
      that is zero, at or past the end of the data, or not fully inside
      it. */
  function ObimPolicy(): (pol: Policy)
    ensures pol.base == ObjectTableStart && pol.maxEntries == 200 && pol.bias == 0 && pol.minOffset == 0
    ensures !pol.skipLeadingZero && !pol.increasing
  {
    Policy(ObjectTableStart, 200, false, 0, 0, false)
  }

  /** Up to `n` words from `start` on, stopping at the first one that is
      not fully inside the data; the OBCD loop reads them without any
      check on their values. */
  function WordsAt(data: seq<byte>, start: nat, n: nat): (ws: seq<nat>)
    decreases n
    ensures |ws| == if start >= |data| then 0 else Min(n, (|data| - start) / 2)
    ensures forall i :: 0 <= i < |ws| ==> start + 2 * i + 1 < |data| && ws[i] == U16(data, start + 2 * i)
  {
    if n == 0 || start + 1 >= |data| then []
    else [U16(data, start)] + WordsAt(data, start + 2, n - 1)
  }

  /** Where the OBIM data of object `i` is taken to end: the next OBIM
      offset, or for the last object its OBCD offset when that lies
      beyond, else 100 bytes on. */
  function ObimEnd(obim: seq<nat>, obcd: nat, i: nat): (e: nat)
    requires i < |obim|
    ensures i + 1 < |obim| ==> e == obim[i + 1]
    ensures i + 1 == |obim| ==> e == if obcd > obim[i] then obcd else obim[i] + 100
  {
    if i + 1 < |obim| then obim[i + 1]
    else if obcd > obim[i] then obcd
    else obim[i] + 100
  }

  /** `extract_objects_from_room`: `None` for data under 32 bytes or
      without a single OBIM offset; otherwise the width and height words
      and one entry per OBIM offset, whose OBCD offset is the word as many
      places further on (0 when the data ends first) and whose size is the
      length of `data[obim : end]`. */
  function ExtractObjects(data: seq<byte>): (r: Option<RoomObjectList>)
    ensures r.None? <==> |data| < 32 || |ReadTable(data, ObimPolicy())| == 0
    ensures r.Some? ==> r.value.width == U16(data, 4) && r.value.height == U16(data, 6)
    ensures r.Some? ==> var obim := ReadTable(data, ObimPolicy());
      r.value.numObjects == |obim| == |r.value.objects| && |obim| <= 200
      && forall i :: 0 <= i < |obim| ==>
        var o := r.value.objects[i];
        o.id == i && o.obimOffset == obim[i] && 0 < o.obimOffset < |data|
        && o.obcdOffset == (var p := ObjectTableStart + 2 * |obim| + 2 * i; if p + 1 < |data| then U16(data, p) else 0)
  {
    if |data| < 32 then None
    else
      var obim := ReadTable(data, ObimPolicy());
      if |obim| == 0 then None
      else
        var obcd := WordsAt(data, ObjectTableStart + 2 * |obim|, |obim|);
        var os := Objects(data, obim, obcd);
        assert forall i :: 0 <= i < |obim| ==>
          os[i].id == i && os[i].obimOffset == obim[i] && 0 < os[i].obimOffset < |data|
          && os[i].obcdOffset == (var p := ObjectTableStart + 2 * |obim| + 2 * i; if p + 1 < |data| then U16(data, p) else 0)
        by {
          forall i | 0 <= i < |obim| {
            ObjectEntry(data, obim, i);
          }
        }
        Some(RoomObjectList(U16(data, 4), U16(data, 6), |obim|, os))
  }

  /** Object `i` has id `i`, its OBIM offset, and as OBCD offset the word
      `|obim|` places after it, or 0 when that word is not fully inside the
      data. */
  lemma {:induction false} ObjectEntry(data: seq<byte>, obim: seq<nat>, i: nat)
    requires forall i :: 0 <= i < |obim| ==> 0 < obim[i] < |data|
    requires i < |obim|
    ensures var o := Objects(data, obim, WordsAt(data, ObjectTableStart + 2 * |obim|, |obim|))[i];
      o.id == i && o.obimOffset == obim[i] && 0 < o.obimOffset < |data|
      && o.obcdOffset == (var p := ObjectTableStart + 2 * |obim| + 2 * i; if p + 1 < |data| then U16(data, p) else 0)
  {
    WordsAtIndex(data, ObjectTableStart + 2 * |obim|, |obim|, i);
  }

  /** Word `i < n` is read exactly when it is fully inside the data. */
  lemma {:induction false} WordsAtIndex(data: seq<byte>, start: nat, n: nat, i: nat)
    requires i < n
    decreases n
    ensures i < |WordsAt(data, start, n)| <==> start + 2 * i + 1 < |data|
  {
    if start + 1 < |data| && i > 0 {
      WordsAtIndex(data, start + 2, n - 1, i - 1);
    }
  }

  /** The entries, given the two offset lists. */
  function Objects(data: seq<byte>, obim: seq<nat>, obcd: seq<nat>): (os: seq<ObjectInfo>)
    requires forall i :: 0 <= i < |obim| ==> obim[i] < |data|
    ensures |os| == |obim|
    ensures forall i :: 0 <= i < |obim| ==>
      os[i].id == i && os[i].obimOffset == obim[i] && os[i].obcdOffset == (if i < |obcd| then obcd[i] else 0)
      && os[i].obimSize == |ClampedSlice(data, obim[i], ObimEnd(obim, os[i].obcdOffset, i))|
  {
    seq(|obim|, i requires 0 <= i < |obim| =>
      var c := if i < |obcd| then obcd[i] else 0;
      ObjectInfo(i, obim[i], c, |ClampedSlice(data, obim[i], ObimEnd(obim, c, i))|))
  }

  /** The size of an object image is what is left of `obim .. end` inside
      the data: between consecutive OBIM offsets it is their distance (0
      when they do not increase), and every image lies inside the data. */
  lemma {:induction false} ObjectSizes(data: seq<byte>)
    requires ExtractObjects(data).Some?
    ensures var os := ExtractObjects(data).value.objects;
      forall i :: 0 <= i < |os| ==> SizeRule(data, os, i)
  {
    var os := ExtractObjects(data).value.objects;
    forall i | 0 <= i < |os|
      ensures SizeRule(data, os, i)
    {
      var obim := ReadTable(data, ObimPolicy());
      var e := ObimEnd(obim, os[i].obcdOffset, i);
      assert os[i].obimSize == |ClampedSlice(data, obim[i], e)|;
    }
  }

  /** The size rule for object `i`: its image ends inside the data; up to
      the next OBIM offset (nothing when that is not further on), or for
      the last object up to its OBCD offset when further on, else 100
      bytes, cut at the end of the data. */
  predicate SizeRule(data: seq<byte>, os: seq<ObjectInfo>, i: nat)
    requires i < |os|
  {
    var o := os[i];
    o.obimOffset + o.obimSize <= |data|
    && (i + 1 < |os| ==>
      o.obimSize == if os[i + 1].obimOffset > o.obimOffset then os[i + 1].obimOffset - o.obimOffset else 0)
    && (i + 1 == |os| ==>
      o.obimSize == Min(if o.obcdOffset > o.obimOffset then o.obcdOffset else o.obimOffset + 100, |data|) - o.obimOffset)
  }

  /** The images of all objects but the last, laid end to end, span the
      table's first offset to its last when the OBIM offsets increase. */
  lemma {:induction false} ObimSizesTile(data: seq<byte>)
    requires ExtractObjects(data).Some?
    requires Increasing(ReadTable(data, ObimPolicy()))
    ensures var os := ExtractObjects(data).value.objects;
      SizeSum(os, |os| - 1) == os[|os| - 1].obimOffset - os[0].obimOffset
  {
    var os := ExtractObjects(data).value.objects;
    ObjectSizes(data);
    forall i | 0 <= i < |os| - 1
      ensures os[i].obimOffset < os[i + 1].obimOffset && os[i].obimSize == os[i + 1].obimOffset - os[i].obimOffset
    {
      assert SizeRule(data, os, i);
    }
    SizeSumTelescopes(os, |os| - 1);
  }

  /** The total size of the first `n` objects' images. */
  function SizeSum(os: seq<ObjectInfo>, n: nat): int
    requires n <= |os|
  {
    if n == 0 then 0 else SizeSum(os, n - 1) + os[n - 1].obimSize
  }

  lemma {:induction false} SizeSumTelescopes(os: seq<ObjectInfo>, n: nat)
    requires 0 < |os| && n < |os|
    requires forall i :: 0 <= i < |os| - 1 ==>
      os[i].obimOffset < os[i + 1].obimOffset && os[i].obimSize == os[i + 1].obimOffset - os[i].obimOffset
    ensures SizeSum(os, n) == os[n].obimOffset - os[0].obimOffset
  {
    if n > 0 {
      SizeSumTelescopes(os, n - 1);
    }
  }
}
