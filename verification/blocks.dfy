/** The heuristic extractor of tools/extract_resources.py: it cuts a
    de-obfuscated LFL file into blocks wherever fifty bytes are mostly
    non-zero, ends each block at the next run of ten zero bytes, and
    tallies the classified blocks of every file into one summary. */
module Blocks {
  import opened Bytes

  // ---------------------------------------------------------------------
  // find_block_boundaries

  /** More than 30 of the 50 bytes at `i` are non-zero. */
  predicate Dense(data: seq<byte>, i: nat)
    requires i + 50 <= |data|
  {
    CountNonZero(data[i .. i + 50]) > 30
  }

  /** The (up to) ten bytes from `j` are all zero; near the end of the
      data the window is cut short. */
  predicate ZeroWindow(data: seq<byte>, j: nat)
    requires j <= |data|
  {
    AllZero(data[j .. Min(j + 10, |data|)])
  }

  /** The first `j` in `lo .. hi - 1` where a zero window starts. */
  function FirstZeroWindow(data: seq<byte>, lo: nat, hi: nat): (r: Option<nat>)
    requires lo <= hi <= |data|
    decreases hi - lo
    ensures r.Some? ==> lo <= r.value < hi && ZeroWindow(data, r.value)
    ensures r.Some? ==> forall j :: lo <= j < r.value ==> !ZeroWindow(data, j)
    ensures r.None? ==> forall j :: lo <= j < hi ==> !ZeroWindow(data, j)
  {
    if lo == hi then None
    else if ZeroWindow(data, lo) then Some(lo)
    else FirstZeroWindow(data, lo + 1, hi)
  }

  /** Where the block starting at `i` ends: blocks are at least 100 and
      below 60000 bytes long and end before the data does. */
  function BlockEnd(data: seq<byte>, i: nat): (e: nat)
    requires i + 100 < |data|
    ensures i + 100 <= e < Min(i + 60000, |data|)
  {
    match FirstZeroWindow(data, i + 100, Min(i + 60000, |data|))
    case Some(j) => j
    case None => i + 100
  }

  /** The end is the first zero window in `i + 100 .. min(i + 60000,
      len) - 1`, or `i + 100` when there is none. */
  lemma BlockEndIsFirstZeroWindow(data: seq<byte>, i: nat)
    requires i + 100 < |data|
    ensures var e := BlockEnd(data, i);
      (forall j :: i + 100 <= j < e ==> !ZeroWindow(data, j))
      && (ZeroWindow(data, e) || (e == i + 100 && forall j :: i + 100 <= j < Min(i + 60000, |data|) ==> !ZeroWindow(data, j)))
  {
  }

  /** No block of `bs` contains position `p`. */
  predicate Uncovered(bs: seq<(nat, nat)>, p: nat)
  {
    forall k :: 0 <= k < |bs| ==> !(bs[k].0 <= p < bs[k].0 + bs[k].1)
  }

  /** `bs` is what a scan from `i` finds: each `(offset, size)` starts at
      a dense position at or after `i` and ends where `BlockEnd` says, a
      block ends before any later one starts, and every position from `i`
      on that the scan tests and that lies in no block is not dense. */
  predicate BlockList(data: seq<byte>, i: nat, bs: seq<(nat, nat)>)
  {
    Starts(data, i, bs) && Ordered(bs) && Gaps(data, i, bs)
  }

  predicate Starts(data: seq<byte>, i: nat, bs: seq<(nat, nat)>)
  {
    forall k :: 0 <= k < |bs| ==>
      i <= bs[k].0 && bs[k].0 + 100 < |data| && Dense(data, bs[k].0) && bs[k].0 + bs[k].1 == BlockEnd(data, bs[k].0)
  }

  predicate Ordered(bs: seq<(nat, nat)>)
  {
    forall k, l :: 0 <= k < l < |bs| ==> bs[k].0 + bs[k].1 <= bs[l].0
  }

  predicate Gaps(data: seq<byte>, i: nat, bs: seq<(nat, nat)>)
  {
    forall p :: i <= p && p + 100 < |data| && Uncovered(bs, p) ==> !Dense(data, p)
  }

  /** The `while` loop from position `i`. */
  function Scan(data: seq<byte>, i: nat): seq<(nat, nat)>
    decreases |data| - i
  {
    if i + 100 >= |data| then []
    else if Dense(data, i) then
      var e := BlockEnd(data, i);
      [(i, e - i)] + Scan(data, e)
    else Scan(data, i + 1)
  }

  /** `find_block_boundaries(data)`: every block is at least 100 and
      below 60000 bytes long and ends inside the data. */
  function FindBlockBoundaries(data: seq<byte>): (bs: seq<(nat, nat)>)
    ensures BlockList(data, 0, bs)
    ensures forall k :: 0 <= k < |bs| ==> 100 <= bs[k].1 < 60000 && bs[k].0 + bs[k].1 < |data|
  {
    ScanIsBlockList(data, 0);
    Scan(data, 0)
  }

  /** The loop's result has the block-list properties. */
  lemma {:induction false} ScanIsBlockList(data: seq<byte>, i: nat)
    decreases |data| - i
    ensures BlockList(data, i, Scan(data, i))
  {
    if i + 100 < |data| {
      if Dense(data, i) {
        var e := BlockEnd(data, i);
        ScanIsBlockList(data, e);
        ConsBlockList(data, i, Scan(data, e));
      } else {
        ScanIsBlockList(data, i + 1);
        SkipBlockList(data, i, Scan(data, i + 1));
      }
    }
  }

  /** A block at a dense `i` in front of the blocks from its end. */
  lemma {:induction false} ConsBlockList(data: seq<byte>, i: nat, rest: seq<(nat, nat)>)
    requires i + 100 < |data| && Dense(data, i)
    requires BlockList(data, BlockEnd(data, i), rest)
    ensures BlockList(data, i, [(i, BlockEnd(data, i) - i)] + rest)
  {
    ConsStarts(data, i, rest);
    ConsGaps(data, i, rest);
  }

  lemma {:induction false} ConsStarts(data: seq<byte>, i: nat, rest: seq<(nat, nat)>)
    requires i + 100 < |data| && Dense(data, i)
    requires Starts(data, BlockEnd(data, i), rest) && Ordered(rest)
    ensures var bs := [(i, BlockEnd(data, i) - i)] + rest;
      Starts(data, i, bs) && Ordered(bs)
  {
    var bs := [(i, BlockEnd(data, i) - i)] + rest;
    forall k | 0 <= k < |bs|
      ensures i <= bs[k].0 && bs[k].0 + 100 < |data| && Dense(data, bs[k].0) && bs[k].0 + bs[k].1 == BlockEnd(data, bs[k].0)
    {
      if k > 0 {
        assert bs[k] == rest[k - 1];
      }
    }
    forall k, l | 0 <= k < l < |bs|
      ensures bs[k].0 + bs[k].1 <= bs[l].0
    {
      assert bs[l] == rest[l - 1];
      if k > 0 {
        assert bs[k] == rest[k - 1];
      }
    }
  }

  lemma {:induction false} ConsGaps(data: seq<byte>, i: nat, rest: seq<(nat, nat)>)
    requires i + 100 < |data| && Dense(data, i)
    requires Gaps(data, BlockEnd(data, i), rest)
    ensures Gaps(data, i, [(i, BlockEnd(data, i) - i)] + rest)
  {
    var bs := [(i, BlockEnd(data, i) - i)] + rest;
    forall p | i <= p && p + 100 < |data| && Uncovered(bs, p)
      ensures !Dense(data, p)
    {
      assert !(bs[0].0 <= p < bs[0].0 + bs[0].1);
      assert Uncovered(rest, p) by {
        forall m | 0 <= m < |rest|
          ensures !(rest[m].0 <= p < rest[m].0 + rest[m].1)
        {
          assert bs[m + 1] == rest[m];
        }
      }
    }
  }

  /** A sparse `i` is passed over. */
  lemma {:induction false} SkipBlockList(data: seq<byte>, i: nat, bs: seq<(nat, nat)>)
    requires i + 100 < |data| && !Dense(data, i)
    requires BlockList(data, i + 1, bs)
    ensures BlockList(data, i, bs)
  {
  }

  /** The properties pin the scan down: any block list with them is the
      one the loop produces. */
  lemma {:induction false} BlockListUnique(data: seq<byte>, i: nat, bs: seq<(nat, nat)>)
    requires BlockList(data, i, bs)
    decreases |data| - i
    ensures bs == Scan(data, i)
  {
    if |bs| > 0 {
      assert i <= bs[0].0 && bs[0].0 + 100 < |data|;
    }
    if i + 100 >= |data| {
    } else if Dense(data, i) {
      var e := BlockEnd(data, i);
      DenseHead(data, i, bs);
      BlockListUnique(data, e, bs[1..]);
    } else {
      SkipSparse(data, i, bs);
      BlockListUnique(data, i + 1, bs);
    }
  }

  /** A dense position starts the first block, and the others are what a
      scan from its end finds. */
  lemma DenseHead(data: seq<byte>, i: nat, bs: seq<(nat, nat)>)
    requires BlockList(data, i, bs) && i + 100 < |data| && Dense(data, i)
    ensures var e := BlockEnd(data, i);
      |bs| > 0 && bs == [(i, e - i)] + bs[1..] && BlockList(data, e, bs[1..])
  {
    assert !Uncovered(bs, i);
    HeadBlock(data, i, bs);
    TailStarts(data, i, bs);
    TailGaps(data, i, bs);
  }

  /** A position that is not dense starts no block, so the scan may go on
      from the next one. */
  lemma SkipSparse(data: seq<byte>, i: nat, bs: seq<(nat, nat)>)
    requires BlockList(data, i, bs) && i + 100 < |data| && !Dense(data, i)
    ensures BlockList(data, i + 1, bs)
  {
    forall m | 0 <= m < |bs|
      ensures i + 1 <= bs[m].0
    {
    }
  }

  /** A dense `i` that lies in a block must be where the first block
      starts. */
  lemma {:induction false} HeadBlock(data: seq<byte>, i: nat, bs: seq<(nat, nat)>)
    requires i + 100 < |data| && Starts(data, i, bs) && Ordered(bs) && !Uncovered(bs, i)
    ensures |bs| > 0 && bs[0] == (i, BlockEnd(data, i) - i)
  {
    var k :| 0 <= k < |bs| && bs[k].0 <= i < bs[k].0 + bs[k].1;
    forall m | 0 < m < |bs|
      ensures bs[m].0 > i
    {
      assert bs[0].0 + bs[0].1 <= bs[m].0;
    }
    assert k == 0;
  }

  /** The blocks after the first start at or after its end. */
  lemma {:induction false} TailStarts(data: seq<byte>, i: nat, bs: seq<(nat, nat)>)
    requires i + 100 < |data| && Starts(data, i, bs) && Ordered(bs)
    requires |bs| > 0 && bs[0] == (i, BlockEnd(data, i) - i)
    ensures Starts(data, BlockEnd(data, i), bs[1..]) && Ordered(bs[1..])
  {
    var e := BlockEnd(data, i);
    var rest := bs[1..];
    forall m | 0 <= m < |rest|
      ensures e <= rest[m].0
    {
      assert bs[m + 1] == rest[m];
    }
  }

  /** Positions past the first block that no later block covers are
      sparse. */
  lemma {:induction false} TailGaps(data: seq<byte>, i: nat, bs: seq<(nat, nat)>)
    requires i + 100 < |data| && Gaps(data, i, bs)
    requires |bs| > 0 && bs[0] == (i, BlockEnd(data, i) - i)
    ensures Gaps(data, BlockEnd(data, i), bs[1..])
  {
    var e := BlockEnd(data, i);
    var rest := bs[1..];
    forall p | e <= p && p + 100 < |data| && Uncovered(rest, p)
      ensures !Dense(data, p)
    {
      assert Uncovered(bs, p) by {
        forall m | 0 <= m < |bs|
          ensures !(bs[m].0 <= p < bs[m].0 + bs[m].1)
        {
          if m > 0 {
            assert rest[m - 1] == bs[m];
          }
        }
      }
    }
  }

  // ---------------------------------------------------------------------
  // create_summary

  /** One extracted block as the summary sees it; the entropy text, file
      name and path are not modelled. */
  datatype Resource = Resource(id: nat, offset: nat, size: nat, kind: string)

  /** The five type names the summary counts. */
  const Kinds: seq<string> := ["graphics", "sounds", "scripts", "palettes", "unknown"]

  /** Counts per type name, in the order of `Kinds`. */
  datatype Tally = Tally(graphics: nat, sounds: nat, scripts: nat, palettes: nat, unknown: nat)

  function Sum(t: Tally): nat
  {
    t.graphics + t.sounds + t.scripts + t.palettes + t.unknown
  }

  function Plus(a: Tally, b: Tally): Tally
  {
    Tally(a.graphics + b.graphics, a.sounds + b.sounds, a.scripts + b.scripts,
      a.palettes + b.palettes, a.unknown + b.unknown)
  }

  /** The count a tally holds for a name. */
  function Get(t: Tally, name: string): nat
  {
    if name == Kinds[0] then t.graphics
    else if name == Kinds[1] then t.sounds
    else if name == Kinds[2] then t.scripts
    else if name == Kinds[3] then t.palettes
    else if name == Kinds[4] then t.unknown
    else 0
  }

  /** How many resources carry the type `name`. */
  function Occurrences(rs: seq<Resource>, name: string): (n: nat)
    ensures n <= |rs|
    ensures n == 0 <==> forall k :: 0 <= k < |rs| ==> rs[k].kind != name
  {
    if |rs| == 0 then 0
    else Occurrences(rs[..|rs| - 1], name) + (if rs[|rs| - 1].kind == name then 1 else 0)
  }

  /** `type_counts[res['type']] += 1` over a file's resources: a type
      outside the five names raises `KeyError`, modelled as `None`. */
  function CountKinds(rs: seq<Resource>): (t: Option<Tally>)
    ensures t.Some? <==> forall k :: 0 <= k < |rs| ==> rs[k].kind in Kinds
  {
    if |rs| == 0 then Some(Tally(0, 0, 0, 0, 0))
    else
      match CountKinds(rs[..|rs| - 1])
      case None => None
      case Some(t) => Bump(t, rs[|rs| - 1].kind)
  }

  /** `type_counts[name] += 1` on one tally. */
  function Bump(t: Tally, name: string): (r: Option<Tally>)
    ensures r.Some? <==> name in Kinds
  {
    if name == Kinds[0] then Some(t.(graphics := t.graphics + 1))
    else if name == Kinds[1] then Some(t.(sounds := t.sounds + 1))
    else if name == Kinds[2] then Some(t.(scripts := t.scripts + 1))
    else if name == Kinds[3] then Some(t.(palettes := t.palettes + 1))
    else if name == Kinds[4] then Some(t.(unknown := t.unknown + 1))
    else None
  }

  /** Bumping a name adds one to its count and to the sum, and to no
      other count. */
  lemma BumpGet(t: Tally, name: string)
    requires name in Kinds
    ensures Sum(Bump(t, name).value) == Sum(t) + 1
    ensures forall n :: n in Kinds ==> Get(Bump(t, name).value, n) == Get(t, n) + if n == name then 1 else 0
  {
  }

  /** Each of the five counts is the number of resources of that type,
      and together they count every resource. */
  lemma {:induction false} CountKindsCounts(rs: seq<Resource>)
    requires CountKinds(rs).Some?
    ensures forall n :: n in Kinds ==> Get(CountKinds(rs).value, n) == Occurrences(rs, n)
    ensures Sum(CountKinds(rs).value) == |rs|
  {
    if |rs| > 0 {
      var pre := rs[..|rs| - 1];
      var last := rs[|rs| - 1];
      CountKindsCounts(pre);
      var t := CountKinds(pre).value;
      assert CountKinds(rs) == Bump(t, last.kind);
      BumpGet(t, last.kind);
      forall n | n in Kinds
        ensures Get(CountKinds(rs).value, n) == Occurrences(rs, n)
      {
        assert Occurrences(rs, n) == Occurrences(pre, n) + if last.kind == n then 1 else 0;
      }
    }
  }

  /** One entry of the summary's `files` list. */
  datatype FileInfo = FileInfo(file: string, total: nat, counts: Tally, resources: seq<Resource>)

  /** The summary object; the game and version strings are constants. */
  datatype Summary = Summary(game: string, version: string, totalFiles: nat, totalResources: nat,
                             counts: Tally, files: seq<FileInfo>)

  /** Every resource of every file carries one of the five type names. */
  predicate AllKnown(files: seq<(string, seq<Resource>)>)
  {
    forall f, k :: 0 <= f < |files| && 0 <= k < |files[f].1| ==> files[f].1[k].kind in Kinds
  }

  /** The number of resources over all files. */
  function TotalOf(files: seq<(string, seq<Resource>)>): nat
  {
    if |files| == 0 then 0 else TotalOf(files[..|files| - 1]) + |files[|files| - 1].1|
  }

  /** The number of resources of type `name` over all files. */
  function OccurrencesOf(files: seq<(string, seq<Resource>)>, name: string): nat
  {
    if |files| == 0 then 0
    else OccurrencesOf(files[..|files| - 1], name) + Occurrences(files[|files| - 1].1, name)
  }

  /** `create_summary(all_files_data, ..)` given the files' items in
      sorted order: one entry per file with its total and type counts,
      the grand totals summed over the files; `None` when a type name
      raises `KeyError`. */
  function CreateSummary(files: seq<(string, seq<Resource>)>): (r: Option<Summary>)
    ensures r.Some? <==> AllKnown(files)
    ensures r.Some? ==> r.value.game == "LOOM" && r.value.version == "SCUMM v3"
    ensures r.Some? ==> r.value.totalFiles == |files| && |r.value.files| == |files|
    ensures r.Some? ==> forall f :: 0 <= f < |files| ==>
      r.value.files[f] == FileInfo(files[f].0, |files[f].1|, CountKinds(files[f].1).value, files[f].1)
  {
    match FileInfos(files)
    case None => None
    case Some(infos) =>
      Some(Summary("LOOM", "SCUMM v3", |files|, TotalOf(files), Totals(infos), infos))
  }

  /** The `files` list, or `None` at the first unknown type name. */
  function FileInfos(files: seq<(string, seq<Resource>)>): (r: Option<seq<FileInfo>>)
    ensures r.Some? <==> AllKnown(files)
    ensures r.Some? ==> |r.value| == |files| && forall f :: 0 <= f < |files| ==>
      r.value[f] == FileInfo(files[f].0, |files[f].1|, CountKinds(files[f].1).value, files[f].1)
  {
    if |files| == 0 then Some([])
    else
      var init, last := files[..|files| - 1], files[|files| - 1];
      match FileInfos(init)
      case None => None
      case Some(infos) =>
        match CountKinds(last.1)
        case None => None
        case Some(t) => Some(infos + [FileInfo(last.0, |last.1|, t, last.1)])
  }

  /** The grand type counts: the files' counts added up. */
  function Totals(infos: seq<FileInfo>): Tally
  {
    if |infos| == 0 then Tally(0, 0, 0, 0, 0) else Plus(Totals(infos[..|infos| - 1]), infos[|infos| - 1].counts)
  }

  /** The grand counts are the number of resources of each type over all
      files, and they add up to the total number of resources. */
  lemma SummaryCounts(files: seq<(string, seq<Resource>)>)
    requires AllKnown(files)
    ensures var s := CreateSummary(files).value;
      s.totalResources == Sum(s.counts)
      && forall n :: n in Kinds ==> Get(s.counts, n) == OccurrencesOf(files, n)
  {
    TotalsCount(files, FileInfos(files).value);
  }

  lemma {:induction false} TotalsCount(files: seq<(string, seq<Resource>)>, infos: seq<FileInfo>)
    requires |infos| == |files|
    requires forall f :: 0 <= f < |files| ==> CountKinds(files[f].1).Some? && infos[f].counts == CountKinds(files[f].1).value
    ensures TotalOf(files) == Sum(Totals(infos))
    ensures forall n :: n in Kinds ==> Get(Totals(infos), n) == OccurrencesOf(files, n)
  {
    forall f | 0 <= f < |files|
      ensures Sum(infos[f].counts) == |files[f].1|
      ensures forall n :: n in Kinds ==> Get(infos[f].counts, n) == Occurrences(files[f].1, n)
    {
      CountKindsCounts(files[f].1);
    }
    TotalsSum(files, infos);
    forall n | n in Kinds
      ensures Get(Totals(infos), n) == OccurrencesOf(files, n)
    {
      TotalsGet(files, infos, n);
    }
  }

  lemma {:induction false} TotalsSum(files: seq<(string, seq<Resource>)>, infos: seq<FileInfo>)
    requires |infos| == |files|
    requires forall f :: 0 <= f < |files| ==> Sum(infos[f].counts) == |files[f].1|
    ensures TotalOf(files) == Sum(Totals(infos))
  {
    if |files| > 0 {
      var m := |files| - 1;
      TotalsSum(files[..m], infos[..m]);
    }
  }

  lemma {:induction false} TotalsGet(files: seq<(string, seq<Resource>)>, infos: seq<FileInfo>, n: string)
    requires |infos| == |files| && n in Kinds
    requires forall f :: 0 <= f < |files| ==> Get(infos[f].counts, n) == Occurrences(files[f].1, n)
    ensures Get(Totals(infos), n) == OccurrencesOf(files, n)
  {
    if |files| > 0 {
      var m := |files| - 1;
      TotalsGet(files[..m], infos[..m], n);
    }
  }
}
