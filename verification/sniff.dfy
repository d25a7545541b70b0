/** The resource sniffers of analyze_resources.py: `identify_sound_format`
    guesses a sound driver from a four-letter tag or from the first twenty
    bytes, and `analyze_script_header` reports the first byte of a script
    and its three most frequent opcodes among every fourth byte of the
    first fifty. */
module Sniff {
  import opened Bytes

  // ---------------------------------------------------------------------
  // identify_sound_format

  /** The verdicts, in the order the tests are made. */
  datatype SoundFormat =
    | TooSmall        // ('unknown', 'Too small')
    | PcSpeaker       // tag "SPK"
    | AdLib           // tag "ADL"
    | Roland          // tag "ROL"
    | AdLibV3         // 0xBD among the first 20 bytes
    | PcSpeakerV3     // fewer than 5 distinct values among them
    | UnknownFormat   // ('Unknown', 'Cannot identify format')

  /** The characters Python's `str.strip()` removes from ASCII text: tab,
      line feed, vertical tab, form feed, carriage return, the four
      separators 0x1C..0x1F and the space. */
  predicate Blank(c: byte)
  {
    (9 <= c <= 13) || (28 <= c <= 32)
  }

  /** `data.decode('ascii', errors='ignore')`: the bytes below 0x80, in
      order. */
  function AsciiOnly(data: seq<byte>): (t: seq<byte>)
    ensures |t| <= |data|
    ensures forall k :: 0 <= k < |t| ==> t[k] < 0x80
  {
    if |data| == 0 then []
    else (if data[0] < 0x80 then [data[0]] else []) + AsciiOnly(data[1..])
  }

  /** Text that is already ASCII passes unchanged. */
  lemma {:induction false} AsciiOnlyKeepsAscii(t: seq<byte>)
    requires forall k :: 0 <= k < |t| ==> t[k] < 0x80
    ensures AsciiOnly(t) == t
  {
    if |t| > 0 {
      AsciiOnlyKeepsAscii(t[1..]);
    }
  }

  /** Where the text starts once leading blanks from `i` on are
      skipped. */
  function Lead(t: seq<byte>, i: nat): (p: nat)
    requires i <= |t|
    decreases |t| - i
    ensures i <= p <= |t|
    ensures forall k :: i <= k < p ==> Blank(t[k])
    ensures p < |t| ==> !Blank(t[p])
  {
    if i < |t| && Blank(t[i]) then Lead(t, i + 1) else i
  }

  /** Where the text ends once trailing blanks before `j` (and not before
      `lo`) are dropped. */
  function Tail(t: seq<byte>, lo: nat, j: nat): (q: nat)
    requires lo <= j <= |t|
    decreases j
    ensures lo <= q <= j
    ensures forall k :: q <= k < j ==> Blank(t[k])
    ensures lo < q ==> !Blank(t[q - 1])
  {
    if lo < j && Blank(t[j - 1]) then Tail(t, lo, j - 1) else j
  }

  /** `str.strip()`: the text between the leading and the trailing blanks.
      Only blanks are dropped, and the result neither starts nor ends with
      one. */
  function Strip(t: seq<byte>): (u: seq<byte>)
    ensures |u| > 0 ==> !Blank(u[0]) && !Blank(u[|u| - 1])
    ensures exists i, j :: (0 <= i <= j <= |t| && u == t[i..j]
      && (forall k :: 0 <= k < i ==> Blank(t[k])) && (forall k :: j <= k < |t| ==> Blank(t[k])))
  {
    var i := Lead(t, 0);
    var j := Tail(t, i, |t|);
    t[i..j]
  }

  const TagSpk: seq<byte> := [0x53, 0x50, 0x4B]
  const TagAdl: seq<byte> := [0x41, 0x44, 0x4C]
  const TagRol: seq<byte> := [0x52, 0x4F, 0x4C]

  /** The tag the first four bytes spell, stripped. */
  function Tag(data: seq<byte>): seq<byte>
    requires |data| >= 4
  {
    Strip(AsciiOnly(data[..4]))
  }

  /** The distinct values of `data`. */
  function Values(data: seq<byte>): set<byte>
  {
    set k | 0 <= k < |data| :: data[k]
  }

  /** `identify_sound_format(data)`. */
  function IdentifySoundFormat(data: seq<byte>): (f: SoundFormat)
    ensures f == TooSmall <==> |data| < 8
    ensures |data| >= 8 ==> (f == PcSpeaker <==> Tag(data) == TagSpk)
    ensures |data| >= 8 ==> (f == AdLib <==> Tag(data) == TagAdl)
    ensures |data| >= 8 ==> (f == Roland <==> Tag(data) == TagRol)
    ensures f == AdLibV3 <==> |data| >= 8 && Tag(data) !in {TagSpk, TagAdl, TagRol} && 0xBD in data[..Min(20, |data|)]
    ensures f == PcSpeakerV3 <==>
      |data| >= 8 && Tag(data) !in {TagSpk, TagAdl, TagRol} && 0xBD !in data[..Min(20, |data|)]
      && |Values(data[..Min(20, |data|)])| < 5
  {
    if |data| < 8 then TooSmall
    else
      var tag := Tag(data);
      var head := data[..Min(20, |data|)];
      if tag == TagSpk then PcSpeaker
      else if tag == TagAdl then AdLib
      else if tag == TagRol then Roland
      else if 0xBD in head then AdLibV3
      else if |Values(head)| < 5 then PcSpeakerV3
      else UnknownFormat
  }

  /** Text that neither starts nor ends with a blank is its own
      `strip()`, so stripping twice is stripping once. */
  lemma StripKeeps(t: seq<byte>)
    requires |t| > 0 ==> !Blank(t[0]) && !Blank(t[|t| - 1])
    ensures Strip(t) == t
  {
    assert Lead(t, 0) == 0;
    assert Tail(t, 0, |t|) == |t|;
  }

  /** A tag padded with blanks is still recognised. */
  lemma PaddedTagExample()
    ensures IdentifySoundFormat([0x20, 0x52, 0x4F, 0x4C, 0, 0, 0, 0]) == Roland
  {
    var d: seq<byte> := [0x20, 0x52, 0x4F, 0x4C, 0, 0, 0, 0];
    var a: seq<byte> := [0x20, 0x52, 0x4F, 0x4C];
    assert d[..4] == a;
    AsciiOnlyKeepsAscii(a);
    PaddedStrip();
    assert Tag(d) == TagRol;
  }

  lemma PaddedStrip()
    ensures Strip([0x20, 0x52, 0x4F, 0x4C]) == TagRol
  {
    var a: seq<byte> := [0x20, 0x52, 0x4F, 0x4C];
    assert Lead(a, 0) == 1;
    assert Tail(a, 1, 4) == 4;
    assert a[1..4] == TagRol;
  }

  /** A tag followed by a zero byte is not recognised: 0 is not a
      blank. */
  lemma ZeroAfterTagExample()
    ensures Tag([0x53, 0x50, 0x4B, 0, 1, 2, 3, 4]) == [0x53, 0x50, 0x4B, 0]
  {
    var d: seq<byte> := [0x53, 0x50, 0x4B, 0, 1, 2, 3, 4];
    var b: seq<byte> := [0x53, 0x50, 0x4B, 0];
    assert d[..4] == b;
    AsciiOnlyKeepsAscii(b);
    StripKeeps(b);
  }

  /** Bytes above 0x7F vanish before the comparison. */
  lemma HighByteDroppedExample()
    ensures IdentifySoundFormat([0x41, 0xC4, 0x44, 0x4C, 1, 2, 3, 4]) == AdLib
  {
    var d: seq<byte> := [0x41, 0xC4, 0x44, 0x4C, 1, 2, 3, 4];
    var c: seq<byte> := [0x41, 0xC4, 0x44, 0x4C];
    assert d[..4] == c;
    assert AsciiOnly(c) == TagAdl by {
      AsciiOnlyKeepsAscii(c[2..]);
      assert AsciiOnly(c[1..]) == c[2..];
    }
    StripKeeps(TagAdl);
    assert Tag(d) == TagAdl;
  }

  // ---------------------------------------------------------------------
  // analyze_script_header

  /** The opcodes sampled: bytes 0, 4, 8, .. below `min(50, len)`. */
  function Samples(data: seq<byte>): (s: seq<byte>)
    ensures |s| == (Min(50, |data|) + 3) / 4
    ensures forall k :: 0 <= k < |s| ==> 4 * k < |data| && s[k] == data[4 * k]
  {
    seq((Min(50, |data|) + 3) / 4, k requires 0 <= k < (Min(50, |data|) + 3) / 4 => data[4 * k])
  }

  /** Where `x` first occurs in `s`. */
  function First(s: seq<byte>, x: byte): (i: nat)
    requires x in s
    ensures i < |s| && s[i] == x && forall k :: 0 <= k < i ==> s[k] != x
  {
    if s[0] == x then 0 else 1 + First(s[1..], x)
  }

  /** `opcodes[opcode] = opcodes.get(opcode, 0) + 1`. */
  function Bump(f: seq<(byte, nat)>, x: byte): (g: seq<(byte, nat)>)
    requires KeysDistinct(f)
    ensures (exists i :: 0 <= i < |f| && f[i].0 == x) ==> |g| == |f|
    ensures (forall i :: 0 <= i < |f| ==> f[i].0 != x) ==> g == f + [(x, 1)]
    ensures |g| == |f| ==> forall i :: 0 <= i < |f| ==> g[i].0 == f[i].0 && g[i].1 == f[i].1 + (if f[i].0 == x then 1 else 0)
  {
    if |f| == 0 then [(x, 1)]
    else if f[0].0 == x then [(x, f[0].1 + 1)] + f[1..]
    else [f[0]] + Bump(f[1..], x)
  }

  /** Every key once. */
  predicate KeysDistinct(f: seq<(byte, nat)>)
  {
    forall i, j :: 0 <= i < j < |f| ==> f[i].0 != f[j].0
  }

  /** The frequency table is exact: its keys are distinct, they are the
      sampled values, each with its number of occurrences, listed in
      order of first occurrence. */
  predicate FreqOf(f: seq<(byte, nat)>, s: seq<byte>)
  {
    KeysDistinct(f) && Counted(f, s) && Covers(f, s) && InFirstOrder(f, s)
  }

  predicate Counted(f: seq<(byte, nat)>, s: seq<byte>)
  {
    forall i :: 0 <= i < |f| ==> f[i].0 in s && f[i].1 == Count(s, f[i].0)
  }

  predicate Covers(f: seq<(byte, nat)>, s: seq<byte>)
  {
    forall k :: 0 <= k < |s| ==> exists i :: 0 <= i < |f| && f[i].0 == s[k]
  }

  predicate InFirstOrder(f: seq<(byte, nat)>, s: seq<byte>)
    requires Counted(f, s)
  {
    forall i, j :: 0 <= i < j < |f| ==> First(s, f[i].0) < First(s, f[j].0)
  }

  /** The dict the source builds from the samples, one `Bump` per
      sample. */
  function Freq(s: seq<byte>): seq<(byte, nat)>
  {
    if |s| == 0 then []
    else
      var f := Freq(s[..|s| - 1]);
      if KeysDistinct(f) then Bump(f, s[|s| - 1]) else f
  }

  /** The table is exact for every sample sequence. */
  lemma {:induction false} FreqExact(s: seq<byte>)
    ensures FreqOf(Freq(s), s)
  {
    if |s| > 0 {
      var init, x := s[..|s| - 1], s[|s| - 1];
      assert s == init + [x];
      FreqExact(init);
      BumpExact(Freq(init), init, x);
    }
  }

  /** One more sample keeps the table exact. */
  lemma {:induction false} BumpExact(f: seq<(byte, nat)>, s: seq<byte>, x: byte)
    requires FreqOf(f, s)
    ensures FreqOf(Bump(f, x), s + [x])
  {
    var t := s + [x];
    assert t[..|s|] == s;
    forall y | y in s
      ensures y in t && First(t, y) == First(s, y)
    {
      FirstOfExtension(s, x, y);
    }
    var known := exists i :: 0 <= i < |f| && f[i].0 == x;
    if !known {
      forall k | 0 <= k < |s|
        ensures s[k] != x
      {
        var i :| 0 <= i < |f| && f[i].0 == s[k];
      }
      CountAbsent(s, x);
    }
    BumpKeys(f, s, x);
    BumpCounts(f, s, x);
    BumpCovers(f, s, x);
    BumpOrder(f, s, x);
  }

  lemma {:induction false} BumpKeys(f: seq<(byte, nat)>, s: seq<byte>, x: byte)
    requires FreqOf(f, s)
    requires (forall i :: 0 <= i < |f| ==> f[i].0 != x) ==> x !in s
    ensures KeysDistinct(Bump(f, x))
  {
  }

  lemma {:induction false} BumpCounts(f: seq<(byte, nat)>, s: seq<byte>, x: byte)
    requires FreqOf(f, s)
    requires (s + [x])[..|s|] == s
    requires forall y :: y in s ==> y in s + [x]
    requires (forall i :: 0 <= i < |f| ==> f[i].0 != x) ==> Count(s, x) == 0
    ensures Counted(Bump(f, x), s + [x])
  {
    var t, g := s + [x], Bump(f, x);
    assert t[..|t| - 1] == s;
    forall i | 0 <= i < |g|
      ensures g[i].0 in t && g[i].1 == Count(t, g[i].0)
    {
      var y := g[i].0;
      assert Count(t, y) == Count(s, y) + if x == y then 1 else 0;
      if i < |f| {
        assert y == f[i].0 && f[i].1 == Count(s, y);
      }
    }
  }

  lemma {:induction false} BumpCovers(f: seq<(byte, nat)>, s: seq<byte>, x: byte)
    requires KeysDistinct(f) && Covers(f, s)
    ensures Covers(Bump(f, x), s + [x])
  {
    var t, g := s + [x], Bump(f, x);
    var known := exists i :: 0 <= i < |f| && f[i].0 == x;
    assert |f| <= |g| && forall i :: 0 <= i < |f| ==> g[i].0 == f[i].0 by {
      if !known {
        assert g == f + [(x, 1)];
      }
    }
    forall k | 0 <= k < |t|
      ensures exists i :: 0 <= i < |g| && g[i].0 == t[k]
    {
      if k < |s| {
        assert t[k] == s[k];
        var i :| 0 <= i < |f| && f[i].0 == s[k];
        assert g[i].0 == t[k];
      } else if known {
        var i :| 0 <= i < |f| && f[i].0 == x;
        assert g[i].0 == t[k];
      } else {
        assert g[|f|].0 == t[k];
      }
    }
  }

  lemma {:induction false} BumpOrder(f: seq<(byte, nat)>, s: seq<byte>, x: byte)
    requires KeysDistinct(f) && Counted(f, s) && InFirstOrder(f, s)
    requires forall y :: y in s ==> y in s + [x] && First(s + [x], y) == First(s, y)
    requires (forall i :: 0 <= i < |f| ==> f[i].0 != x) ==> x !in s
    requires Counted(Bump(f, x), s + [x])
    ensures InFirstOrder(Bump(f, x), s + [x])
  {
    var t, g := s + [x], Bump(f, x);
    if forall i :: 0 <= i < |f| ==> f[i].0 != x {
      assert First(t, x) == |s|;
      forall i | 0 <= i < |f|
        ensures First(t, g[i].0) < First(t, x)
      {
        assert g[i].0 in s;
      }
    }
  }

  lemma {:induction false} CountAbsent(s: seq<byte>, x: byte)
    requires x !in s
    ensures Count(s, x) == 0
  {
    if |s| > 0 {
      assert s[..|s| - 1] + [s[|s| - 1]] == s;
      CountAbsent(s[..|s| - 1], x);
    }
  }

  lemma {:induction false} FirstOfExtension(s: seq<byte>, x: byte, y: byte)
    requires y in s
    ensures y in s + [x] && First(s + [x], y) == First(s, y)
  {
    if s[0] != y {
      assert (s + [x])[1..] == s[1..] + [x];
      FirstOfExtension(s[1..], x, y);
    }
  }

  /** Entry `i` comes before entry `j` in a stable sort by descending
      count: a higher count, or the same count and an earlier entry. */
  predicate Beats(f: seq<(byte, nat)>, i: nat, j: nat)
    requires i < |f| && j < |f|
  {
    f[i].1 > f[j].1 || (f[i].1 == f[j].1 && i < j)
  }

  /** The entry among the first `n` not yet chosen that beats all the
      others, if any is left. */
  function Best(f: seq<(byte, nat)>, chosen: seq<nat>, n: nat): (b: Option<nat>)
    requires n <= |f|
    ensures b.Some? ==> b.value < n && b.value !in chosen
    ensures b.Some? ==> forall j :: 0 <= j < n && j !in chosen && j != b.value ==> Beats(f, b.value, j)
    ensures b.None? <==> forall j :: 0 <= j < n ==> j in chosen
  {
    if n == 0 then None
    else
      var r := Best(f, chosen, n - 1);
      if n - 1 in chosen then r
      else if r.None? || f[n - 1].1 > f[r.value].1 then Some(n - 1)
      else r
  }

  /** The indices of the first `k` entries of the stable descending sort
      (`sorted(.., reverse=True)[:k]`), chosen one at a time. */
  function TopIdx(f: seq<(byte, nat)>, k: nat): (idx: seq<nat>)
    ensures |idx| <= k && forall a :: 0 <= a < |idx| ==> idx[a] < |f|
    ensures forall a, b :: 0 <= a < b < |idx| ==> Beats(f, idx[a], idx[b])
    ensures forall a, j :: 0 <= a < |idx| && 0 <= j < |f| && j !in idx ==> Beats(f, idx[a], j)
    ensures |idx| < k ==> forall j :: 0 <= j < |f| ==> j in idx
  {
    if k == 0 then []
    else
      var p := TopIdx(f, k - 1);
      match Best(f, p, |f|)
      case None => p
      case Some(b) => p + [b]
  }

  /** What `analyze_script_header` returns: `{}` for short data, else the
      size, the first byte and up to three `(opcode, count)` pairs. */
  datatype ScriptHeader =
    | NoInfo
    | Info(size: nat, firstOpcode: byte, common: seq<(byte, nat)>)

  /** The opcodes of a list of pairs. */
  function Keys(c: seq<(byte, nat)>): (ks: seq<byte>)
    ensures |ks| == |c| && forall a :: 0 <= a < |c| ==> ks[a] == c[a].0
  {
    seq(|c|, a requires 0 <= a < |c| => c[a].0)
  }

  /** Sample value `x` is listed before `y`: it occurs more often, or as
      often and first occurs earlier. */
  predicate Ranks(s: seq<byte>, x: byte, y: byte)
    requires x in s && y in s
  {
    Count(s, x) > Count(s, y) || (Count(s, x) == Count(s, y) && First(s, x) < First(s, y))
  }

  /** `c` is the first `k` pairs of the sample frequencies sorted by
      descending count, ties in order of first occurrence: each pair is a
      sampled value with its count, the pairs are in rank order, every
      value left out ranks below every value kept, and fewer than `k`
      pairs means no value was left out. */
  predicate TopOf(c: seq<(byte, nat)>, s: seq<byte>, k: nat)
  {
    |c| <= k && TopCounted(c, s) && TopRanked(c, s) && TopAbove(c, s)
    && (|c| < k ==> forall y :: y in s ==> y in Keys(c))
  }

  predicate TopCounted(c: seq<(byte, nat)>, s: seq<byte>)
  {
    forall a :: 0 <= a < |c| ==> c[a].0 in s && c[a].1 == Count(s, c[a].0)
  }

  predicate TopRanked(c: seq<(byte, nat)>, s: seq<byte>)
  {
    forall a, b :: 0 <= a < b < |c| ==> c[a].0 in s && c[b].0 in s && Ranks(s, c[a].0, c[b].0)
  }

  predicate TopAbove(c: seq<(byte, nat)>, s: seq<byte>)
  {
    forall a, y :: 0 <= a < |c| && y in s && y !in Keys(c) ==> c[a].0 in s && Ranks(s, c[a].0, y)
  }

  /** The entries of `f` at the given indices. */
  function Pick(f: seq<(byte, nat)>, idx: seq<nat>): (c: seq<(byte, nat)>)
    requires forall a :: 0 <= a < |idx| ==> idx[a] < |f|
    ensures |c| == |idx| && forall a :: 0 <= a < |idx| ==> c[a] == f[idx[a]]
  {
    seq(|idx|, a requires 0 <= a < |idx| => f[idx[a]])
  }

  /** `analyze_script_header(data)`. */
  function AnalyzeScriptHeader(data: seq<byte>): (r: ScriptHeader)
    ensures r.NoInfo? <==> |data| < 16
    ensures r.Info? ==> r.size == |data| && r.firstOpcode == data[0]
    ensures r.Info? ==> TopOf(r.common, Samples(data), 3)
  {
    if |data| < 16 then NoInfo
    else
      var s := Samples(data);
      var f := Freq(s);
      FreqExact(s);
      TopOfFreq(f, s, 3);
      Info(|data|, data[0], Pick(f, TopIdx(f, 3)))
  }

  /** Choosing from an exact frequency table by `Beats` is choosing by
      rank among the sampled values. */
  lemma {:induction false} TopOfFreq(f: seq<(byte, nat)>, s: seq<byte>, k: nat)
    requires FreqOf(f, s)
    ensures TopOf(Pick(f, TopIdx(f, k)), s, k)
  {
    var idx := TopIdx(f, k);
    TopRankedFreq(f, s, idx);
    TopAboveFreq(f, s, idx);
    if |idx| < k {
      TopAllFreq(f, s, idx);
    }
  }

  /** Between two entries of an exact table, `Beats` is `Ranks`. */
  lemma {:induction false} BeatsRanks(f: seq<(byte, nat)>, s: seq<byte>, i: nat, j: nat)
    requires Counted(f, s) && InFirstOrder(f, s)
    requires i < |f| && j < |f| && i != j && Beats(f, i, j)
    ensures f[i].0 in s && f[j].0 in s && Ranks(s, f[i].0, f[j].0)
  {
    if i > j {
      assert First(s, f[j].0) < First(s, f[i].0);
    }
  }

  lemma {:induction false} TopRankedFreq(f: seq<(byte, nat)>, s: seq<byte>, idx: seq<nat>)
    requires Counted(f, s) && InFirstOrder(f, s)
    requires forall a :: 0 <= a < |idx| ==> idx[a] < |f|
    requires forall a, b :: 0 <= a < b < |idx| ==> Beats(f, idx[a], idx[b])
    ensures TopCounted(Pick(f, idx), s) && TopRanked(Pick(f, idx), s)
  {
    var c := Pick(f, idx);
    forall a, b | 0 <= a < b < |c|
      ensures c[a].0 in s && c[b].0 in s && Ranks(s, c[a].0, c[b].0)
    {
      BeatsRanks(f, s, idx[a], idx[b]);
    }
  }

  lemma {:induction false} TopAboveFreq(f: seq<(byte, nat)>, s: seq<byte>, idx: seq<nat>)
    requires Counted(f, s) && InFirstOrder(f, s) && Covers(f, s)
    requires forall a :: 0 <= a < |idx| ==> idx[a] < |f|
    requires forall a, j :: 0 <= a < |idx| && 0 <= j < |f| && j !in idx ==> Beats(f, idx[a], j)
    ensures TopAbove(Pick(f, idx), s)
  {
    var c := Pick(f, idx);
    forall a, y | 0 <= a < |c| && y in s && y !in Keys(c)
      ensures c[a].0 in s && Ranks(s, c[a].0, y)
    {
      var m :| 0 <= m < |s| && s[m] == y;
      var j :| 0 <= j < |f| && f[j].0 == s[m];
      LeftOut(f, idx, j);
      BeatsRanks(f, s, idx[a], j);
    }
  }

  /** An entry whose key is not among the picked keys was not picked. */
  lemma {:induction false} LeftOut(f: seq<(byte, nat)>, idx: seq<nat>, j: nat)
    requires forall a :: 0 <= a < |idx| ==> idx[a] < |f|
    requires j < |f| && f[j].0 !in Keys(Pick(f, idx))
    ensures j !in idx
  {
    var c := Pick(f, idx);
    forall b | 0 <= b < |idx|
      ensures idx[b] != j
    {
      assert Keys(c)[b] == f[idx[b]].0;
    }
  }

  lemma {:induction false} TopAllFreq(f: seq<(byte, nat)>, s: seq<byte>, idx: seq<nat>)
    requires Covers(f, s)
    requires forall a :: 0 <= a < |idx| ==> idx[a] < |f|
    requires forall j :: 0 <= j < |f| ==> j in idx
    ensures forall y :: y in s ==> y in Keys(Pick(f, idx))
  {
    var c := Pick(f, idx);
    forall y | y in s
      ensures y in Keys(c)
    {
      var m :| 0 <= m < |s| && s[m] == y;
      var j :| 0 <= j < |f| && f[j].0 == s[m];
      assert j in idx;
      var a :| 0 <= a < |idx| && idx[a] == j;
      assert Keys(c)[a] == y;
    }
  }

  /** Samples 1, 2, 2, 3: the repeated opcode first, then the two single
      ones in the order they appear. */
  lemma ScriptHeaderExample()
    ensures AnalyzeScriptHeader([1, 0, 0, 0, 2, 0, 0, 0, 2, 0, 0, 0, 3, 0, 0, 0]) == Info(16, 1, [(2, 2), (1, 1), (3, 1)])
  {
    var data: seq<byte> := [1, 0, 0, 0, 2, 0, 0, 0, 2, 0, 0, 0, 3, 0, 0, 0];
    SamplesExample();
    FreqExample();
    TopIdxExample();
    var f: seq<(byte, nat)> := [(1, 1), (2, 2), (3, 1)];
    var c := Pick(f, [1, 0, 2]);
    assert c[0] == f[1] && c[1] == f[0] && c[2] == f[2];
    assert c == [(2, 2), (1, 1), (3, 1)];
  }

  lemma SamplesExample()
    ensures Samples([1, 0, 0, 0, 2, 0, 0, 0, 2, 0, 0, 0, 3, 0, 0, 0]) == [1, 2, 2, 3]
  {
  }

  lemma FreqExample()
    ensures Freq([1, 2, 2, 3]) == [(1, 1), (2, 2), (3, 1)]
  {
    FreqExample3();
    var s: seq<byte> := [1, 2, 2, 3];
    assert s[..3] == [1, 2, 2];
    assert [(1, 1), (2, 2)][1..] == [(2, 2)] && [(2, 2)][1..] == [];
    assert KeysDistinct([(1, 1), (2, 2)]);
    assert Bump([(2, 2)], 3) == [(2, 2), (3, 1)];
  }

  lemma FreqExample3()
    ensures Freq([1, 2, 2]) == [(1, 1), (2, 2)]
  {
    FreqExample2();
    var s: seq<byte> := [1, 2, 2];
    assert s[..2] == [1, 2];
    assert [(2, 1)][1..] == [] && [(1, 1), (2, 1)][1..] == [(2, 1)];
    assert KeysDistinct([(1, 1), (2, 1)]);
    assert Bump([(2, 1)], 2) == [(2, 2)];
  }

  lemma FreqExample2()
    ensures Freq([1, 2]) == [(1, 1), (2, 1)]
  {
    var s: seq<byte> := [1, 2];
    assert s[..1] == [1] && [1 as byte][..0] == [];
    assert KeysDistinct([]) && KeysDistinct([(1, 1)]);
    assert Freq([1]) == [(1, 1)];
  }

  lemma TopIdxExample()
    ensures TopIdx([(1, 1), (2, 2), (3, 1)], 3) == [1, 0, 2]
  {
    var f: seq<(byte, nat)> := [(1, 1), (2, 2), (3, 1)];
    assert Best(f, [], 3) == Some(1);
    assert TopIdx(f, 1) == [1];
    assert Best(f, [1], 3) == Some(0);
    assert TopIdx(f, 2) == [1, 0];
    assert Best(f, [1, 0], 3) == Some(2);
  }
}
