/** The strip offset tables every image reader starts with: a run of
    little-endian words at a fixed position, read until a word is zero, out
    of range, or (for some readers) not larger than the previous one.  One
    `Policy` value describes each reader's rules. */
module OffsetTable {
  import opened Bytes

  /** The rules of one table reader. */
  datatype Policy = Policy(
    base: nat,              // position of the first word
    maxEntries: nat,        // words read at most
    skipLeadingZero: bool,  // a zero first word is skipped instead of ending the table
    bias: nat,              // added to every word (tables relative to a block start)
    minOffset: nat,         // an offset below this ends the table
    increasing: bool)       // an offset not above the previous one ends the table

  /** Word `i` with the bias added, when its two bytes are in the data. */
  function RawEntry(data: seq<byte>, pol: Policy, i: nat): (e: Option<nat>)
    ensures e.Some? <==> pol.base + 2 * i + 1 < |data|
    ensures e.Some? ==> e.value == pol.bias + U16(data, pol.base + 2 * i)
  {
    if pol.base + 2 * i + 1 < |data| then Some(pol.bias + U16(data, pol.base + 2 * i)) else None
  }

  /** Whether word `i` is taken as an offset after the offset `prev` (if
      any): present, non-zero, inside the data, not below the minimum and,
      when required, above `prev`. */
  predicate Accepts(data: seq<byte>, pol: Policy, i: nat, prev: Option<nat>)
  {
    RawEntry(data, pol, i).Some?
    && U16(data, pol.base + 2 * i) != 0
    && RawEntry(data, pol, i).value < |data|
    && RawEntry(data, pol, i).value >= pol.minOffset
    && (pol.increasing && prev.Some? ==> RawEntry(data, pol, i).value > prev.value)
  }

  /** 1 when the reader skips a zero first word, else 0. */
  function Skip(data: seq<byte>, pol: Policy): nat
  {
    if pol.skipLeadingZero && pol.maxEntries > 0 && pol.base + 1 < |data| && U16(data, pol.base) == 0 then 1 else 0
  }

  function Last(s: seq<nat>): Option<nat>
  {
    if |s| == 0 then None else Some(s[|s| - 1])
  }

  /** The reading loop from word `i` with the offsets `acc` already taken. */
  function ReadFrom(data: seq<byte>, pol: Policy, i: nat, acc: seq<nat>): (r: seq<nat>)
    decreases pol.maxEntries - i
    ensures |acc| <= |r| && r[..|acc|] == acc
    ensures |r| - |acc| <= pol.maxEntries - i || (|r| == |acc| && i >= pol.maxEntries)
    ensures forall k :: |acc| <= k < |r| ==> pol.minOffset <= r[k] < |data| && r[k] > pol.bias
    ensures pol.increasing && Increasing(acc) ==> Increasing(r)
  {
    if i >= pol.maxEntries then acc
    else if pol.base + 2 * i + 1 >= |data| then acc
    else
      var w := U16(data, pol.base + 2 * i);
      if w == 0 then
        if i == 0 && pol.skipLeadingZero then ReadFrom(data, pol, i + 1, acc) else acc
      else
        var e := pol.bias + w;
        if e >= |data| || e < pol.minOffset then acc
        else if pol.increasing && |acc| > 0 && e <= acc[|acc| - 1] then acc
        else ReadFrom(data, pol, i + 1, acc + [e])
  }

  /** The offsets a reader with policy `pol` takes from `data`. */
  function ReadTable(data: seq<byte>, pol: Policy): (r: seq<nat>)
    ensures |r| <= pol.maxEntries
    ensures forall k :: 0 <= k < |r| ==> pol.minOffset <= r[k] < |data| && r[k] > pol.bias
    ensures pol.increasing ==> Increasing(r)
  {
    ReadFrom(data, pol, 0, [])
  }

  /** Offset `k` of `acc` is the biased word `k` after the skipped zero
      word, accepted after offset `k - 1`. */
  predicate Good(data: seq<byte>, pol: Policy, acc: seq<nat>, k: nat)
    requires k < |acc|
  {
    Accepts(data, pol, k + Skip(data, pol), if k == 0 then None else Some(acc[k - 1]))
    && Some(acc[k]) == RawEntry(data, pol, k + Skip(data, pol))
  }

  /** The loop invariant of the reader: `acc` are the accepted words
      before word `i`. */
  predicate Taken(data: seq<byte>, pol: Policy, i: nat, acc: seq<nat>)
  {
    (if i == 0 then acc == [] else i == |acc| + Skip(data, pol))
    && forall k :: 0 <= k < |acc| ==> Good(data, pol, acc, k)
  }

  lemma TakenExtend(data: seq<byte>, pol: Policy, i: nat, acc: seq<nat>, e: nat)
    requires Taken(data, pol, i, acc) && (i == |acc| + Skip(data, pol))
    requires Accepts(data, pol, i, Last(acc)) && RawEntry(data, pol, i) == Some(e)
    ensures Taken(data, pol, i + 1, acc + [e])
  {
    var acc' := acc + [e];
    forall k | 0 <= k < |acc'|
      ensures Good(data, pol, acc', k)
    {
      if k < |acc| {
        assert Good(data, pol, acc, k);
        assert acc'[k] == acc[k];
        if k > 0 {
          assert acc'[k - 1] == acc[k - 1];
        }
      }
    }
  }

  /** When word `i` ends the loop, the offsets taken so far are the result
      and word `i` is not accepted. */
  lemma ReadFromStops(data: seq<byte>, pol: Policy, i: nat, acc: seq<nat>)
    requires Taken(data, pol, i, acc) && i < pol.maxEntries && !(i == 0 && Skip(data, pol) == 1)
    requires !Accepts(data, pol, i, Last(acc))
    ensures ReadFrom(data, pol, i, acc) == acc
    ensures Exact(data, pol, acc)
  {
  }

  predicate Exact(data: seq<byte>, pol: Policy, r: seq<nat>)
  {
    Taken(data, pol, |r| + Skip(data, pol), r)
    && (|r| + Skip(data, pol) < pol.maxEntries ==> !Accepts(data, pol, |r| + Skip(data, pol), Last(r)))
  }

  lemma {:induction false} ReadFromExact(data: seq<byte>, pol: Policy, i: nat, acc: seq<nat>)
    requires Taken(data, pol, i, acc)
    ensures Exact(data, pol, ReadFrom(data, pol, i, acc))
    decreases pol.maxEntries - i, 1
  {
    var s := Skip(data, pol);
    if i == 0 && s == 1 {
      assert ReadFrom(data, pol, 0, acc) == ReadFrom(data, pol, 1, acc);
      ReadFromExact(data, pol, 1, acc);
    } else if i >= pol.maxEntries {
      assert ReadFrom(data, pol, i, acc) == acc;
    } else if !Accepts(data, pol, i, Last(acc)) {
      ReadFromStops(data, pol, i, acc);
    } else {
      ReadFromStep(data, pol, i, acc);
    }
  }

  lemma {:induction false} ReadFromStep(data: seq<byte>, pol: Policy, i: nat, acc: seq<nat>)
    requires Taken(data, pol, i, acc) && i < pol.maxEntries && !(i == 0 && Skip(data, pol) == 1)
    requires Accepts(data, pol, i, Last(acc))
    ensures Exact(data, pol, ReadFrom(data, pol, i, acc))
    decreases pol.maxEntries - i, 0
  {
    var e := RawEntry(data, pol, i).value;
    assert ReadFrom(data, pol, i, acc) == ReadFrom(data, pol, i + 1, acc + [e]);
    TakenExtend(data, pol, i, acc, e);
    ReadFromExact(data, pol, i + 1, acc + [e]);
  }

  /** The table read is exactly the longest run of accepted words after the
      skipped zero word (if any): every offset is the biased word at its
      index, accepted after its predecessor, and the word after the last
      one is not accepted unless `maxEntries` words were read. */
  lemma ReadTableExact(data: seq<byte>, pol: Policy)
    ensures forall k :: 0 <= k < |ReadTable(data, pol)| ==> Good(data, pol, ReadTable(data, pol), k)
    ensures var r := ReadTable(data, pol);
      |r| + Skip(data, pol) < pol.maxEntries ==> !Accepts(data, pol, |r| + Skip(data, pol), Last(r))
  {
    ReadFromExact(data, pol, 0, []);
  }

  /** Word `i` is accepted after `want[i - 1]` and is `want[i]`. */
  predicate TakesAt(data: seq<byte>, pol: Policy, want: seq<nat>, i: nat)
    requires i < |want|
  {
    RawEntry(data, pol, i) == Some(want[i]) && Accepts(data, pol, i, if i == 0 then None else Some(want[i - 1]))
  }

  /** A reader that skips nothing and accepts each of its `maxEntries`
      words after the one before returns exactly those words. */
  lemma ReadTableAll(data: seq<byte>, pol: Policy, want: seq<nat>)
    requires !pol.skipLeadingZero && |want| == pol.maxEntries
    requires forall i :: 0 <= i < |want| ==> TakesAt(data, pol, want, i)
    ensures ReadTable(data, pol) == want
  {
    ReadFromAll(data, pol, want, 0);
    assert want[..0] == [];
  }

  lemma {:induction false} ReadFromAll(data: seq<byte>, pol: Policy, want: seq<nat>, i: nat)
    requires !pol.skipLeadingZero && |want| == pol.maxEntries && i <= |want|
    requires forall i :: 0 <= i < |want| ==> TakesAt(data, pol, want, i)
    ensures ReadFrom(data, pol, i, want[..i]) == want
    decreases |want| - i
  {
    if i < |want| {
      assert TakesAt(data, pol, want, i);
      assert want[..i] + [want[i]] == want[..i + 1];
      ReadFromAll(data, pol, want, i + 1);
    } else {
      assert want[..i] == want;
    }
  }

  /** Reading at most `m` words instead of `maxEntries` gives a prefix of
      the longer table, and the same table when it stops before the `m`-th
      word. */
  lemma ReadTableShorter(data: seq<byte>, pol: Policy, m: nat)
    requires !pol.skipLeadingZero && m <= pol.maxEntries
    ensures var short := ReadTable(data, pol.(maxEntries := m));
      |short| <= |ReadTable(data, pol)| && short == ReadTable(data, pol)[..|short|]
      && (|short| < m ==> short == ReadTable(data, pol))
  {
    ReadFromShorter(data, pol, m, 0, []);
  }

  lemma {:induction false} ReadFromShorter(data: seq<byte>, pol: Policy, m: nat, i: nat, acc: seq<nat>)
    requires !pol.skipLeadingZero && m <= pol.maxEntries && i <= m
    ensures ShorterPrefix(data, pol, m, i, acc)
    decreases m - i
  {
    if i == m || !Accepts(data, pol, i, Last(acc)) {
      ShorterEnds(data, pol, m, i, acc);
    } else {
      var acc' := acc + [RawEntry(data, pol, i).value];
      ReadFromShorter(data, pol, m, i + 1, acc');
      ShorterTakes(data, pol, m, i, acc);
    }
  }

  /** The shorter reader from word `i` gives a prefix of the longer one,
      and all of it when it stops before its limit. */
  predicate ShorterPrefix(data: seq<byte>, pol: Policy, m: nat, i: nat, acc: seq<nat>)
  {
    var short := ReadFrom(data, pol.(maxEntries := m), i, acc);
    var long := ReadFrom(data, pol, i, acc);
    |short| <= |long| && short == long[..|short|]
    && (|short| - |acc| < m - i ==> short == long)
  }

  /** At the shorter reader's limit, or at a word neither reader accepts,
      the shorter one stops where it is. */
  lemma ShorterEnds(data: seq<byte>, pol: Policy, m: nat, i: nat, acc: seq<nat>)
    requires !pol.skipLeadingZero && m <= pol.maxEntries && i <= m
    requires i == m || !Accepts(data, pol, i, Last(acc))
    ensures ShorterPrefix(data, pol, m, i, acc)
  {
    var pol' := pol.(maxEntries := m);
    var long := ReadFrom(data, pol, i, acc);
    if i < m {
      ReadFromTurn(data, pol', i, acc);
      ReadFromTurn(data, pol, i, acc);
    } else {
      assert ReadFrom(data, pol', i, acc) == acc == long[..|acc|];
    }
  }

  /** An accepted word is taken by both readers. */
  lemma ShorterTakes(data: seq<byte>, pol: Policy, m: nat, i: nat, acc: seq<nat>)
    requires !pol.skipLeadingZero && m <= pol.maxEntries && i < m && Accepts(data, pol, i, Last(acc))
    requires ShorterPrefix(data, pol, m, i + 1, acc + [RawEntry(data, pol, i).value])
    ensures ShorterPrefix(data, pol, m, i, acc)
  {
    ReadFromTurn(data, pol.(maxEntries := m), i, acc);
    ReadFromTurn(data, pol, i, acc);
  }

  /** One turn of a reader that skips nothing: an accepted word is taken
      and the loop goes on, any other word ends it. */
  lemma ReadFromTurn(data: seq<byte>, pol: Policy, i: nat, acc: seq<nat>)
    requires !pol.skipLeadingZero && i < pol.maxEntries
    ensures Accepts(data, pol, i, Last(acc)) ==>
      ReadFrom(data, pol, i, acc) == ReadFrom(data, pol, i + 1, acc + [RawEntry(data, pol, i).value])
    ensures !Accepts(data, pol, i, Last(acc)) ==> ReadFrom(data, pol, i, acc) == acc
  {
  }

  /** The SMAP strip table of a room: the words after the block's 2-byte
      size field, each relative to the block start at `smap`, ending at a
      zero word or one pointing past the data; there is no order check. */
  function SmapPolicy(smap: nat, maxEntries: nat): (pol: Policy)
    ensures pol.base == smap + 2 && pol.bias == smap && pol.maxEntries == maxEntries
    ensures !pol.skipLeadingZero && !pol.increasing && pol.minOffset == 0
  {
    Policy(smap + 2, maxEntries, false, smap, 0, false)
  }
}
