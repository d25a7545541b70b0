/** Byte-level primitives shared by every decoder: the byte type, an Option
    datatype, little-endian and big-endian words, Python-style slicing and
    the XOR 0xFF de-obfuscation applied to every LFL file. */
module Bytes {

  /** One byte of a resource file (a Uint8Array / bytes element). */
  type byte = b: int | 0 <= b < 256

  datatype Option<T> = None | Some(value: T)

  /** The little-endian 16-bit word `data[pos] | data[pos + 1] << 8`. */
  function U16(data: seq<byte>, pos: nat): (w: nat)
    requires pos + 1 < |data|
    ensures w < 0x1_0000
    ensures w % 256 == data[pos] && w / 256 == data[pos + 1]
  {
    data[pos] as int + 256 * data[pos + 1] as int
  }

  /** Two bytes `v & 0xFF, (v >> 8) & 0xFF`; `&` and `>>` on a negative
      JavaScript or Python integer act on its two's complement, which is
      what Dafny's Euclidean `/` and `%` compute for a positive divisor. */
  function Le16(v: int): (b: seq<byte>)
    ensures |b| == 2
  {
    [v % 256, (v / 256) % 256]
  }

  lemma {:induction false} Le16RoundTrip(v: int)
    ensures U16(Le16(v), 0) == v % 0x1_0000
  {
    var lo := v % 256;
    var q := v / 256;
    assert v == 256 * q + lo;
    assert q == 256 * (q / 256) + q % 256;
    assert v == 0x1_0000 * (q / 256) + (256 * (q % 256) + lo);
  }

  /** `struct.pack('>H', v)`. */
  function Be16(v: nat): (b: seq<byte>)
    requires v < 0x1_0000
    ensures |b| == 2 && 256 * b[0] as int + b[1] as int == v
  {
    [v / 256, v % 256]
  }

  /** `struct.pack('>I', v)`. */
  function Be32(v: nat): (b: seq<byte>)
    requires v < 0x1_0000_0000
    ensures |b| == 4
    ensures Be32Value(b) == v
  {
    var hi, lo := Be16(v / 0x1_0000), Be16(v % 0x1_0000);
    assert v == 0x1_0000 * (v / 0x1_0000) + v % 0x1_0000;
    hi + lo
  }

  function Be32Value(b: seq<byte>): nat
    requires |b| == 4
  {
    0x100_0000 * b[0] as int + 0x1_0000 * b[1] as int + 256 * b[2] as int + b[3] as int
  }

  /** Python's `data[a:b]` (and JavaScript's `slice`) for indices already
      within the data: a reversed range gives the empty slice. */
  function Slice(data: seq<byte>, a: nat, b: nat): (s: seq<byte>)
    requires a <= |data| && b <= |data|
    ensures a <= b ==> s == data[a..b]
    ensures b <= a ==> s == []
  {
    if a <= b then data[a..b] else []
  }

  /** Python's `data[a:b]` for arbitrary non-negative indices: both ends are
      clamped to the length first. */
  function ClampedSlice(data: seq<byte>, a: nat, b: nat): (s: seq<byte>)
    ensures |s| == if Min(b, |data|) <= Min(a, |data|) then 0 else Min(b, |data|) - a
    ensures forall k :: 0 <= k < |s| ==> s[k] == data[a + k]
  {
    Slice(data, Min(a, |data|), Min(b, |data|))
  }

  function Min(a: int, b: int): int { if a <= b then a else b }

  function Max(a: int, b: int): int { if a <= b then b else a }

  /** `xorDecrypt` / `xor_decrypt`: every byte complemented with 0xFF. */
  function XorDecrypt(data: seq<byte>): (r: seq<byte>)
    ensures |r| == |data|
    ensures forall i :: 0 <= i < |data| ==> r[i] as int + data[i] as int == 0xFF
  {
    seq(|data|, i requires 0 <= i < |data| => 0xFF - data[i])
  }

  lemma XorDecryptInvolution(data: seq<byte>)
    ensures XorDecrypt(XorDecrypt(data)) == data
  {
  }

  /** How often `x` occurs in `s` (`s.count(x)`). */
  function Count<T(==)>(s: seq<T>, x: T): (n: nat)
    ensures n <= |s|
  {
    if |s| == 0 then 0 else Count(s[..|s| - 1], x) + (if s[|s| - 1] == x then 1 else 0)
  }

  /** Number of zero bytes (`data.count(0)`). */
  function CountZero(data: seq<byte>): (n: nat)
    ensures n <= |data|
  {
    if |data| == 0 then 0 else CountZero(data[..|data| - 1]) + (if data[|data| - 1] == 0 then 1 else 0)
  }

  /** Number of non-zero bytes (`sum(1 for b in data if b != 0)`). */
  function CountNonZero(data: seq<byte>): (n: nat)
    ensures n + CountZero(data) == |data|
  {
    if |data| == 0 then 0 else CountNonZero(data[..|data| - 1]) + (if data[|data| - 1] != 0 then 1 else 0)
  }

  predicate AllZero(data: seq<byte>)
  {
    forall k :: 0 <= k < |data| ==> data[k] == 0
  }

  /** Strictly increasing sequence of offsets. */
  predicate Increasing(s: seq<int>)
  {
    forall i, j :: 0 <= i < j < |s| ==> s[i] < s[j]
  }

  /** ASCII text as bytes (used for chunk tags such as "MThd"). */
  function Ascii(s: string): (b: seq<byte>)
    requires forall k :: 0 <= k < |s| ==> s[k] as int < 128
    ensures |b| == |s|
    ensures forall k :: 0 <= k < |s| ==> b[k] == s[k] as int
  {
    seq(|s|, k requires 0 <= k < |s| => s[k] as int)
  }

  /** Where the bytes `data[off .. end]` are `e` followed by `t`, `e` sits
      at `off` and `t` right after it. */
  lemma SplitAt(data: seq<byte>, off: nat, end: nat, e: seq<byte>, t: seq<byte>)
    requires off <= end <= |data| && data[off .. end] == e + t
    ensures off + |e| <= end
    ensures data[off .. off + |e|] == e && data[off + |e| .. end] == t
  {
    var d := data[off .. end];
    assert d[..|e|] == e && d[|e|..] == t;
    assert data[off .. off + |e|] == d[..|e|];
    assert data[off + |e| .. end] == d[|e|..];
  }

  /** The two halves of a concatenation, cut where the first ends. */
  lemma Cut(d: seq<byte>, e: seq<byte>, t: seq<byte>)
    requires d == e + t
    ensures d[..|e|] == e && d[|e|..] == t
  {
  }
}
