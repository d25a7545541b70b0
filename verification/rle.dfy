/** The byte-oriented run-length stream of `ScummV3Decoder.decompressRLE`:
    a control byte with the top bit set repeats the next byte
    `(code & 0x7F) + 1` times, any other control byte is followed by
    `code + 1` literal bytes.  Decoding stops at the end of the data or, at
    a packet boundary, once `maxSize` bytes have been produced. */
module Rle {
  import opened Bytes

  /** One packet of the stream. */
  datatype Packet = Repeat(count: nat, value: byte) | Literal(bytes: seq<byte>)

  /** A packet an encoder can emit: 1 to 128 output bytes. */
  predicate ValidPacket(p: Packet)
  {
    match p
    case Repeat(n, _) => 1 <= n <= 128
    case Literal(bs) => 1 <= |bs| <= 128
  }

  /** Every packet of `ps` is valid. */
  predicate ValidPackets(ps: seq<Packet>)
  {
    |ps| == 0 || (ValidPacket(ps[0]) && ValidPackets(ps[1..]))
  }

  /** The bytes one packet stands for. */
  function Output(p: Packet): (out: seq<byte>)
    ensures ValidPacket(p) ==> 1 <= |out| <= 128
  {
    match p
    case Repeat(n, v) => Copies(n, v)
    case Literal(bs) => bs
  }

  /** `n` copies of `v`. */
  function Copies(n: nat, v: byte): (s: seq<byte>)
    ensures |s| == n && forall i :: 0 <= i < n ==> s[i] == v
  {
    seq(n, _ => v)
  }

  /** The bytes a packet sequence stands for. */
  function Expand(ps: seq<Packet>): (out: seq<byte>)
    ensures ValidPackets(ps) ==> |ps| <= |out|
  {
    if |ps| == 0 then [] else Output(ps[0]) + Expand(ps[1..])
  }

  /** The control byte and payload of one packet. */
  function EncodePacket(p: Packet): (b: seq<byte>)
    requires ValidPacket(p)
    ensures |b| >= 2
  {
    match p
    case Repeat(n, v) => [0x80 + n - 1, v]
    case Literal(bs) => [|bs| - 1] + bs
  }

  function Encode(ps: seq<Packet>): (b: seq<byte>)
    requires ValidPackets(ps)
    ensures |ps| > 0 ==> |b| > 0
  {
    if |ps| == 0 then [] else EncodePacket(ps[0]) + Encode(ps[1..])
  }

  /** The packet at `off` as the decoder reads it: the bytes it produces and
      the offset after it.  A repeat packet whose value byte is missing
      repeats 0; a literal packet cut short by the end of the data copies
      what is there. */
  function Step(data: seq<byte>, off: nat): (r: (seq<byte>, nat))
    requires off < |data|
    ensures off < r.1 <= |data|
    ensures |r.0| <= 128
  {
    var code := data[off];
    if code >= 0x80 then
      var count := code - 0x80 + 1;
      if off + 1 < |data| then (Copies(count, data[off + 1]), off + 2)
      else (Copies(count, 0), off + 1)
    else
      var n := Min(code + 1, |data| - (off + 1));
      (data[off + 1 .. off + 1 + n], off + 1 + n)
  }

  /** The decoding loop from `off` with `acc` produced so far. */
  function DecompressFrom(data: seq<byte>, off: nat, maxSize: nat, acc: seq<byte>): (r: seq<byte>)
    requires off <= |data|
    decreases |data| - off
    ensures |acc| <= |r|
    ensures |acc| < maxSize + 128 ==> |r| < maxSize + 128
  {
    if off >= |data| || |acc| >= maxSize then acc
    else
      var (out, next) := Step(data, off);
      DecompressFrom(data, next, maxSize, acc + out)
  }

  /** `decompressRLE(data, maxSize)`: the loop only tests the limit before
      a packet, so the result can overshoot it by less than one packet. */
  function DecompressRle(data: seq<byte>, maxSize: nat): (r: seq<byte>)
    ensures |r| < maxSize + 128
    ensures maxSize == 0 || |data| == 0 ==> r == []
  {
    DecompressFrom(data, 0, maxSize, [])
  }

  lemma {:induction false} DecompressFromPrefix(data: seq<byte>, off: nat, m1: nat, m2: nat, acc: seq<byte>)
    requires off <= |data| && m1 <= m2
    ensures var r1, r2 := DecompressFrom(data, off, m1, acc), DecompressFrom(data, off, m2, acc);
      |r1| <= |r2| && r2[..|r1|] == r1
    decreases |data| - off
  {
    if off >= |data| || |acc| >= m2 {
    } else if |acc| >= m1 {
      DecompressFromExtends(data, off, m2, acc);
    } else {
      var (out, next) := Step(data, off);
      DecompressFromPrefix(data, next, m1, m2, acc + out);
    }
  }

  /** The loop only appends to what it has produced. */
  lemma {:induction false} DecompressFromExtends(data: seq<byte>, off: nat, maxSize: nat, acc: seq<byte>)
    requires off <= |data|
    ensures DecompressFrom(data, off, maxSize, acc)[..|acc|] == acc
    decreases |data| - off
  {
    if off >= |data| || |acc| >= maxSize {
    } else {
      var (out, next) := Step(data, off);
      DecompressFromExtends(data, next, maxSize, acc + out);
      var r := DecompressFrom(data, next, maxSize, acc + out);
      assert r[..|acc|] == r[..|acc + out|][..|acc|];
    }
  }

  /** A smaller limit gives a prefix of what a larger one gives. */
  lemma DecompressRlePrefix(data: seq<byte>, m1: nat, m2: nat)
    requires m1 <= m2
    ensures |DecompressRle(data, m1)| <= |DecompressRle(data, m2)|
    ensures DecompressRle(data, m2)[..|DecompressRle(data, m1)|] == DecompressRle(data, m1)
  {
    DecompressFromPrefix(data, 0, m1, m2, []);
  }

  lemma StepPacket(data: seq<byte>, off: nat, p: Packet)
    requires ValidPacket(p) && off + |EncodePacket(p)| <= |data|
    requires data[off .. off + |EncodePacket(p)|] == EncodePacket(p)
    ensures Step(data, off) == (Output(p), off + |EncodePacket(p)|)
  {
    var e := EncodePacket(p);
    assert data[off] == e[0];
    assert data[off + 1] == e[1];
    match p
    case Repeat(n, v) =>
    case Literal(bs) =>
      assert data[off + 1 .. off + 1 + |bs|] == e[1..] == bs;
  }

  /** The bytes of `Encode(ps)` at `off` split into the first packet and the
      rest. */
  lemma EncodeAt(data: seq<byte>, off: nat, ps: seq<Packet>)
    requires ValidPackets(ps) && |ps| > 0 && off <= |data| && data[off..] == Encode(ps)
    ensures off + |EncodePacket(ps[0])| <= |data|
    ensures data[off .. off + |EncodePacket(ps[0])|] == EncodePacket(ps[0])
    ensures data[off + |EncodePacket(ps[0])| ..] == Encode(ps[1..])
  {
    var e, t := EncodePacket(ps[0]), Encode(ps[1..]);
    var d := data[off..];
    assert d == e + t;
    assert d[..|e|] == e && d[|e|..] == t;
    assert data[off .. off + |e|] == d[..|e|];
    assert data[off + |e| ..] == d[|e|..];
  }

  lemma {:induction false} DecompressFromEncode(data: seq<byte>, off: nat, ps: seq<Packet>, maxSize: nat, acc: seq<byte>)
    requires ValidPackets(ps) && off <= |data| && data[off..] == Encode(ps)
    requires |acc| + |Expand(ps)| <= maxSize
    ensures DecompressFrom(data, off, maxSize, acc) == acc + Expand(ps)
    decreases |ps|
  {
    if |ps| == 0 {
      assert |data[off..]| == 0;
    } else {
      var next := EncodedStep(data, off, ps, maxSize, acc);
      DecompressFromEncode(data, next, ps[1..], maxSize, acc + Output(ps[0]));
    }
  }

  /** One packet of an encoded stream decoded: the loop moves past it with
      its output appended, and the rest of the stream encodes the other
      packets. */
  lemma EncodedStep(data: seq<byte>, off: nat, ps: seq<Packet>, maxSize: nat, acc: seq<byte>) returns (next: nat)
    requires ValidPackets(ps) && |ps| > 0 && off <= |data| && data[off..] == Encode(ps)
    requires |acc| + |Expand(ps)| <= maxSize
    ensures next <= |data| && ValidPackets(ps[1..]) && data[next..] == Encode(ps[1..])
    ensures |acc + Output(ps[0])| + |Expand(ps[1..])| <= maxSize
    ensures acc + Output(ps[0]) + Expand(ps[1..]) == acc + Expand(ps)
    ensures DecompressFrom(data, off, maxSize, acc) == DecompressFrom(data, next, maxSize, acc + Output(ps[0]))
  {
    var p := ps[0];
    ExpandFirst(ps);
    EncodeAt(data, off, ps);
    StepPacket(data, off, p);
    next := off + |EncodePacket(p)|;
    DecompressFromStep(data, off, maxSize, acc, Output(p), next);
    Assoc(acc, Output(p), Expand(ps[1..]));
  }

  lemma DecompressFromStep(data: seq<byte>, off: nat, maxSize: nat, acc: seq<byte>, out: seq<byte>, next: nat)
    requires off < |data| && |acc| < maxSize && Step(data, off) == (out, next)
    ensures next <= |data|
    ensures DecompressFrom(data, off, maxSize, acc) == DecompressFrom(data, next, maxSize, acc + out)
  {
  }

  lemma Assoc(a: seq<byte>, b: seq<byte>, c: seq<byte>)
    ensures (a + b) + c == a + (b + c)
  {
  }

  lemma ExpandFirst(ps: seq<Packet>)
    requires ValidPackets(ps) && |ps| > 0
    ensures Expand(ps) == Output(ps[0]) + Expand(ps[1..])
    ensures |Output(ps[0])| >= 1
  {
  }

  /** Decompressing an encoded packet sequence, with a limit no smaller
      than its output, gives back that output. */
  lemma DecompressRleRoundTrip(ps: seq<Packet>, maxSize: nat)
    requires ValidPackets(ps) && |Expand(ps)| <= maxSize
    ensures DecompressRle(Encode(ps), maxSize) == Expand(ps)
  {
    DecompressFromEncode(Encode(ps), 0, ps, maxSize, []);
  }
}
