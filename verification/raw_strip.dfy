/** The plane-by-plane strip layout read by
    `ScummV3Decoder.decodeStripV3Safe`, and the headerless "raw" image
    format (`decodeRawFormat`) that decodes forty such strips one after the
    other.

    A strip is 32 columns of bits, plane 0 column 0 first: column `k`
    holds bit `k / 8` of the palette index of pixel column `k % 8`, one bit
    per pixel row.  Each column is a run-length stream: a control byte with
    the top bit set repeats bit `7 - col` of the next byte
    `(code & 0x7F) + 1` times, any other control byte is followed by
    `code + 1` bytes, each giving one row its bit `7 - col`.  A column ends
    when it is `h` bits long; a packet that would overrun it is cut short,
    and the rest of a cut literal packet is read as the next column's
    control byte.

    The decoder reads the bytes `data[start .. lim]` in place;
    `decodeStripV3Safe` is the window that spans all of its data. */
module RawStrip {
  import opened Bytes
  import opened Bits
  import opened EgaStrip
  import opened Canvas

  predicate AllBits(s: seq<nat>)
  {
    forall i :: 0 <= i < |s| ==> IsBit(s[i])
  }

  /** `n` copies of bit `b`. */
  function Fill(n: nat, b: nat): (s: seq<nat>)
    ensures |s| == n && forall i :: 0 <= i < n ==> s[i] == b
  {
    seq(n, _ => b)
  }

  /** Bit `7 - col` of each of the `m` bytes of a literal packet at
      `from`. */
  function ColumnBits(data: seq<byte>, from: nat, m: nat, col: nat): (s: seq<nat>)
    requires col < 8 && from + m <= |data|
    ensures |s| == m
    ensures forall i :: 0 <= i < m ==> s[i] == ByteBit(data[from + i], col)
  {
    seq<nat>(m, i requires 0 <= i < m => ByteBit(data[from + i], col))
  }

  /** Bit `7 - col` of `b`: the bit of pixel column `col`. */
  function ByteBit(b: byte, col: nat): (r: nat)
    requires col < 8
    ensures IsBit(r)
  {
    Bit(b, 7 - col)
  }

  /** The bits read into one column and the offset after them. */
  datatype Column = Column(bits: seq<nat>, next: nat)

  /** The column loop of `decodeStripV3Safe` from `off`, reading no further
      than `lim`, with the bits `got` already read.  A repeat packet whose
      value byte is missing ends the whole strip (the `break` leaves the
      offset at the end of the data). */
  function ColumnFrom(data: seq<byte>, lim: nat, off: nat, col: nat, h: nat, got: seq<nat>): (c: Column)
    requires col < 8 && off <= lim <= |data| && |got| <= h
    decreases lim - off
    ensures off <= c.next <= lim
    ensures |got| <= |c.bits| <= h
    ensures |got| < h && off < lim ==> off < c.next
    ensures off < c.next ==> |got| < h
    ensures |c.bits| < h ==> c.next == lim
  {
    if |got| >= h || off >= lim then Column(got, off)
    else
      var code := data[off];
      if code >= 0x80 then
        if off + 1 >= lim then Column(got, off + 1)
        else
          var m := Min(code - 0x80 + 1, h - |got|);
          ColumnFrom(data, lim, off + 2, col, h, got + Fill(m, ByteBit(data[off + 1], col)))
      else
        var m := Min(Min(code + 1, h - |got|), lim - (off + 1));
        ColumnFrom(data, lim, off + 1 + m, col, h, got + ColumnBits(data, off + 1, m, col))
  }

  /** The columns of a strip and the offset after the last one. */
  datatype Columns = Columns(cols: seq<seq<nat>>, next: nat)

  /** The plane and column loops: column `k` is column `k % 8` of plane
      `k / 8`; both loops stop once the data is used up. */
  function StripFrom(data: seq<byte>, lim: nat, h: nat, k: nat, off: nat, cols: seq<seq<nat>>): (r: Columns)
    requires k <= 32 && |cols| == k && off <= lim <= |data|
    decreases 32 - k
    ensures k <= |r.cols| <= 32
    ensures off <= r.next <= lim
    ensures h == 0 ==> r.next == off
  {
    if k == 32 || off >= lim then Columns(cols, off)
    else
      var c := ColumnFrom(data, lim, off, k % 8, h, []);
      StripFrom(data, lim, h, k + 1, c.next, cols + [c.bits])
  }

  /** Bit `y` of column `j`, or 0 where nothing was decoded (the planes
      start zero-filled).  The decoder only ever stores 0 and 1. */
  function ColumnBit(cols: seq<seq<nat>>, j: nat, y: nat): (b: nat)
    ensures IsBit(b)
  {
    if j < |cols| && y < |cols[j]| && cols[j][y] == 1 then 1 else 0
  }

  /** The pixels of the strip: the palette index of pixel (`c`, `y`) has
      bit `p` from column `8 * p + c`. */
  function Assemble(cols: seq<seq<nat>>, h: nat): (block: Strip)
    ensures IsStrip(block, h) && Nibbles(block)
  {
    seq(h, y requires 0 <= y < h => seq(8, c requires 0 <= c < 8 =>
      Combine(ColumnBit(cols, c, y), ColumnBit(cols, 8 + c, y), ColumnBit(cols, 16 + c, y), ColumnBit(cols, 24 + c, y))))
  }

  /** What `decodeStripV3Safe` writes and returns. */
  datatype SafeStrip = SafeStrip(block: Strip, consumed: nat)

  /** `decodeStripV3Safe` on the bytes `data[start .. lim]`, for a strip
      that lies inside the image: the 8 by `h` block it writes and the
      number of bytes it consumed.  Empty data writes nothing; the blank
      block stands for the zero columns left as they were. */
  function DecodeWindow(data: seq<byte>, start: nat, lim: nat, h: nat): (r: SafeStrip)
    requires start <= lim <= |data|
    ensures IsStrip(r.block, h) && Nibbles(r.block)
    ensures r.consumed <= lim - start
    ensures r.consumed == 0 <==> start == lim || h == 0
  {
    if start == lim then SafeStrip(Blank(h), 0)
    else
      var r := StripFrom(data, lim, h, 0, start, []);
      SafeStrip(Assemble(r.cols, h), r.next - start)
  }

  /** `decodeStripV3Safe(data, pixels, x, width, height)`. */
  function DecodeStripSafe(data: seq<byte>, h: nat): (r: SafeStrip)
    ensures IsStrip(r.block, h) && Nibbles(r.block)
    ensures r.consumed <= |data|
    ensures r.consumed == 0 <==> |data| == 0 || h == 0
  {
    DecodeWindow(data, 0, |data|, h)
  }

  /** A non-empty window is decoded by the strip loop from its start. */
  lemma WindowUnfold(data: seq<byte>, start: nat, lim: nat, h: nat)
    requires start < lim <= |data|
    ensures DecodeWindow(data, start, lim, h)
      == SafeStrip(Assemble(StripFrom(data, lim, h, 0, start, []).cols, h), StripFrom(data, lim, h, 0, start, []).next - start)
  {
  }

  // ---------------------------------------------------------------------
  // An encoder for the layout, and the round trip through the decoder.
  // ---------------------------------------------------------------------

  /** One packet of a column stream: a run of one bit (written as a repeat
      of 0x00 or 0xFF) or a list of bits (a literal packet of 0x00 and 0xFF
      bytes). */
  datatype ColumnPacket = Same(count: nat, bit: nat) | Each(bits: seq<nat>)

  predicate ValidPacket(p: ColumnPacket)
  {
    match p
    case Same(n, b) => 1 <= n <= 128 && IsBit(b)
    case Each(bs) => 1 <= |bs| <= 128 && AllBits(bs)
  }

  predicate ValidPackets(ps: seq<ColumnPacket>)
  {
    |ps| == 0 || (ValidPacket(ps[0]) && ValidPackets(ps[1..]))
  }

  function PacketBits(p: ColumnPacket): seq<nat>
  {
    match p
    case Same(n, b) => Fill(n, b)
    case Each(bs) => bs
  }

  function PacketsBits(ps: seq<ColumnPacket>): seq<nat>
  {
    if |ps| == 0 then [] else PacketBits(ps[0]) + PacketsBits(ps[1..])
  }

  /** 0xFF for a set bit, 0x00 for a clear one. */
  function FullByte(b: nat): (v: byte)
    requires IsBit(b)
  {
    if b == 1 then 255 else 0
  }

  /** Every bit of `FullByte(b)` is `b`. */
  lemma FullByteBit(b: nat, col: nat)
    requires IsBit(b) && col < 8
    ensures ByteBit(FullByte(b), col) == b
  {
    FullByteBits(7 - col);
  }

  function PacketBytes(p: ColumnPacket): (e: seq<byte>)
    requires ValidPacket(p)
    ensures |e| >= 2
  {
    match p
    case Same(n, b) => [0x80 + n - 1, FullByte(b)]
    case Each(bs) => [|bs| - 1] + FullBytes(bs)
  }

  /** The bytes of a literal packet of bits. */
  function FullBytes(bs: seq<nat>): (e: seq<byte>)
    requires AllBits(bs)
    ensures |e| == |bs| && forall i :: 0 <= i < |bs| ==> e[i] == FullByte(bs[i])
  {
    seq(|bs|, i requires 0 <= i < |bs| => FullByte(bs[i]))
  }

  function PacketsBytes(ps: seq<ColumnPacket>): (e: seq<byte>)
    requires ValidPackets(ps)
    ensures |ps| > 0 ==> |e| > 0
  {
    if |ps| == 0 then [] else PacketBytes(ps[0]) + PacketsBytes(ps[1..])
  }

  /** One packet read by the column loop: its bits are appended and the
      loop goes on after its bytes. */
  lemma ColumnPacketStep(data: seq<byte>, lim: nat, off: nat, col: nat, h: nat, got: seq<nat>, p: ColumnPacket)
    requires col < 8 && ValidPacket(p)
    requires off + |PacketBytes(p)| <= lim <= |data| && data[off .. off + |PacketBytes(p)|] == PacketBytes(p)
    requires |got| + |PacketBits(p)| <= h
    ensures ColumnFrom(data, lim, off, col, h, got)
      == ColumnFrom(data, lim, off + |PacketBytes(p)|, col, h, got + PacketBits(p))
  {
    match p
    case Same(n, b) => SameStep(data, lim, off, col, h, got, n, b);
    case Each(bs) => EachStep(data, lim, off, col, h, got, bs);
  }

  lemma SameStep(data: seq<byte>, lim: nat, off: nat, col: nat, h: nat, got: seq<nat>, n: nat, b: nat)
    requires col < 8 && 1 <= n <= 128 && IsBit(b) && |got| + n <= h
    requires off + 2 <= lim <= |data| && data[off .. off + 2] == [0x80 + n - 1, FullByte(b)]
    ensures ColumnFrom(data, lim, off, col, h, got) == ColumnFrom(data, lim, off + 2, col, h, got + Fill(n, b))
  {
    assert data[off] == 0x80 + n - 1 && data[off + 1] == FullByte(b);
    FullByteBit(b, col);
    assert Min(n, h - |got|) == n;
  }

  lemma EachStep(data: seq<byte>, lim: nat, off: nat, col: nat, h: nat, got: seq<nat>, bs: seq<nat>)
    requires col < 8 && 1 <= |bs| <= 128 && AllBits(bs) && |got| + |bs| <= h
    requires off + 1 + |bs| <= lim <= |data| && data[off .. off + 1 + |bs|] == [|bs| - 1] + FullBytes(bs)
    ensures ColumnFrom(data, lim, off, col, h, got) == ColumnFrom(data, lim, off + 1 + |bs|, col, h, got + bs)
  {
    SplitAt(data, off, off + 1 + |bs|, [|bs| - 1], FullBytes(bs));
    assert data[off] == |bs| - 1;
    assert Min(Min(|bs|, h - |got|), lim - (off + 1)) == |bs|;
    FullBytesBits(data, off + 1, bs, col);
  }

  /** The bits column `col` reads from a literal packet of full bytes are
      the bits it was made from. */
  lemma FullBytesBits(data: seq<byte>, from: nat, bs: seq<nat>, col: nat)
    requires AllBits(bs) && col < 8
    requires from + |bs| <= |data| && data[from .. from + |bs|] == FullBytes(bs)
    ensures ColumnBits(data, from, |bs|, col) == bs
  {
    forall i | 0 <= i < |bs|
      ensures ColumnBits(data, from, |bs|, col)[i] == bs[i]
    {
      assert data[from + i] == data[from .. from + |bs|][i];
      FullByteBit(bs[i], col);
    }
  }

  /** The bytes of `PacketsBytes(ps)` at `off` split into the first packet
      and the rest. */
  lemma PacketsAt(data: seq<byte>, off: nat, end: nat, ps: seq<ColumnPacket>)
    requires ValidPackets(ps) && |ps| > 0 && off <= end <= |data| && data[off .. end] == PacketsBytes(ps)
    ensures off + |PacketBytes(ps[0])| <= end
    ensures data[off .. off + |PacketBytes(ps[0])|] == PacketBytes(ps[0])
    ensures data[off + |PacketBytes(ps[0])| .. end] == PacketsBytes(ps[1..])
  {
    Cut(data[off .. end], PacketBytes(ps[0]), PacketsBytes(ps[1..]));
  }

  /** `got` followed by the bits of `ps`, accumulated packet by packet as
      the column loop does. */
  function AppendBits(got: seq<nat>, ps: seq<ColumnPacket>): (r: seq<nat>)
    decreases |ps|
  {
    if |ps| == 0 then got else AppendBits(got + PacketBits(ps[0]), ps[1..])
  }

  lemma {:induction false} AppendBitsIsConcat(got: seq<nat>, ps: seq<ColumnPacket>)
    ensures AppendBits(got, ps) == got + PacketsBits(ps)
    decreases |ps|
  {
    if |ps| == 0 {
      assert got + PacketsBits(ps) == got;
    } else {
      AppendBitsIsConcat(got + PacketBits(ps[0]), ps[1..]);
      assert (got + PacketBits(ps[0])) + PacketsBits(ps[1..]) == got + (PacketBits(ps[0]) + PacketsBits(ps[1..]));
    }
  }

  /** The column loop over a stream of packets whose bits exactly fill the
      column. */
  lemma {:induction false} ColumnFromAppends(data: seq<byte>, lim: nat, off: nat, end: nat, col: nat, h: nat, got: seq<nat>, ps: seq<ColumnPacket>)
    requires col < 8 && ValidPackets(ps)
    requires off <= end <= lim <= |data| && data[off .. end] == PacketsBytes(ps)
    requires |got| + |PacketsBits(ps)| == h
    ensures ColumnFrom(data, lim, off, col, h, got) == Column(AppendBits(got, ps), end)
    decreases |ps|
  {
    if |ps| == 0 {
      assert |data[off .. end]| == 0;
      ColumnFull(data, lim, off, col, h, got);
    } else {
      var next := AppendsStep(data, lim, off, end, col, h, got, ps);
      ColumnFromAppends(data, lim, next, end, col, h, got + PacketBits(ps[0]), ps[1..]);
      assert AppendBits(got, ps) == AppendBits(got + PacketBits(ps[0]), ps[1..]);
    }
  }

  /** The first packet of such a stream read. */
  lemma AppendsStep(data: seq<byte>, lim: nat, off: nat, end: nat, col: nat, h: nat, got: seq<nat>, ps: seq<ColumnPacket>) returns (next: nat)
    requires col < 8 && ValidPackets(ps) && |ps| > 0
    requires off <= end <= lim <= |data| && data[off .. end] == PacketsBytes(ps)
    requires |got| + |PacketsBits(ps)| == h
    ensures off < next <= end && data[next .. end] == PacketsBytes(ps[1..]) && ValidPackets(ps[1..])
    ensures |got + PacketBits(ps[0])| + |PacketsBits(ps[1..])| == h
    ensures ColumnFrom(data, lim, off, col, h, got) == ColumnFrom(data, lim, next, col, h, got + PacketBits(ps[0]))
  {
    PacketsFirst(ps);
    PacketsAt(data, off, end, ps);
    next := off + |PacketBytes(ps[0])|;
    ColumnPacketStep(data, lim, off, col, h, got, ps[0]);
  }

  /** A column stream of packets whose bits exactly fill the column is read
      back bit for bit, and the loop stops right after it. */
  lemma ColumnFromPackets(data: seq<byte>, lim: nat, off: nat, end: nat, col: nat, h: nat, ps: seq<ColumnPacket>)
    requires col < 8 && ValidPackets(ps)
    requires off <= end <= lim <= |data| && data[off .. end] == PacketsBytes(ps)
    requires |PacketsBits(ps)| == h
    ensures ColumnFrom(data, lim, off, col, h, []) == Column(PacketsBits(ps), end)
  {
    ColumnFromAppends(data, lim, off, end, col, h, [], ps);
    AppendBitsIsConcat([], ps);
    assert [] + PacketsBits(ps) == PacketsBits(ps);
  }

  /** A full column reads nothing more. */
  lemma ColumnFull(data: seq<byte>, lim: nat, off: nat, col: nat, h: nat, got: seq<nat>)
    requires col < 8 && off <= lim <= |data| && |got| == h
    ensures ColumnFrom(data, lim, off, col, h, got) == Column(got, off)
  {
  }

  lemma PacketsFirst(ps: seq<ColumnPacket>)
    requires ValidPackets(ps) && |ps| > 0
    ensures ValidPacket(ps[0]) && ValidPackets(ps[1..])
    ensures PacketsBits(ps) == PacketBits(ps[0]) + PacketsBits(ps[1..])
  {
  }

  /** The length of the run of `bits[0]` at the head of `bits`, at most 128
      (and at least `n`, the part already known to be equal). */
  function LeadRun(bits: seq<nat>, n: nat): (m: nat)
    requires 1 <= n <= |bits| && n <= 128
    requires forall i :: 0 <= i < n ==> bits[i] == bits[0]
    decreases |bits| - n
    ensures n <= m <= |bits| && m <= 128
    ensures forall i :: 0 <= i < m ==> bits[i] == bits[0]
  {
    if n < |bits| && n < 128 && bits[n] == bits[0] then LeadRun(bits, n + 1) else n
  }

  /** The run-length encoding of a column: maximal runs of at most 128
      equal bits. */
  function ColumnRuns(bits: seq<nat>): (ps: seq<ColumnPacket>)
    requires AllBits(bits)
    decreases |bits|
    ensures ValidPackets(ps) && PacketsBits(ps) == bits
  {
    if |bits| == 0 then []
    else
      var n := LeadRun(bits, 1);
      var rest := ColumnRuns(bits[n..]);
      assert bits == Fill(n, bits[0]) + bits[n..];
      [Same(n, bits[0])] + rest
  }

  /** Column `k` of a block: bit `k / 8` of every pixel of column `k % 8`. */
  function PlaneColumn(block: Strip, h: nat, k: nat): (bits: seq<nat>)
    requires IsStrip(block, h) && Nibbles(block) && k < 32
    ensures |bits| == h && AllBits(bits)
  {
    seq(h, y requires 0 <= y < h => Bit(block[y][k % 8], k / 8))
  }

  /** All 32 columns of a block. */
  function AllColumns(block: Strip, h: nat): (cols: seq<seq<nat>>)
    requires IsStrip(block, h) && Nibbles(block)
    ensures |cols| == 32
  {
    seq(32, k requires 0 <= k < 32 => PlaneColumn(block, h, k))
  }

  /** Every stream of `pss` is a valid packet stream. */
  predicate AllValid(pss: seq<seq<ColumnPacket>>)
  {
    forall k :: 0 <= k < |pss| ==> ValidPackets(pss[k])
  }

  /** Every stream of `pss` stands for `h` bits. */
  predicate Fills(pss: seq<seq<ColumnPacket>>, h: nat)
  {
    forall k :: 0 <= k < |pss| ==> |PacketsBits(pss[k])| == h
  }

  /** `pss` holds one packet stream per column of `block`, each standing
      for exactly that column's bits. */
  predicate ColumnStreams(pss: seq<seq<ColumnPacket>>, block: Strip, h: nat)
    requires IsStrip(block, h) && Nibbles(block)
  {
    |pss| == 32 && AllValid(pss) && forall k :: 0 <= k < 32 ==> PacketsBits(pss[k]) == PlaneColumn(block, h, k)
  }

  /** The column streams `k ..` laid end to end: a strip in the layout
      `decodeStripV3Safe` reads. */
  function Layout(pss: seq<seq<ColumnPacket>>, k: nat): (e: seq<byte>)
    requires AllValid(pss) && k <= |pss|
    decreases |pss| - k
  {
    if k == |pss| then [] else PacketsBytes(pss[k]) + Layout(pss, k + 1)
  }

  /** The bytes of `Layout(pss, k)` at `off` split into stream `k` and the
      rest. */
  lemma LayoutAt(data: seq<byte>, off: nat, end: nat, pss: seq<seq<ColumnPacket>>, k: nat)
    requires AllValid(pss) && k < |pss|
    requires off <= end <= |data| && data[off .. end] == Layout(pss, k)
    ensures off + |PacketsBytes(pss[k])| <= end
    ensures data[off .. off + |PacketsBytes(pss[k])|] == PacketsBytes(pss[k])
    ensures data[off + |PacketsBytes(pss[k])| .. end] == Layout(pss, k + 1)
  {
    Cut(data[off .. end], PacketsBytes(pss[k]), Layout(pss, k + 1));
  }

  /** The bits each stream stands for. */
  function StreamBits(pss: seq<seq<ColumnPacket>>): (cols: seq<seq<nat>>)
    ensures |cols| == |pss|
  {
    seq(|pss|, k requires 0 <= k < |pss| => PacketsBits(pss[k]))
  }

  /** `cols` followed by the bits of streams `k ..`, accumulated column by
      column as the plane and column loops do. */
  function Gather(cols: seq<seq<nat>>, pss: seq<seq<ColumnPacket>>, k: nat): (r: seq<seq<nat>>)
    requires k <= |pss|
    decreases |pss| - k
  {
    if k == |pss| then cols else Gather(cols + [PacketsBits(pss[k])], pss, k + 1)
  }

  lemma {:induction false} GatherAll(cols: seq<seq<nat>>, pss: seq<seq<ColumnPacket>>, k: nat)
    requires k <= |pss| && cols == StreamBits(pss)[..k]
    ensures Gather(cols, pss, k) == StreamBits(pss)
    decreases |pss| - k
  {
    if k == |pss| {
      assert cols == StreamBits(pss);
    } else {
      assert cols + [PacketsBits(pss[k])] == StreamBits(pss)[..k + 1];
      GatherAll(cols + [PacketsBits(pss[k])], pss, k + 1);
    }
  }

  /** The streams of a block's columns stand for exactly those columns. */
  lemma StreamColumns(pss: seq<seq<ColumnPacket>>, block: Strip, h: nat)
    requires IsStrip(block, h) && Nibbles(block) && ColumnStreams(pss, block, h)
    ensures StreamBits(pss) == AllColumns(block, h)
    ensures Fills(pss, h)
  {
    forall k | 0 <= k < 32
      ensures StreamBits(pss)[k] == AllColumns(block, h)[k]
    {
    }
  }

  /** One column of the plane and column loops. */
  lemma StripStep(data: seq<byte>, lim: nat, h: nat, k: nat, off: nat, cols: seq<seq<nat>>, bits: seq<nat>, next: nat)
    requires k < 32 && |cols| == k && off < lim <= |data|
    requires ColumnFrom(data, lim, off, k % 8, h, []) == Column(bits, next)
    ensures next <= lim
    ensures StripFrom(data, lim, h, k, off, cols) == StripFrom(data, lim, h, k + 1, next, cols + [bits])
  {
  }

  /** After the 32nd column the loops stop. */
  lemma StripDone(data: seq<byte>, lim: nat, h: nat, off: nat, cols: seq<seq<nat>>)
    requires |cols| == 32 && off <= lim <= |data|
    ensures StripFrom(data, lim, h, 32, off, cols) == Columns(cols, off)
  {
  }

  /** The plane and column loops over laid-out streams that each fill an
      `h`-bit column read the streams' bits back and stop right after the
      last stream. */
  lemma {:induction false} StripFromLayout(data: seq<byte>, lim: nat, off: nat, end: nat, pss: seq<seq<ColumnPacket>>, h: nat, k: nat, cols: seq<seq<nat>>)
    requires |pss| == 32 && AllValid(pss) && Fills(pss, h) && h > 0 && k <= 32 && |cols| == k
    requires off <= end <= lim <= |data| && data[off .. end] == Layout(pss, k)
    ensures StripFrom(data, lim, h, k, off, cols) == Columns(Gather(cols, pss, k), end)
    ensures k < 32 ==> off < end
    decreases 32 - k
  {
    if k == 32 {
      assert |data[off .. end]| == 0;
      StripDone(data, lim, h, off, cols);
    } else {
      var next := ColumnLaid(data, lim, off, end, pss, h, k, cols);
      StripFromLayout(data, lim, next, end, pss, h, k + 1, cols + [PacketsBits(pss[k])]);
      assert Gather(cols, pss, k) == Gather(cols + [PacketsBits(pss[k])], pss, k + 1);
    }
  }

  /** Stream `k` read as column `k`, and the loops go on right after it. */
  lemma ColumnLaid(data: seq<byte>, lim: nat, off: nat, end: nat, pss: seq<seq<ColumnPacket>>, h: nat, k: nat, cols: seq<seq<nat>>) returns (next: nat)
    requires |pss| == 32 && AllValid(pss) && Fills(pss, h) && h > 0 && k < 32 && |cols| == k
    requires off <= end <= lim <= |data| && data[off .. end] == Layout(pss, k)
    ensures off < next <= end && data[next .. end] == Layout(pss, k + 1)
    ensures StripFrom(data, lim, h, k, off, cols) == StripFrom(data, lim, h, k + 1, next, cols + [PacketsBits(pss[k])])
  {
    next := ColumnRead(data, lim, off, end, pss, h, k);
    StripStep(data, lim, h, k, off, cols, PacketsBits(pss[k]), next);
  }

  /** The column loop reads stream `k` back as column `k`. */
  lemma ColumnRead(data: seq<byte>, lim: nat, off: nat, end: nat, pss: seq<seq<ColumnPacket>>, h: nat, k: nat) returns (next: nat)
    requires |pss| == 32 && AllValid(pss) && Fills(pss, h) && h > 0 && k < 32
    requires off <= end <= lim <= |data| && data[off .. end] == Layout(pss, k)
    ensures off < next <= end && data[next .. end] == Layout(pss, k + 1)
    ensures ColumnFrom(data, lim, off, k % 8, h, []) == Column(PacketsBits(pss[k]), next)
  {
    LayoutAt(data, off, end, pss, k);
    StreamFills(pss, h, k);
    next := off + |PacketsBytes(pss[k])|;
    ColumnFromPackets(data, lim, off, next, k % 8, h, pss[k]);
  }

  /** Stream `k` is a non-empty valid stream of `h` bits. */
  lemma StreamFills(pss: seq<seq<ColumnPacket>>, h: nat, k: nat)
    requires AllValid(pss) && Fills(pss, h) && h > 0 && k < |pss|
    ensures ValidPackets(pss[k]) && |PacketsBits(pss[k])| == h && |pss[k]| > 0
  {
  }

  /** Assembling the 32 columns of a block gives the block back. */
  lemma AssembleColumns(block: Strip, h: nat)
    requires IsStrip(block, h) && Nibbles(block)
    ensures Assemble(AllColumns(block, h), h) == block
  {
    forall y | 0 <= y < h
      ensures Assemble(AllColumns(block, h), h)[y] == block[y]
    {
      forall c | 0 <= c < 8
        ensures Assemble(AllColumns(block, h), h)[y][c] == block[y][c]
      {
        PixelColumns(block, h, y, c);
      }
    }
  }

  /** One pixel of a block, reassembled from its four plane columns. */
  lemma PixelColumns(block: Strip, h: nat, y: nat, c: nat)
    requires IsStrip(block, h) && Nibbles(block) && y < h && c < 8
    ensures Assemble(AllColumns(block, h), h)[y][c] == block[y][c]
  {
    var v := block[y][c];
    PlaneBitAt(block, h, y, c, 0, c);
    PlaneBitAt(block, h, y, c, 1, 8 + c);
    PlaneBitAt(block, h, y, c, 2, 16 + c);
    PlaneBitAt(block, h, y, c, 3, 24 + c);
    SplitRoundTrip(v);
  }

  /** Column `8 * p + c` holds bit `p` of pixel column `c`. */
  lemma PlaneBitAt(block: Strip, h: nat, y: nat, c: nat, p: nat, k: nat)
    requires IsStrip(block, h) && Nibbles(block) && y < h && c < 8 && p < 4 && k == 8 * p + c
    ensures ColumnBit(AllColumns(block, h), k, y) == Bit(block[y][c], p)
  {
    assert k % 8 == c && k / 8 == p;
  }

  /** The plane and column loops read all 32 columns of a laid-out block. */
  lemma LaidColumns(data: seq<byte>, start: nat, lim: nat, block: Strip, h: nat, pss: seq<seq<ColumnPacket>>)
    requires IsStrip(block, h) && Nibbles(block) && h > 0 && ColumnStreams(pss, block, h)
    requires start + |Layout(pss, 0)| <= lim <= |data|
    requires data[start .. start + |Layout(pss, 0)|] == Layout(pss, 0)
    ensures StripFrom(data, lim, h, 0, start, []) == Columns(AllColumns(block, h), start + |Layout(pss, 0)|)
    ensures |Layout(pss, 0)| > 0
  {
    StreamColumns(pss, block, h);
    StripFromLayout(data, lim, start, start + |Layout(pss, 0)|, pss, h, 0, []);
    assert StreamBits(pss)[..0] == [];
    GatherAll([], pss, 0);
  }

  /** Column streams for a block, laid out at `start` inside the bytes the
      decoder may read, are read back as the block, and exactly their bytes
      are consumed. */
  lemma WindowRoundTrip(data: seq<byte>, start: nat, lim: nat, block: Strip, h: nat, pss: seq<seq<ColumnPacket>>)
    requires IsStrip(block, h) && Nibbles(block) && h > 0 && ColumnStreams(pss, block, h)
    requires start + |Layout(pss, 0)| <= lim <= |data|
    requires data[start .. start + |Layout(pss, 0)|] == Layout(pss, 0)
    ensures DecodeWindow(data, start, lim, h) == SafeStrip(block, |Layout(pss, 0)|)
    ensures |Layout(pss, 0)| > 0
  {
    LaidColumns(data, start, lim, block, h, pss);
    WindowUnfold(data, start, lim, h);
    AssembleColumns(block, h);
  }

  /** The run-length streams of a block's columns. */
  function BlockRuns(block: Strip, h: nat): (pss: seq<seq<ColumnPacket>>)
    requires IsStrip(block, h) && Nibbles(block)
    ensures ColumnStreams(pss, block, h)
  {
    seq(32, k requires 0 <= k < 32 => ColumnRuns(PlaneColumn(block, h, k)))
  }

  /** A block in the layout `decodeStripV3Safe` reads, every column
      run-length encoded. */
  function EncodeBlock(block: Strip, h: nat): (e: seq<byte>)
    requires IsStrip(block, h) && Nibbles(block)
  {
    Layout(BlockRuns(block, h), 0)
  }

  /** Decoding an encoded block, followed by any bytes, gives the block back
      and consumes exactly the encoding. */
  lemma DecodeStripSafeRoundTrip(block: Strip, h: nat, rest: seq<byte>)
    requires IsStrip(block, h) && Nibbles(block) && h > 0
    ensures DecodeStripSafe(EncodeBlock(block, h) + rest, h) == SafeStrip(block, |EncodeBlock(block, h)|)
  {
    assert (EncodeBlock(block, h) + rest)[0 .. |EncodeBlock(block, h)|] == EncodeBlock(block, h);
    WindowRoundTrip(EncodeBlock(block, h) + rest, 0, |EncodeBlock(block, h) + rest|, block, h, BlockRuns(block, h));
  }

  // ---------------------------------------------------------------------
  // The raw format.
  // ---------------------------------------------------------------------

  /** `Math.min(300, Math.floor(rest / left))`: the slice a strip gets. */
  function SliceSize(rest: nat, left: nat): (n: nat)
    requires left >= 1
    ensures n <= rest && n <= 300
  {
    Min(300, rest / left)
  }

  /** Strip `s` of the raw format decoded from the slice at `off`, which
      holds `SliceSize(remaining, stripsLeft)` bytes.  The strip loop only
      asks for strips below 40 that start inside the data. */
  function SliceAt(data: seq<byte>, s: nat, off: nat): (r: SafeStrip)
    ensures IsStrip(r.block, 200) && Nibbles(r.block)
  {
    if s < 40 && off <= |data| then DecodeStripSafe(data[off .. off + SliceSize(|data| - off, 40 - s)], 200)
    else SafeStrip(Blank(200), 0)
  }

  /** The strip decoder of the raw format, as a function of the strip number
      and the offset. */
  function Slices(data: seq<byte>): (nat, nat) -> SafeStrip
  {
    (s: nat, off: nat) => SliceAt(data, s, off)
  }

  /** The offset of the next strip: past the bytes consumed, or 10 further
      when none were. */
  function NextOffset(off: nat, consumed: nat): (next: nat)
    ensures off < next
  {
    if consumed > 0 then off + consumed else off + 10
  }

  /** Every strip `strip` yields is an 8 by 200 block of palette indices. */
  ghost predicate Strips200(strip: (nat, nat) -> SafeStrip)
  {
    forall s: nat, off: nat :: IsStrip(strip(s, off).block, 200) && Nibbles(strip(s, off).block)
  }

  /** The strip loop of `decodeRawFormat` from strip `s` at `off`, over `n`
      bytes of data, with `strip(s, off)` the strip decoded there: it stops
      after forty strips or at the end of the data. */
  function StripLoop(strip: (nat, nat) -> SafeStrip, n: nat, s: nat, off: nat): (blocks: seq<Strip>)
    requires s <= 40
    decreases 40 - s
    ensures |blocks| <= 40 - s
    ensures Strips200(strip) ==> Blocks(blocks, 200) && forall i :: 0 <= i < |blocks| ==> Nibbles(blocks[i])
  {
    if s == 40 || off >= n then []
    else [strip(s, off).block] + StripLoop(strip, n, s + 1, NextOffset(off, strip(s, off).consumed))
  }

  lemma SlicesAre200(data: seq<byte>)
    ensures Strips200(Slices(data))
  {
    forall s: nat, off: nat
      ensures IsStrip(Slices(data)(s, off).block, 200) && Nibbles(Slices(data)(s, off).block)
    {
      assert Slices(data)(s, off) == SliceAt(data, s, off);
    }
  }

  /** The strips `decodeRawFormat` places, left to right. */
  function RawBlocks(data: seq<byte>): (blocks: seq<Strip>)
    ensures |blocks| <= 40
    ensures Blocks(blocks, 200) && forall i :: 0 <= i < |blocks| ==> Nibbles(blocks[i])
  {
    SlicesAre200(data);
    StripLoop(Slices(data), |data|, 0, 0)
  }

  /** `decodeRawFormat`: a 320 by 200 image of up to forty strips. */
  function DecodeRawFormat(data: seq<byte>): (img: Image)
    ensures WellShaped(img) && Indexed(img) && img.width == 320 && img.height == 200
    ensures Placed(img, RawBlocks(data))
  {
    ComposeIndexed(320, 200, RawBlocks(data));
    Compose(320, 200, RawBlocks(data))
  }

  /** From strip `s` at `off` on, `strip` yields the next of `blocks` and
      consumes some bytes, each strip starting inside the `n` bytes of
      data. */
  predicate Reads(strip: (nat, nat) -> SafeStrip, n: nat, s: nat, off: nat, blocks: seq<Strip>)
    requires |blocks| == 40 && s <= 40
    decreases 40 - s
  {
    s == 40 ||
    (off < n && strip(s, off).block == blocks[s] && strip(s, off).consumed > 0
     && Reads(strip, n, s + 1, off + strip(s, off).consumed, blocks))
  }

  /** A strip decoder that yields `blocks` makes the strip loop produce
      them. */
  lemma {:induction false} StripLoopReads(strip: (nat, nat) -> SafeStrip, n: nat, s: nat, off: nat, blocks: seq<Strip>)
    requires |blocks| == 40 && s <= 40 && Reads(strip, n, s, off, blocks)
    ensures StripLoop(strip, n, s, off) == blocks[s..]
    decreases 40 - s
  {
    if s < 40 {
      StripLoopReads(strip, n, s + 1, off + strip(s, off).consumed, blocks);
      ConsAt(blocks[s], StripLoop(strip, n, s + 1, off + strip(s, off).consumed), blocks, s);
    }
  }

  /** `xs[i..]` is its first element in front of the rest. */
  lemma ConsAt<T>(x: T, rest: seq<T>, xs: seq<T>, i: nat)
    requires i < |xs| && x == xs[i] && rest == xs[i + 1..]
    ensures [x] + rest == xs[i..]
  {
  }

  /** The byte strings `es[s ..]` end to end. */
  function Concat(es: seq<seq<byte>>, s: nat): (e: seq<byte>)
    requires s <= |es|
    decreases |es| - s
  {
    if s == |es| then [] else es[s] + Concat(es, s + 1)
  }

  /** Where `es[s]` starts in `Concat(es, 0)`. */
  function Start(es: seq<seq<byte>>, s: nat): (off: nat)
    requires s <= |es|
  {
    if s == 0 then 0 else Start(es, s - 1) + |es[s - 1]|
  }

  /** `Concat(es, 0)` from the start of `es[s]` on is `Concat(es, s)`. */
  lemma {:induction false} ConcatFrom(es: seq<seq<byte>>, s: nat)
    requires s <= |es|
    ensures Start(es, s) <= |Concat(es, 0)|
    ensures Concat(es, 0)[Start(es, s) ..] == Concat(es, s)
  {
    if s > 0 {
      ConcatFrom(es, s - 1);
      DropFront(Concat(es, 0), Start(es, s - 1), es[s - 1], Concat(es, s));
    }
  }

  lemma DropFront(x: seq<byte>, a: nat, p: seq<byte>, q: seq<byte>)
    requires a <= |x| && x[a..] == p + q
    ensures a + |p| <= |x| && x[a + |p| ..] == q
  {
    assert x[a + |p| ..] == (p + q)[|p| ..];
  }

  /** Strip `s`'s encoding is not empty and fits in the slice the decoder
      gives it at its start, where `|Concat(es, 0)| - Start(es, s)` bytes
      remain. */
  predicate FitsAt(es: seq<seq<byte>>, s: nat)
    requires s < 40 && |es| == 40
  {
    Start(es, s) <= |Concat(es, 0)| && 0 < |es[s]| <= SliceSize(|Concat(es, 0)| - Start(es, s), 40 - s)
  }

  /** Every strip's encoding fits in its slice. */
  predicate SlicesFit(es: seq<seq<byte>>)
    requires |es| == 40
  {
    forall s :: 0 <= s < 40 ==> FitsAt(es, s)
  }

  /** `strip` reads strip `s` of `blocks` back from the start of its
      encoding `es[s]`, consuming exactly the encoding. */
  predicate ReadAt(strip: (nat, nat) -> SafeStrip, es: seq<seq<byte>>, blocks: seq<Strip>, s: nat)
    requires |es| == 40 && |blocks| == 40 && s < 40
  {
    0 < |es[s]| && strip(s, Start(es, s)) == SafeStrip(blocks[s], |es[s]|)
  }

  /** Strips read back one by one make the loop read them all. */
  lemma {:induction false} ReadsFrom(strip: (nat, nat) -> SafeStrip, es: seq<seq<byte>>, blocks: seq<Strip>, s: nat)
    requires |es| == 40 && |blocks| == 40 && s <= 40
    requires forall i :: s <= i < 40 ==> ReadAt(strip, es, blocks, i)
    ensures Reads(strip, |Concat(es, 0)|, s, Start(es, s), blocks)
    decreases 40 - s
  {
    if s < 40 {
      assert ReadAt(strip, es, blocks, s);
      ConcatFrom(es, s);
      assert Concat(es, s) == es[s] + Concat(es, s + 1);
      ReadsFrom(strip, es, blocks, s + 1);
    }
  }

  /** Strip `s` of a room is laid out as `es[s]`, made of column streams
      `psss[s]`. */
  predicate StripLaid(es: seq<seq<byte>>, psss: seq<seq<seq<ColumnPacket>>>, blocks: seq<Strip>, s: nat)
    requires RoomBlocks(blocks) && |es| == 40 && |psss| == 40 && s < 40
  {
    ColumnStreams(psss[s], blocks[s], 200) && es[s] == Layout(psss[s], 0)
  }

  /** Forty 8 by 200 blocks of palette indices. */
  predicate RoomBlocks(blocks: seq<Strip>)
  {
    |blocks| == 40 && Blocks(blocks, 200) && forall i :: 0 <= i < 40 ==> Nibbles(blocks[i])
  }

  /** Each strip of a room laid out, strip `s` as `es[s]`. */
  predicate RoomLaid(es: seq<seq<byte>>, psss: seq<seq<seq<ColumnPacket>>>, blocks: seq<Strip>)
  {
    RoomBlocks(blocks) && |es| == 40 && |psss| == 40 && forall s :: 0 <= s < 40 ==> StripLaid(es, psss, blocks, s)
  }

  /** The slice of strip `s` of a laid-out room decodes to its block. */
  lemma SliceReadsStrip(es: seq<seq<byte>>, psss: seq<seq<seq<ColumnPacket>>>, blocks: seq<Strip>, s: nat)
    requires RoomBlocks(blocks) && |es| == 40 && |psss| == 40 && s < 40
    requires StripLaid(es, psss, blocks, s) && FitsAt(es, s)
    ensures ReadAt(Slices(Concat(es, 0)), es, blocks, s)
  {
    StripOfRoom(es, psss, blocks, s);
    StripInSlice(es, s);
    SliceAtLaid(Concat(es, 0), s, Start(es, s), blocks[s], psss[s], es[s]);
  }

  /** Strip `s` of a laid-out room: a block of palette indices whose column
      streams make up `es[s]`. */
  lemma StripOfRoom(es: seq<seq<byte>>, psss: seq<seq<seq<ColumnPacket>>>, blocks: seq<Strip>, s: nat)
    requires RoomBlocks(blocks) && |es| == 40 && |psss| == 40 && s < 40
    requires StripLaid(es, psss, blocks, s)
    ensures IsStrip(blocks[s], 200) && Nibbles(blocks[s]) && ColumnStreams(psss[s], blocks[s], 200)
    ensures es[s] == Layout(psss[s], 0)
  {
  }

  /** `e` lies at `off` in `data`, inside the slice the decoder gives
      strip `s` there. */
  predicate InSlice(data: seq<byte>, s: nat, off: nat, e: seq<byte>)
  {
    s < 40 && off <= |data| && |e| <= SliceSize(|data| - off, 40 - s) && data[off .. off + |e|] == e
  }

  /** Strip `s`'s encoding lies at `Start(es, s)`, inside its slice. */
  lemma {:induction false} StripInSlice(es: seq<seq<byte>>, s: nat)
    requires |es| == 40 && s < 40 && FitsAt(es, s)
    ensures 0 < |es[s]| && InSlice(Concat(es, 0), s, Start(es, s), es[s])
  {
    StripAt(es, s);
  }

  /** `es[s]` lies at `Start(es, s)` in `Concat(es, 0)`. */
  lemma StripAt(es: seq<seq<byte>>, s: nat)
    requires s < |es|
    ensures Start(es, s) + |es[s]| <= |Concat(es, 0)|
    ensures Concat(es, 0)[Start(es, s) .. Start(es, s) + |es[s]|] == es[s]
  {
    ConcatFrom(es, s);
    SplitAt(Concat(es, 0), Start(es, s), |Concat(es, 0)|, es[s], Concat(es, s + 1));
  }

  /** A strip whose column streams `e` are laid out inside its slice is
      read back from that slice. */
  lemma SliceAtLaid(data: seq<byte>, s: nat, off: nat, block: Strip, pss: seq<seq<ColumnPacket>>, e: seq<byte>)
    requires IsStrip(block, 200) && Nibbles(block) && ColumnStreams(pss, block, 200) && e == Layout(pss, 0)
    requires InSlice(data, s, off, e)
    ensures Slices(data)(s, off) == SafeStrip(block, |e|)
  {
    var slice := data[off .. off + SliceSize(|data| - off, 40 - s)];
    assert slice[0 .. |e|] == e;
    WindowRoundTrip(slice, 0, |slice|, block, 200, pss);
  }

  /** Forty strips laid out end to end, each fitting its slice, decode to
      the image of those strips. */
  lemma DecodeRawFormatRoundTrip(es: seq<seq<byte>>, psss: seq<seq<seq<ColumnPacket>>>, blocks: seq<Strip>)
    requires RoomLaid(es, psss, blocks) && SlicesFit(es)
    ensures DecodeRawFormat(Concat(es, 0)) == Compose(320, 200, blocks)
  {
    forall s | 0 <= s < 40
      ensures ReadAt(Slices(Concat(es, 0)), es, blocks, s)
    {
      assert StripLaid(es, psss, blocks, s) && FitsAt(es, s);
      SliceReadsStrip(es, psss, blocks, s);
    }
    ReadsFrom(Slices(Concat(es, 0)), es, blocks, 0);
    StripLoopReads(Slices(Concat(es, 0)), |Concat(es, 0)|, 0, 0, blocks);
    assert blocks[0..] == blocks;
  }
}
