/** Bits of bytes: `(b >> k) & 1` and the four-bit palette index
    `bit0 | bit1 << 1 | bit2 << 2 | bit3 << 3` built from plane bits. */
module Bits {

  /** `2^k`. */
  function Pow2(k: nat): (p: nat)
    ensures p > 0
  {
    if k == 0 then 1 else 2 * Pow2(k - 1)
  }

  /** `(b >> k) & 1` for a byte `b`: the remainder after `k` halvings,
      which is bit `k` of the binary numeral. */
  function Bit(b: nat, k: nat): (r: nat)
    requires b < 256 && k < 8
    ensures r <= 1
    ensures r == (b / Pow2(k)) % 2
  {
    if k == 0 then b % 2
    else
      HalveTwice(b, Pow2(k - 1));
      Bit(b / 2, k - 1)
  }

  /** Halving and then dividing by `m` is dividing by `2m`. */
  lemma HalveTwice(b: nat, m: nat)
    requires m > 0
    ensures b / 2 / m == b / (2 * m)
  {
    var q := b / 2 / m;
    var r := b / 2 % m;
    assert b == 2 * m * q + (2 * r + b % 2);
    assert 2 * r + b % 2 < 2 * m;
    DivUnique(b, 2 * m, q, 2 * r + b % 2);
  }

  /** Division by `d` has one quotient. */
  lemma DivUnique(b: nat, d: nat, q: nat, r: nat)
    requires d > 0 && r < d && b == d * q + r
    ensures b / d == q
  {
    var q', r' := b / d, b % d;
    assert b == d * q' + r';
    if q' > q {
      MulAtLeast(d, q' - q);
    } else if q' < q {
      MulAtLeast(d, q - q');
    }
  }

  lemma MulAtLeast(d: nat, x: nat)
    requires x >= 1
    ensures d * x >= d
  {
  }

  predicate IsBit(b: int)
  {
    b == 0 || b == 1
  }

  /** `bit0 | (bit1 << 1) | (bit2 << 2) | (bit3 << 3)`. */
  function Combine(b0: nat, b1: nat, b2: nat, b3: nat): (c: nat)
    requires IsBit(b0) && IsBit(b1) && IsBit(b2) && IsBit(b3)
    ensures c < 16
  {
    b0 + 2 * b1 + 4 * b2 + 8 * b3
  }

  /** Combining four plane bits gives a palette index whose bit `p` is the
      bit of plane `p`. */
  lemma CombineRoundTrip(b0: nat, b1: nat, b2: nat, b3: nat)
    requires IsBit(b0) && IsBit(b1) && IsBit(b2) && IsBit(b3)
    ensures Bit(Combine(b0, b1, b2, b3), 0) == b0
    ensures Bit(Combine(b0, b1, b2, b3), 1) == b1
    ensures Bit(Combine(b0, b1, b2, b3), 2) == b2
    ensures Bit(Combine(b0, b1, b2, b3), 3) == b3
  {
    var x2 := b2 + 2 * b3;
    var x1 := b1 + 2 * x2;
    var v := b0 + 2 * x1;
    Half(v, x1, b0);
    Half(x1, x2, b1);
    Half(x2, b3, b2);
    Half(b3, 0, b3);
  }

  /** Halving `2 * q + r` with `r` a bit gives `q` and remainder `r`. */
  lemma Half(v: nat, q: nat, r: nat)
    requires v == 2 * q + r && r < 2
    ensures v / 2 == q && v % 2 == r
  {
  }

  /** Splitting a palette index into its four bits and combining them
      gives the index back. */
  lemma SplitRoundTrip(v: nat)
    requires v < 16
    ensures Combine(Bit(v, 0), Bit(v, 1), Bit(v, 2), Bit(v, 3)) == v
  {
    var a := v / 2;
    var b := a / 2;
    var c := b / 2;
    assert Bit(v, 1) == a % 2;
    assert Bit(v, 2) == Bit(a, 1) == b % 2;
    assert Bit(v, 3) == Bit(a, 2) == Bit(b, 1) == c % 2;
    Halves(v, a, b, c);
  }

  /** A number below 16 is the sum of its halving remainders. */
  lemma Halves(v: nat, a: nat, b: nat, c: nat)
    requires v < 16 && a == v / 2 && b == a / 2 && c == b / 2
    ensures v == v % 2 + 2 * (a % 2) + 4 * (b % 2) + 8 * (c % 2)
  {
    assert v == v % 2 + 2 * a && a == a % 2 + 2 * b && b == b % 2 + 2 * c;
  }

  /** Every bit of 0xFF is set and every bit of 0x00 is clear. */
  lemma FullByteBits(k: nat)
    requires k < 8
    ensures Bit(255, k) == 1 && Bit(0, k) == 0
  {
    if k == 0 {
    } else if k == 1 {
    } else if k == 2 {
    } else if k == 3 {
    } else if k == 4 {
    } else if k == 5 {
    } else if k == 6 {
    } else {
      assert Bit(255, 7) == 1 && Bit(0, 7) == 0;
    }
  }
}
