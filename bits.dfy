/**
 * The big-integer views of random bytes used by the samplers: a buffer read
 * big-endian (`bigInteger(buf.toString('hex'), 16)`), `bitLength()`, the
 * shifts and `or(1)`.
 */
module Bits {
  import opened Common
  import opened ModArith

  /** A buffer read as a big-endian unsigned number. */
  function BigEndian(bs: seq<Byte>): (r: nat)
    ensures r < Pow(256, |bs|)
  {
    if |bs| == 0 then 0 else 256 * BigEndian(bs[..|bs| - 1]) + bs[|bs| - 1]
  }

  /** The `n`-byte big-endian encoding of `v` (modulo `256^n`). */
  function ToBigEndian(v: nat, n: nat): (r: seq<Byte>)
    ensures |r| == n
  {
    if n == 0 then [] else ToBigEndian(v / 256, n - 1) + [v % 256]
  }

  /** Every value below `256^n` is the reading of some `n`-byte buffer. */
  lemma {:induction false} BigEndianOfEncoding(v: nat, n: nat)
    requires v < Pow(256, n)
    ensures BigEndian(ToBigEndian(v, n)) == v
  {
    if n > 0 {
      var prefix := ToBigEndian(v / 256, n - 1);
      BigEndianOfEncoding(v / 256, n - 1);
      assert (prefix + [v % 256])[..n - 1] == prefix;
    }
  }

  /** Encoding a buffer's reading gives the buffer back. */
  lemma {:induction false} EncodingOfBigEndian(bs: seq<Byte>)
    ensures ToBigEndian(BigEndian(bs), |bs|) == bs
  {
    if |bs| > 0 {
      var init := bs[..|bs| - 1];
      var v := BigEndian(bs);
      assert v / 256 == BigEndian(init) && v % 256 == bs[|bs| - 1];
      EncodingOfBigEndian(init);
    }
  }

  /** `n.bitLength()`: the number of binary digits of `n` (0 for 0). */
  function BitLength(n: nat): (r: nat)
    ensures n < Pow(2, r)
    ensures n > 0 ==> r >= 1 && Pow(2, r - 1) <= n
    ensures n == 0 <==> r == 0
  {
    if n == 0 then 0 else 1 + BitLength(n / 2)
  }

  /** The bit length is determined by the power of two that bounds `n`. */
  lemma {:induction false} BitLengthMonotone(a: nat, b: nat)
    requires a <= b
    ensures BitLength(a) <= BitLength(b)
  {
    if a > 0 {
      BitLengthMonotone(a / 2, b / 2);
    }
  }

  /** `Math.ceil(bitLength / 8)`: the bytes needed to hold `bitLength` bits. */
  function ByteCount(bitLength: nat): (r: nat)
    ensures 8 * r >= bitLength && 8 * (r - 1) < bitLength
  {
    (bitLength + 7) / 8
  }

  lemma {:induction false} PowMonotone(b: nat, e1: nat, e2: nat)
    requires b >= 1 && e1 <= e2
    ensures Pow(b, e1) <= Pow(b, e2)
  {
    if e1 < e2 {
      PowMonotone(b, e1, e2 - 1);
      assert Pow(b, e2) == b * Pow(b, e2 - 1);
      MulAtLeast(Pow(b, e2 - 1), b);
    }
  }

  lemma {:induction false} BytePowers(k: nat)
    ensures Pow(2, 8 * k) == Pow(256, k)
  {
    if k > 0 {
      BytePowers(k - 1);
      PowAdd(2, 8, 8 * (k - 1));
      assert 8 + 8 * (k - 1) == 8 * k;
    }
  }

  /** Below `2^k` there are at most `k` bits. */
  lemma {:induction false} BitLengthBelow(n: nat, k: nat)
    requires n < Pow(2, k)
    ensures BitLength(n) <= k
  {
    if n > 0 {
      assert k > 0;
      BitLengthBelow(n / 2, k - 1);
    }
  }

  /**
   * `ByteCount(BitLength(n))` bytes are enough to represent `n`: every value
   * in `[0, n]` is the big-endian reading of a buffer of that length.
   */
  lemma ByteCountCovers(n: nat)
    ensures n < Pow(256, ByteCount(BitLength(n)))
  {
    var k := ByteCount(BitLength(n));
    PowMonotone(2, BitLength(n), 8 * k);
    BytePowers(k);
  }

  /** `v.shiftLeft(s)`, one doubling per bit. */
  function ShiftLeft(v: nat, s: nat): nat
    decreases s
  {
    if s == 0 then v else ShiftLeft(2 * v, s - 1)
  }

  /** `v.shiftRight(s)`, one halving per bit. */
  function ShiftRight(v: nat, s: nat): nat
  {
    if s == 0 then v else ShiftRight(v / 2, s - 1)
  }

  /** Shifting left multiplies by a power of two. */
  lemma {:induction false} ShiftLeftMultiplies(v: nat, s: nat)
    decreases s
    ensures ShiftLeft(v, s) == v * Pow(2, s)
  {
    if s > 0 {
      ShiftLeftMultiplies(2 * v, s - 1);
      assert 2 * v * Pow(2, s - 1) == v * (2 * Pow(2, s - 1));
    }
  }

  /** Halving, then dividing by `c`, is dividing by `2c`. */
  lemma HalveThenDivide(v: nat, c: nat)
    requires c > 0
    ensures (v / 2) / c == v / (2 * c)
  {
    var h := v / 2;
    var k, r := h / c, h % c;
    assert h == c * k + r;
    assert v == 2 * h + v % 2;
    assert v == (2 * c) * k + (2 * r + v % 2);
    DivModUnique(v, 2 * c, k, 2 * r + v % 2);
  }

  /** Shifting right divides by a power of two, rounding down. */
  lemma {:induction false} ShiftRightDivides(v: nat, s: nat)
    ensures ShiftRight(v, s) == v / Pow(2, s)
  {
    if s > 0 {
      ShiftRightDivides(v / 2, s - 1);
      HalveThenDivide(v, Pow(2, s - 1));
    }
  }

  /** A left shift of a nonzero value adds the shift to its bit length. */
  lemma {:induction false} BitLengthShiftLeft(v: nat, s: nat)
    requires v > 0
    decreases s
    ensures BitLength(ShiftLeft(v, s)) == BitLength(v) + s
  {
    if s > 0 {
      assert BitLength(2 * v) == 1 + BitLength(v);
      BitLengthShiftLeft(2 * v, s - 1);
    }
  }

  /** A right shift by at most the bit length removes that many bits. */
  lemma {:induction false} BitLengthShiftRight(v: nat, s: nat)
    requires s <= BitLength(v)
    ensures BitLength(ShiftRight(v, s)) == BitLength(v) - s
  {
    if s > 0 {
      BitLengthShiftRight(v / 2, s - 1);
    }
  }

  /** `v.or(1)`: sets the lowest bit. */
  function OrOne(v: nat): (r: nat)
    ensures r % 2 == 1
    ensures r == v || r == v + 1
    ensures v > 0 ==> BitLength(r) == BitLength(v)
  {
    if v % 2 == 0 then
      assert v > 0 ==> BitLength(v + 1) == 1 + BitLength(v / 2);
      v + 1
    else
      v
  }
}
