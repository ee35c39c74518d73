/**
 * `randomGeneratorInRange(max, min)` (exported as `getInRange`): a uniform
 * integer in `[min, max)` by rejection sampling. The random source is a finite
 * byte stream: each draw reads the next bytes of it, and a stream too short for
 * the next draw ends the model's run with `Exhausted`.
 */
module BigIntManager {
  import opened Common
  import opened ModArith
  import opened Bits

  /** A sampled value with the unread rest of the stream, or a stream that ran out. */
  datatype Sample = Drawn(value: int, rest: seq<Byte>) | Exhausted

  /**
   * Bytes requested per draw: `Math.ceil(bitLength(max - min - 1) / 8)`.
   * Buffers of that length read big-endian cover every offset in `[0, max - min)`.
   */
  function DrawSize(max: int, min: int): (n: nat)
    requires max - min >= 2
    ensures n >= 1
    ensures max - min - 1 < Pow(256, n)
  {
    ByteCountCovers(max - min - 1);
    ByteCount(BitLength(max - min - 1))
  }

  /** What the do-while loop returns when the random source yields `src`. */
  function InRangeSpec(max: int, min: int, src: seq<Byte>): (r: Sample)
    requires max - min >= 2
    decreases |src|
    ensures r.Drawn? ==> min <= r.value < max
    ensures r.Drawn? ==> |r.rest| < |src| && r.rest == src[|src| - |r.rest|..]
  {
    var n := DrawSize(max, min);
    if |src| < n then
      Exhausted
    else
      var v := BigEndian(src[..n]) + min;
      if v < max then
        Drawn(v, src[n..])
      else
        var r := InRangeSpec(max, min, src[n..]);
        assert r.Drawn? ==> src[n..][|src| - n - |r.rest|..] == src[|src| - |r.rest|..];
        r
  }

  /** The draws laid end to end, as the stream delivers them. */
  function Flatten(draws: seq<seq<Byte>>): seq<Byte>
  {
    if |draws| == 0 then [] else draws[0] + Flatten(draws[1..])
  }

  /**
   * Draws whose reading is at least `max - min` are discarded and redrawn, with
   * no modulo reduction: the result is `min` plus the first reading below
   * `max - min`, and the stream continues right after that draw.
   */
  lemma {:induction false} FirstDrawBelowRange(max: int, min: int, rejected: seq<seq<Byte>>,
                                              accepted: seq<Byte>, rest: seq<Byte>)
    requires max - min >= 2
    requires forall i :: 0 <= i < |rejected| ==> |rejected[i]| == DrawSize(max, min)
    requires forall i :: 0 <= i < |rejected| ==> BigEndian(rejected[i]) >= max - min
    requires |accepted| == DrawSize(max, min) && BigEndian(accepted) < max - min
    ensures InRangeSpec(max, min, Flatten(rejected) + accepted + rest)
            == Drawn(min + BigEndian(accepted), rest)
  {
    var n := DrawSize(max, min);
    var src := Flatten(rejected) + accepted + rest;
    if |rejected| == 0 {
      assert src == accepted + rest;
      assert src[..n] == accepted && src[n..] == rest;
    } else {
      var tail := Flatten(rejected[1..]) + accepted + rest;
      assert src == rejected[0] + tail;
      assert src[..n] == rejected[0] && src[n..] == tail;
      assert BigEndian(src[..n]) + min >= max;
      assert forall i :: 0 <= i < |rejected[1..]| ==> rejected[1..][i] == rejected[i + 1];
      FirstDrawBelowRange(max, min, rejected[1..], accepted, rest);
      assert InRangeSpec(max, min, src) == InRangeSpec(max, min, tail);
    }
  }

  /** A range of at most 256 values is drawn one byte at a time. */
  lemma OneByteRange(max: int, min: int)
    requires 2 <= max - min <= 256
    ensures DrawSize(max, min) == 1
  {
    assert Pow(2, 8) == 256;
    BitLengthBelow(max - min - 1, 8);
  }

  /** When the range fits one byte, a byte below `max - min` is accepted at once. */
  lemma SingleByteDraw(max: int, min: int, b: Byte)
    requires 2 <= max - min <= 256 && b < max - min
    ensures InRangeSpec(max, min, [b]) == Drawn(min + b, [])
  {
    OneByteRange(max, min);
    var draw: seq<Byte> := [b];
    assert draw[..0] == [];
    assert draw[..1] == draw;
    assert BigEndian(draw) == b;
  }

  /** Every value of `[min, max)` is returned for some first draw. */
  lemma EveryValueReachable(max: int, min: int, v: int, rest: seq<Byte>)
    requires max - min >= 2 && min <= v < max
    ensures InRangeSpec(max, min, ToBigEndian(v - min, DrawSize(max, min)) + rest) == Drawn(v, rest)
  {
    var n := DrawSize(max, min);
    var draw := ToBigEndian(v - min, n);
    BigEndianOfEncoding(v - min, n);
    FirstDrawBelowRange(max, min, [], draw, rest);
    assert Flatten([]) + draw + rest == draw + rest;
  }

  /** `randomGeneratorInRange(max, min)`: reads draws from `src` until one lands below `max`. */
  method GetInRange(max: int, min: int, src: seq<Byte>) returns (r: Sample)
    requires max - min >= 2
    ensures r == InRangeSpec(max, min, src)
    ensures r.Drawn? ==> min <= r.value < max
  {
    var range := max - min - 1;
    var count := ByteCount(BitLength(range));
    var rest := src;
    while true
      invariant InRangeSpec(max, min, rest) == InRangeSpec(max, min, src)
      decreases |rest|
    {
      if |rest| < count {
        return Exhausted;
      }
      var buffer := rest[..count];
      var bi := BigEndian(buffer) + min;
      rest := rest[count..];
      if bi < max {
        return Drawn(bi, rest);
      }
    }
  }
}
