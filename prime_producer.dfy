/**
 * The body of `producePrime(bitLength)`, run on a worker thread in the
 * JavaScript: draw `ceil(bitLength/8)` bytes, normalise the bit length by
 * shifting, force the value odd, then step by 2 until the primality test
 * accepts.
 */
module PrimeProducer {
  import opened Common
  import opened ModArith
  import opened Bits
  import opened Primes

  /** `v.shiftLeft(delta)`; a negative `delta` shifts right, as big-integer does. */
  function Shift(v: nat, delta: int): (r: nat)
    ensures delta >= 0 ==> r == v * Pow(2, delta)
    ensures delta < 0 ==> r == v / Pow(2, -delta)
  {
    if delta >= 0 then
      ShiftLeftMultiplies(v, delta);
      ShiftLeft(v, delta)
    else
      ShiftRightDivides(v, -delta);
      ShiftRight(v, -delta)
  }

  /** `v.shiftLeft(bitLength - v.bitLength())`: a nonzero `v` ends with exactly `bitLength` bits. */
  function Normalise(v: nat, bitLength: nat): (r: nat)
    ensures v > 0 ==> BitLength(r) == bitLength
  {
    var delta := bitLength - BitLength(v);
    if v > 0 && delta >= 0 then
      BitLengthShiftLeft(v, delta);
      Shift(v, delta)
    else if delta < 0 then
      BitLengthShiftRight(v, -delta);
      Shift(v, delta)
    else
      Shift(v, delta)
  }

  /**
   * The first candidate: the draw read big-endian, normalised, then made odd.
   * It is always odd, and a nonzero draw for a positive bit length gives
   * exactly `bitLength` bits.
   */
  function Candidate(bitLength: nat, draw: seq<Byte>): (r: nat)
    ensures r % 2 == 1
    ensures BigEndian(draw) > 0 && bitLength > 0 ==> BitLength(r) == bitLength
  {
    OrOne(Normalise(BigEndian(draw), bitLength))
  }

  /** An odd prime beyond an odd `start`, at an even distance from it. */
  lemma OddPrimeAbove(start: nat) returns (bound: nat)
    requires start % 2 == 1
    ensures IsPrime(bound) && start < bound && (bound - start) % 2 == 0
  {
    bound := PrimeAbove(start + 1);
    OddPrime(bound);
  }

  /** The search only moves up, so the result keeps the candidate's bit length. */
  lemma ResultLength(bitLength: nat, draw: seq<Byte>, prime: nat)
    requires |draw| == ByteCount(bitLength) && BigEndian(draw) > 0
    requires prime >= Candidate(bitLength, draw)
    ensures BitLength(prime) >= bitLength
  {
    assert |draw| > 0 && bitLength > 0;
    BitLengthMonotone(Candidate(bitLength, draw), prime);
  }

  /** None of the first `steps` members of `start, start + 2, start + 4, ...` is prime. */
  ghost predicate NoPrimeBefore(start: nat, steps: nat)
  {
    forall j :: 0 <= j < steps ==> !IsPrime(start + 2 * j)
  }

  /** `NoPrimeBefore` restated over the values themselves. */
  lemma NoPrimeBetween(start: nat, steps: nat)
    requires NoPrimeBefore(start, steps)
    ensures forall k :: start <= k < start + 2 * steps && (k - start) % 2 == 0 ==> !IsPrime(k)
  {
    forall k | start <= k < start + 2 * steps && (k - start) % 2 == 0
      ensures !IsPrime(k)
    {
      var j := (k - start) / 2;
      assert k == start + 2 * j;
    }
  }

  /** `start + 2*steps` keeps the parity of `start` and lies an even distance above it. */
  lemma EvenStride(start: nat, steps: nat)
    ensures (start + 2 * steps) % 2 == start % 2
    ensures (start + 2 * steps - start) % 2 == 0
  {
    ModAddMultiple(2, steps, start);
    DivModUnique(2 * steps, 2, steps, 0);
  }

  /**
   * The nested `while(!prime.isProbablePrime())` loops: add 2 until the test
   * accepts. The inner loop exits only on a prime, so the outer one runs at
   * most once and the pair behaves as a single loop.
   */
  method StepToPrime(start: nat) returns (prime: nat)
    requires start % 2 == 1
    ensures IsPrime(prime) && prime % 2 == 1
    ensures prime >= start && (prime - start) % 2 == 0
    ensures forall k :: start <= k < prime && (k - start) % 2 == 0 ==> !IsPrime(k)
  {
    prime := start;
    ghost var steps: nat := 0;
    ghost var bound := OddPrimeAbove(start);
    ghost var boundSteps: nat := (bound - start) / 2;
    assert bound == start + 2 * boundSteps;
    while !IsPrime(prime)
      invariant prime == start + 2 * steps && steps <= boundSteps
      invariant NoPrimeBefore(start, steps)
      decreases if IsPrime(prime) then 0 else 1
    {
      while !IsPrime(prime)
        invariant prime == start + 2 * steps && steps <= boundSteps
        invariant NoPrimeBefore(start, steps)
        decreases boundSteps - steps
      {
        prime := prime + 2;
        steps := steps + 1;
      }
    }
    EvenStride(start, steps);
    NoPrimeBetween(start, steps);
  }

  /**
   * `producePrime(bitLength)` given the bytes `crypto.randomBytes` returned.
   * The result is the first prime among `c, c + 2, c + 4, ...` for the
   * candidate `c`; its bit length is at least `bitLength` (the steps by 2 may
   * carry it further) whenever the draw is nonzero.
   */
  method ProducePrime(bitLength: nat, draw: seq<Byte>) returns (prime: nat)
    requires |draw| == ByteCount(bitLength)
    ensures IsPrime(prime) && prime % 2 == 1
    ensures prime >= Candidate(bitLength, draw) && (prime - Candidate(bitLength, draw)) % 2 == 0
    ensures forall k :: Candidate(bitLength, draw) <= k < prime && (k - Candidate(bitLength, draw)) % 2 == 0 ==> !IsPrime(k)
    ensures BigEndian(draw) > 0 ==> BitLength(prime) >= bitLength
  {
    prime := BigEndian(draw);
    prime := Shift(prime, bitLength - BitLength(prime));
    prime := OrOne(prime);
    assert prime == Candidate(bitLength, draw);
    prime := StepToPrime(prime);
    if BigEndian(draw) > 0 {
      ResultLength(bitLength, draw, prime);
    }
  }
}
