/**
 * The ElGamal engine of `elgamal.js`: its fields, the security-level state
 * machine, group initialisation, encryption, decryption, the raw group
 * helpers, the accessors and snapshot export/import.
 *
 * Fields JavaScript may leave `undefined` are `Option`s; every `throw` is a
 * `Failure`/`Fail` carrying an `Error`. A method that draws randomness takes
 * the stream of bytes the random source would deliver and returns the unread
 * rest (see `BigIntManager`).
 */
module ElGamalEngine {
  import opened Common
  import opened ModArith
  import opened Primes
  import opened BigIntManager

  datatype Error =
    | InvalidGenerator      // constructor: `g` is not a valid big integer literal
    | InvalidModulus        // constructor: `p` is not a valid big integer literal
    | InvalidPrivateKey     // constructor: `x` is not a valid big integer literal
    | InvalidPublicKey      // constructor: `y` is not a valid big integer literal
    | InvalidLiteral        // a setter was given a string that is not an integer
    | InvalidSecurityLevel
    | NotInitialized        // checkSecurity without a modulus
    | InconsistentOrder     // checkSecurity at HIGH with 2q + 1 != p
    | UndefinedField        // a TypeError: a method called on an `undefined` field
    | Insecure              // encrypt/decrypt before a successful checkSecurity
    | NotReady              // encrypt/decrypt without p, g, y and x
    | NotImplemented        // encrypt of a string message
    | UnsupportedMessage    // encrypt of a message that is neither a number nor a big integer
    | ZeroModulus           // modPow or mod with modulus 0
    | NotCoprime            // modInv of a value with no inverse
    | PolicyViolation       // the privateKey getter below level 'LOW'
    | OutOfPrimes           // the supplied `getPrime` results ran out
    | OutOfEntropy          // the supplied random bytes ran out

  /**
   * A constructor or setter argument: a big integer or valid decimal literal
   * (`Parsed`), a string that is not one (`Malformed`), or anything else,
   * which leaves the field `undefined` (`Absent`).
   */
  datatype Arg = Absent | Parsed(value: nat) | Malformed

  function ArgValue(a: Arg): (v: Option<nat>)
    requires !a.Malformed?
    ensures v.Some? <==> a.Parsed?
  {
    if a.Parsed? then Some(a.value) else None
  }

  /** A message passed to `encrypt`: a number or big integer, a string, or anything else. */
  datatype Message = Numeric(value: int) | Text(text: string) | Unsupported

  /** `{c1, c2}`: `c1 = g^r mod p` is half the shared secret, `c2` the masked message. */
  datatype Cipher = Cipher(c1: nat, c2: int)

  /** The object `export` returns and `import` reads. */
  datatype Snapshot = Snapshot(r: Option<nat>, security: string, x: Option<nat>,
                               g: Option<nat>, p: Option<nat>, y: Option<nat>)

  /** The accepted levels, compared against the upper-cased argument. */
  const SecurityLevels: seq<string> := ["HIGH", "LOW", "MEDIUM"]

  /** The lower-case partner of an upper-case ASCII letter; other characters are kept. */
  function LowerChar(c: char): char
  {
    if 'A' <= c <= 'Z' then (c as int + 32) as char else c
  }

  /**
   * `toUpperCase` on one ASCII character: the result is never a lower-case
   * letter, and it is either `c` itself or the letter whose lower case is `c`.
   */
  function UpperChar(c: char): (r: char)
    ensures !('a' <= r <= 'z')
    ensures r == c || ('a' <= c <= 'z' && 'A' <= r <= 'Z' && LowerChar(r) == c)
  {
    if 'a' <= c <= 'z' then (c as int - 32) as char else c
  }

  /** `level.toUpperCase()` on ASCII letters, character by character. */
  function Upper(s: string): (r: string)
    ensures |r| == |s|
    ensures forall i :: 0 <= i < |r| ==> !('a' <= r[i] <= 'z')
  {
    seq(|s|, i requires 0 <= i < |s| => UpperChar(s[i]))
  }

  /** A word made of upper-case ASCII letters only. */
  predicate UpperWord(w: string)
  {
    forall i :: 0 <= i < |w| ==> 'A' <= w[i] <= 'Z'
  }

  /** `s` spells `word` with each letter in either case. */
  predicate Spells(s: string, word: string)
  {
    |s| == |word| && forall i :: 0 <= i < |s| ==> s[i] == word[i] || s[i] == LowerChar(word[i])
  }

  /** Upper-casing yields an upper-case word exactly for its spellings in mixed case. */
  lemma UpperOfSpelling(s: string, word: string)
    requires UpperWord(word)
    ensures Upper(s) == word <==> Spells(s, word)
  {
    if Upper(s) == word {
      forall i | 0 <= i < |s|
        ensures s[i] == word[i] || s[i] == LowerChar(word[i])
      {
        assert UpperChar(s[i]) == word[i];
      }
    }
    if Spells(s, word) {
      forall i | 0 <= i < |s|
        ensures Upper(s)[i] == word[i]
      {
        assert s[i] == word[i] || s[i] == LowerChar(word[i]);
      }
      assert Upper(s) == word;
    }
  }

  /**
   * The levels `setSecurityLevel` accepts: exactly the spellings of HIGH, LOW
   * and MEDIUM with each letter in either case.
   */
  lemma LevelAccepted(s: string)
    ensures Upper(s) in SecurityLevels <==> Spells(s, "HIGH") || Spells(s, "LOW") || Spells(s, "MEDIUM")
  {
    UpperOfSpelling(s, SecurityLevels[0]);
    UpperOfSpelling(s, SecurityLevels[1]);
    UpperOfSpelling(s, SecurityLevels[2]);
  }

  /**
   * `p.minus(1).divide(2)`: big-integer division truncates toward zero, so
   * `p = 0` gives 0. The order is consistent with the modulus exactly when the
   * modulus is odd.
   */
  function OrderOf(p: nat): (q: nat)
    ensures 2 * q + 1 == p <==> p % 2 == 1
  {
    if p == 0 then 0 else (p - 1) / 2
  }

  /** `p = 2q + 1` with both prime: the group the HIGH level demands. */
  predicate SafePrimeGroup(p: nat, q: nat)
  {
    IsPrime(p) && IsPrime(q) && p == 2 * q + 1
  }

  /**
   * The four conditions `initialize` demands of a generator: `g^q = 1`,
   * `g^2 != 1`, `(p-1) mod g != 0` and `(p-1) mod (g^-1 mod p) != 0`
   * (the inverse existing and nonzero, so that the last two are defined).
   */
  predicate ValidGenerator(g: nat, q: nat, p: nat)
    requires p > 0
  {
    ModPow(g, q, p) == 1 && ModPow(g, 2, p) != 1 &&
    g != 0 && (p - 1) % g != 0 &&
    ModInv(g, p).Some? && ModInv(g, p).value != 0 && (p - 1) % ModInv(g, p).value != 0
  }

  /** `b.modPow(e, m)` on fields that may be `undefined`, failing where big-integer throws. */
  function ModPowOf(b: Option<nat>, e: Option<nat>, m: Option<nat>): (r: Result<nat, Error>)
    ensures r.Success? <==> b.Some? && e.Some? && m.Some? && m.value > 0
    ensures r.Success? ==> r.value < m.value
    ensures m.Some? && m.value == 0 && b.Some? ==> r == Failure(ZeroModulus)
  {
    if b.None? || m.None? then Failure(UndefinedField)
    else if m.value == 0 then Failure(ZeroModulus)
    else if e.None? then Failure(UndefinedField)
    else Success(ModPow(b.value, e.value, m.value))
  }

  /** The ciphertext of `m` under public value `y` with ephemeral key `k`. */
  function EncryptWith(p: nat, g: nat, y: nat, k: nat, m: int): (c: Cipher)
    requires p > 0
    ensures c.c1 < p
    ensures m >= 0 ==> 0 <= c.c2 < p
    ensures (ModPow(y, k, p) * m - c.c2) % p == 0
  {
    var masked := ModPow(y, k, p) * m;
    Cipher(ModPow(g, k, p), Rem(masked, p))
  }

  /** The outcome of `encrypt` once the ephemeral key `k` is drawn: it depends on the message type. */
  function EncryptOutcome(message: Message, p: nat, g: nat, y: nat, k: nat): (r: Result<Cipher, Error>)
    requires p > 0
    ensures r.Success? <==> message.Numeric?
  {
    match message
    case Text(_) => Failure(NotImplemented)
    case Unsupported => Failure(UnsupportedMessage)
    case Numeric(m) => Success(EncryptWith(p, g, y, k, m))
  }

  /**
   * Decryption with private key `x`: the shared secret `s = c1^x mod p`, then
   * `s^-1 * c2 mod p`. The result times `s` is `c2` modulo `p`.
   */
  function DecryptWith(p: nat, x: nat, c: Cipher): (r: Result<int, Error>)
    ensures p == 0 ==> r == Failure(ZeroModulus)
    ensures p > 0 ==> (r.Failure? <==> ModInv(ModPow(c.c1, x, p), p).None?)
    ensures r.Failure? ==> r.error == ZeroModulus || r.error == NotCoprime
    ensures r.Success? ==> p > 0 && (r.value * ModPow(c.c1, x, p) - c.c2) % p == 0
    ensures r.Success? && c.c2 >= 0 ==> 0 <= r.value < p
  {
    if p == 0 then
      Failure(ZeroModulus)
    else
      var sharedSecret := ModPow(c.c1, x, p);
      match ModInv(sharedSecret, p)
      case None => Failure(NotCoprime)
      case Some(reverseSecret) =>
        var plain := Rem(reverseSecret * c.c2, p);
        UndoMask(plain, reverseSecret, sharedSecret, c.c2, p);
        Success(plain)
  }

  /** If `r = t*c2` and `t*s = 1` modulo `p`, then `r*s = c2` modulo `p`. */
  lemma UndoMask(r: int, t: int, s: int, c2: int, p: nat)
    requires p > 0 && (s * t) % p == 1 && (t * c2 - r) % p == 0
    ensures (r * s - c2) % p == 0
  {
    DivModUnique(s * t - 1, p, (s * t) / p, 0);
    DivModUnique(0, p, 0, 0);
    assert (-(t * c2 - r)) % p == 0 by {
      DividesLinear(p, t * c2 - r, 0, -1);
    }
    DividesLinear(p, -(t * c2 - r), 0, s);
    DividesLinear(p, s * t - 1, s * (-(t * c2 - r)), c2);
    assert c2 * (s * t - 1) + s * (-(t * c2 - r)) == r * s - c2;
  }

  /**
   * Both parties reach the same shared secret: `(g^k)^x = (g^x)^k = g^(x*k)`
   * modulo `p`.
   */
  lemma SharedSecretAgrees(g: nat, x: nat, k: nat, p: nat)
    requires p > 0
    ensures ModPow(ModPow(g, k, p), x, p) == ModPow(ModPow(g, x, p), k, p) == ModPow(g, x * k, p)
  {
    ModPowPow(g, k, x, p);
    ModPowPow(g, x, k, p);
    assert k * x == x * k;
  }

  /**
   * Decrypt after encrypt: with `p` prime, `g` not a multiple of `p`,
   * `y = g^x mod p` and `0 <= m < p`, decryption returns `m` for every
   * ephemeral key `k`.
   */
  lemma DecryptAfterEncrypt(p: nat, g: nat, x: nat, k: nat, m: int)
    requires IsPrime(p) && g % p != 0 && 0 <= m < p
    ensures DecryptWith(p, x, EncryptWith(p, g, ModPow(g, x, p), k, m)) == Success(m)
  {
    var c := EncryptWith(p, g, ModPow(g, x, p), k, m);
    var s := ModPow(ModPow(g, x, p), k, p);
    SharedSecretAgrees(g, x, k, p);
    assert ModPow(c.c1, x, p) == s;
    ModPowNonzero(g, x * k, p);
    DivModUnique(s, p, 0, s);
    InverseExists(s, p);
    var r := DecryptWith(p, x, c);
    SameResidue(r.value, m, s, c.c2, p);
  }

  /** Cancelling an invertible `s`: `r*s = c2 = s*m` modulo prime `p` gives `r = m` in `[0, p)`. */
  lemma SameResidue(r: int, m: int, s: nat, c2: int, p: nat)
    requires IsPrime(p) && s % p != 0 && 0 <= r < p && 0 <= m < p
    requires (r * s - c2) % p == 0 && (s * m - c2) % p == 0
    ensures r == m
  {
    DivModUnique(0, p, 0, 0);
    DividesLinear(p, s * m - c2, 0, -1);
    DividesLinear(p, r * s - c2, -(s * m - c2), 1);
    assert (r - m) * s == 1 * (r * s - c2) + -(s * m - c2);
    if r != m {
      var d: nat := if r > m then r - m else m - r;
      DividesLinear(p, (r - m) * s, 0, -1);
      assert d * s == (r - m) * s || d * s == -1 * ((r - m) * s) + 0;
      DivModUnique(d, p, 0, d);
      NonzeroProduct(d, s, p);
    }
  }

  /** `g^e` stays in the order-`q` subgroup when `g` is in it. */
  lemma SubgroupMembership(g: nat, e: nat, q: nat, p: nat)
    requires p > 1 && ModPow(g, q, p) == 1
    ensures ModPow(ModPow(g, e, p), q, p) == 1
  {
    ModPowPow(g, e, q, p);
    ModPowPow(g, q, e, p);
    assert e * q == q * e;
    PowOne(e);
    DivModUnique(1, p, 0, 1);
  }

  /**
   * Where the generator search of `initialize` ends: at the first drawn
   * exponent `e` whose `2^e mod p` passes the four conditions, with the stream
   * after that draw, or with the stream too short for the next draw and the
   * last generator tried still in `g` (or `g` as it was, when nothing was drawn).
   */
  datatype GeneratorSearch = Found(e: nat, rest: seq<Byte>) | RanOut(g: Option<nat>, rest: seq<Byte>)

  /** The generator loop of `initialize` on the stream `src`, starting from the field value `g`. */
  function GeneratorSpec(order: nat, src: seq<Byte>, g: Option<nat>): (r: GeneratorSearch)
    requires SafePrimeGroup(2 * order + 1, order)
    decreases |src|
    ensures r.Found? ==> 3 <= r.e < 2 * order + 1
    ensures |r.rest| <= |src|
  {
    var modulus := 2 * order + 1;
    match InRangeSpec(modulus, 3, src)
    case Exhausted => RanOut(g, src)
    case Drawn(e, rest) =>
      var generator := ModPow(2, e as nat, modulus);
      if ValidGenerator(generator, order, modulus) then
        Found(e as nat, rest)
      else
        GeneratorSpec(order, rest, Some(generator))
  }

  /** The exponent the generator search settles on gives a generator meeting the four conditions. */
  lemma {:induction false} GeneratorSpecFound(order: nat, src: seq<Byte>, g: Option<nat>)
    requires SafePrimeGroup(2 * order + 1, order)
    requires GeneratorSpec(order, src, g).Found?
    decreases |src|
    ensures ValidGenerator(ModPow(2, GeneratorSpec(order, src, g).e, 2 * order + 1), order, 2 * order + 1)
  {
    var modulus := 2 * order + 1;
    match InRangeSpec(modulus, 3, src)
    case Drawn(e, rest) =>
      var generator := ModPow(2, e as nat, modulus);
      if !ValidGenerator(generator, order, modulus) {
        GeneratorSpecFound(order, rest, Some(generator));
      }
  }

  /** The outcome, unread stream and key fields the generator and key steps of `initialize` leave. */
  datatype KeyState = KeyState(r: Outcome<Error>, rest: seq<Byte>, g: Option<nat>, x: Option<nat>, y: Option<nat>)

  /**
   * The state the generator and key steps of `initialize` leave, given the
   * stream `src` and the fields `g0, x0, y0` before them: the first passing
   * generator draw, then `x` drawn in `[2, p - 2]` and `y = g^x mod p`; when the
   * bytes run out, `OutOfEntropy` with `x` and `y` as they were.
   */
  function GroupKeysSpec(order: nat, src: seq<Byte>, g0: Option<nat>, x0: Option<nat>, y0: Option<nat>): (s: KeyState)
    requires SafePrimeGroup(2 * order + 1, order)
    ensures s.r.Fail? ==> s.r == Fail(OutOfEntropy) && s.x == x0 && s.y == y0
    ensures s.r.Pass? ==> s.x.Some? && 2 <= s.x.value <= 2 * order - 1
  {
    var modulus := 2 * order + 1;
    var search := GeneratorSpec(order, src, g0);
    if search.RanOut? then
      KeyState(Fail(OutOfEntropy), search.rest, search.g, x0, y0)
    else
      var generator := ModPow(2, search.e, modulus);
      match InRangeSpec(modulus - 1, 2, search.rest)
      case Exhausted => KeyState(Fail(OutOfEntropy), search.rest, Some(generator), x0, y0)
      case Drawn(key, rest) =>
        KeyState(Pass, rest, Some(generator), Some(key as nat), Some(ModPow(generator, key as nat, modulus)))
  }

  /** `GroupKeysSpec` when the generator loop runs out of bytes. */
  lemma GroupKeysRanOut(order: nat, src: seq<Byte>, g0: Option<nat>, x0: Option<nat>, y0: Option<nat>)
    requires SafePrimeGroup(2 * order + 1, order) && GeneratorSpec(order, src, g0).RanOut?
    ensures GroupKeysSpec(order, src, g0, x0, y0) ==
            KeyState(Fail(OutOfEntropy), GeneratorSpec(order, src, g0).rest, GeneratorSpec(order, src, g0).g, x0, y0)
  {
  }

  /** `GroupKeysSpec` when a generator is found but the key draw runs out of bytes. */
  lemma GroupKeysNoKey(order: nat, src: seq<Byte>, g0: Option<nat>, x0: Option<nat>, y0: Option<nat>)
    requires SafePrimeGroup(2 * order + 1, order)
    requires GeneratorSpec(order, src, g0).Found?
    requires InRangeSpec(2 * order, 2, GeneratorSpec(order, src, g0).rest).Exhausted?
    ensures GroupKeysSpec(order, src, g0, x0, y0) ==
            KeyState(Fail(OutOfEntropy), GeneratorSpec(order, src, g0).rest,
                     Some(ModPow(2, GeneratorSpec(order, src, g0).e, 2 * order + 1)), x0, y0)
  {
  }

  /** `GroupKeysSpec` when both the generator and the key are drawn. */
  lemma GroupKeysDrawn(order: nat, src: seq<Byte>, g0: Option<nat>, x0: Option<nat>, y0: Option<nat>)
    requires SafePrimeGroup(2 * order + 1, order)
    requires GeneratorSpec(order, src, g0).Found?
    requires InRangeSpec(2 * order, 2, GeneratorSpec(order, src, g0).rest).Drawn?
    ensures var generator := ModPow(2, GeneratorSpec(order, src, g0).e, 2 * order + 1);
            var key := InRangeSpec(2 * order, 2, GeneratorSpec(order, src, g0).rest);
            GroupKeysSpec(order, src, g0, x0, y0) ==
            KeyState(Pass, key.rest, Some(generator), Some(key.value as nat), Some(ModPow(generator, key.value as nat, 2 * order + 1)))
  {
  }

  /**
   * A group and key pair as `initialize` leaves them: `p = 2q + 1` a safe
   * prime, `g` a power of 2 meeting the four generator conditions, `x` in
   * `[2, p - 2]` and `y = g^x mod p`.
   */
  ghost predicate ValidKeys(order: nat, p: Option<nat>, g: Option<nat>, x: Option<nat>, y: Option<nat>)
  {
    p == Some(2 * order + 1) && SafePrimeGroup(p.value, order) &&
    g.Some? && ValidGenerator(g.value, order, p.value) &&
    (exists e :: 3 <= e < p.value && g.value == ModPow(2, e, p.value)) &&
    x.Some? && 2 <= x.value <= p.value - 2 && y == Some(ModPow(g.value, x.value, p.value))
  }

  /**
   * What a successful run of the generator and key steps guarantees: `g` meets
   * the four conditions and is a power of 2, `x` lies in `[2, p - 2]` and
   * `y = g^x mod p`.
   */
  lemma GroupKeysValid(order: nat, src: seq<Byte>, g0: Option<nat>, x0: Option<nat>, y0: Option<nat>)
    requires SafePrimeGroup(2 * order + 1, order)
    requires GroupKeysSpec(order, src, g0, x0, y0).r.Pass?
    ensures var s := GroupKeysSpec(order, src, g0, x0, y0);
            ValidKeys(order, Some(2 * order + 1), s.g, s.x, s.y)
  {
    var modulus := 2 * order + 1;
    var search := GeneratorSpec(order, src, g0);
    assert search.Found?;
    GeneratorSpecFound(order, src, g0);
    assert 3 <= search.e < modulus;
  }

  class ElGamal {
    var p: Option<nat>
    var g: Option<nat>
    var y: Option<nat>
    var x: Option<nat>
    var q: Option<nat>
    var securityLevel: string
    var isSecure: bool
    var lastEncryptionKey: Option<nat>

    /** `new ElGamal(p, g, y, x)` once its arguments are parsed; `q` is derived from `p`. */
    constructor (p: Option<nat>, g: Option<nat>, y: Option<nat>, x: Option<nat>)
      ensures this.p == p && this.g == g && this.y == y && this.x == x
      ensures this.q == (if p.Some? then Some(OrderOf(p.value)) else None)
      ensures securityLevel == "HIGH" && !isSecure && lastEncryptionKey == None
    {
      this.securityLevel := "HIGH";
      this.isSecure := false;
      this.g := g;
      this.p := p;
      this.x := x;
      this.y := y;
      this.q := if p.Some? then Some(OrderOf(p.value)) else None;
      this.lastEncryptionKey := None;
    }

    /**
     * `new ElGamal(p, g, y, x)` with its argument parsing: the first malformed
     * literal, in the order g, p, x, y, is the error thrown.
     */
    static method Create(p: Arg, g: Arg, y: Arg, x: Arg) returns (r: Result<ElGamal, Error>)
      ensures g.Malformed? ==> r == Failure(InvalidGenerator)
      ensures !g.Malformed? && p.Malformed? ==> r == Failure(InvalidModulus)
      ensures !g.Malformed? && !p.Malformed? && x.Malformed? ==> r == Failure(InvalidPrivateKey)
      ensures !g.Malformed? && !p.Malformed? && !x.Malformed? && y.Malformed? ==> r == Failure(InvalidPublicKey)
      ensures r.Success? <==> !g.Malformed? && !p.Malformed? && !x.Malformed? && !y.Malformed?
      ensures r.Success? ==>
                fresh(r.value) && r.value.p == ArgValue(p) && r.value.g == ArgValue(g) &&
                r.value.y == ArgValue(y) && r.value.x == ArgValue(x) &&
                r.value.q == (if p.Parsed? then Some(OrderOf(p.value)) else None) &&
                r.value.securityLevel == "HIGH" && !r.value.isSecure && r.value.lastEncryptionKey == None
    {
      if g.Malformed? { return Failure(InvalidGenerator); }
      if p.Malformed? { return Failure(InvalidModulus); }
      if x.Malformed? { return Failure(InvalidPrivateKey); }
      if y.Malformed? { return Failure(InvalidPublicKey); }
      var engine := new ElGamal(ArgValue(p), ArgValue(g), ArgValue(y), ArgValue(x));
      return Success(engine);
    }

    /** `isReady()`: `p`, `g`, `y` and `x` are all set. */
    predicate IsReady()
      reads this
    {
      p.Some? && g.Some? && y.Some? && x.Some?
    }

    /**
     * `checkSecurity()`. At the exact level "HIGH" it derives a missing `q`
     * from `p` or checks `2q + 1 = p`, then returns whether both are prime;
     * at "MEDIUM" whether `p` is prime; at any other level `true`. Only a
     * `true` result sets `isSecure`; nothing here clears it.
     */
    method CheckSecurity() returns (r: Result<bool, Error>)
      modifies this`q, this`isSecure
      ensures q == (if securityLevel == "HIGH" && old(q).None? && p.Some? then Some(OrderOf(p.value)) else old(q))
      ensures isSecure == (old(isSecure) || r == Success(true))
      ensures securityLevel == "HIGH" ==>
                if p.None? then r == Failure(if old(q).None? then NotInitialized else UndefinedField)
                else if old(q).Some? && 2 * old(q).value + 1 != p.value then r == Failure(InconsistentOrder)
                else q.Some? && r == Success(IsPrime(p.value) && IsPrime(q.value))
      ensures securityLevel == "HIGH" && r == Success(true) ==> SafePrimeGroup(p.value, q.value)
      ensures securityLevel == "MEDIUM" ==>
                r == if p.None? then Failure(NotInitialized) else Success(IsPrime(p.value))
      ensures securityLevel != "HIGH" && securityLevel != "MEDIUM" ==> r == Success(true)
    {
      if securityLevel == "HIGH" {
        if q.None? {
          if p.None? {
            return Failure(NotInitialized);
          }
          q := Some(OrderOf(p.value));
        } else if p.None? {
          return Failure(UndefinedField);
        } else if 2 * q.value + 1 != p.value {
          return Failure(InconsistentOrder);
        }
        if !IsPrime(p.value) {
          return Success(false);
        } else if !IsPrime(q.value) {
          return Success(false);
        }
        if p.value > 2 {
          OddPrime(p.value);
        }
      } else if securityLevel == "MEDIUM" {
        if p.None? {
          return Failure(NotInitialized);
        }
        if !IsPrime(p.value) {
          return Success(false);
        }
      }
      isSecure := true;
      return Success(true);
    }

    /**
     * `setSecurityLevel(level)`: accepted when the upper-cased level is one of
     * HIGH, LOW, MEDIUM, and then stored exactly as given.
     */
    method SetSecurityLevel(level: string) returns (r: Outcome<Error>)
      modifies this`securityLevel
      ensures r.Pass? <==> Upper(level) in SecurityLevels
      ensures r.Fail? ==> r.error == InvalidSecurityLevel
      ensures securityLevel == if r.Pass? then level else old(securityLevel)
    {
      if Upper(level) !in SecurityLevels {
        return Fail(InvalidSecurityLevel);
      }
      securityLevel := level;
      return Pass;
    }

    /**
     * `initialize()` with the results `getPrime` would return (`primes`) and the
     * random bytes (`src`). It takes the first `q` whose `2q + 1` is prime as the
     * modulus, draws exponents in `[3, p)` until `2^e mod p` passes the four
     * generator conditions, then draws `x` in `[2, p - 2]` and sets
     * `y = g^x mod p`. It never assigns `q`, `securityLevel` or `isSecure`.
     */
    method Initialize(primes: seq<nat>, src: seq<Byte>) returns (r: Outcome<Error>, rest: seq<Byte>, ghost order: nat)
      requires forall i :: 0 <= i < |primes| ==> IsPrime(primes[i])
      modifies this`p, this`g, this`x, this`y
      ensures r.Fail? ==> r.error == OutOfPrimes || r.error == OutOfEntropy
      ensures |primes| == 0 ==> r == Fail(OutOfPrimes) && p == old(p)
      ensures |primes| > 0 ==> p.Some?
      ensures r == Fail(OutOfPrimes) ==>
                (forall j :: 0 <= j < |primes| ==> !IsPrime(2 * primes[j] + 1)) &&
                g == old(g) && x == old(x) && y == old(y)
      ensures r != Fail(OutOfPrimes) ==>
                (exists i :: 0 <= i < |primes| && order == primes[i] &&
                             forall j :: 0 <= j < i ==> !IsPrime(2 * primes[j] + 1)) &&
                p == Some(2 * order + 1) && SafePrimeGroup(2 * order + 1, order) &&
                KeyState(r, rest, g, x, y) == GroupKeysSpec(order, src, old(g), old(x), old(y))
      ensures r.Pass? ==> ValidKeys(order, p, g, x, y) && IsReady()
    {
      var found := ChooseModulus(primes);
      if found.None? {
        return Fail(OutOfPrimes), src, 0;
      }
      order := found.value;
      r, rest := ChooseGroupKeys(found.value, src);
      if r.Pass? {
        GroupKeysValid(order, src, old(g), old(x), old(y));
      }
    }

    /** The generator loop and the key draw of `initialize`, once the modulus is fixed. */
    method ChooseGroupKeys(order: nat, src: seq<Byte>) returns (r: Outcome<Error>, rest: seq<Byte>)
      requires SafePrimeGroup(2 * order + 1, order) && p == Some(2 * order + 1)
      modifies this`g, this`x, this`y
      ensures KeyState(r, rest, g, x, y) == GroupKeysSpec(order, src, old(g), old(x), old(y))
    {
      var generated := ChooseGenerator(order, src);
      rest := generated.1;
      if !generated.0 {
        GroupKeysRanOut(order, src, old(g), old(x), old(y));
        return Fail(OutOfEntropy), rest;
      }
      var keyed := ChooseKeys(order, rest);
      if !keyed.0 {
        GroupKeysNoKey(order, src, old(g), old(x), old(y));
        return Fail(OutOfEntropy), rest;
      }
      GroupKeysDrawn(order, src, old(g), old(x), old(y));
      return Pass, keyed.1;
    }

    /**
     * The `do { getPrime } while (!p.isPrime())` loop of `initialize`: each
     * prime `q` supplied is tried as `p = 2q + 1`, and the first prime `p` is kept.
     */
    method ChooseModulus(primes: seq<nat>) returns (order: Option<nat>)
      requires forall i :: 0 <= i < |primes| ==> IsPrime(primes[i])
      modifies this`p
      ensures order.None? ==> forall j :: 0 <= j < |primes| ==> !IsPrime(2 * primes[j] + 1)
      ensures p == if |primes| == 0 then old(p) else Some(2 * (if order.Some? then order.value else primes[|primes| - 1]) + 1)
      ensures order.Some? ==>
                (exists i :: 0 <= i < |primes| && order.value == primes[i] &&
                             forall j :: 0 <= j < i ==> !IsPrime(2 * primes[j] + 1)) &&
                p == Some(2 * order.value + 1) && SafePrimeGroup(2 * order.value + 1, order.value)
    {
      var i := 0;
      while i < |primes|
        invariant 0 <= i <= |primes|
        invariant forall j :: 0 <= j < i ==> !IsPrime(2 * primes[j] + 1)
        invariant p == if i == 0 then old(p) else Some(2 * primes[i - 1] + 1)
      {
        p := Some(2 * primes[i] + 1);
        if IsPrime(2 * primes[i] + 1) {
          return Some(primes[i]);
        }
        i := i + 1;
      }
      return None;
    }

    /**
     * The generator loop of `initialize`: draw `e` in `[3, p)`, set `g = 2^e mod p`,
     * and repeat until the four conditions hold.
     */
    method ChooseGenerator(order: nat, src: seq<Byte>) returns (r: (bool, seq<Byte>))
      requires SafePrimeGroup(2 * order + 1, order) && p == Some(2 * order + 1)
      modifies this`g
      ensures r.0 <==> GeneratorSpec(order, src, old(g)).Found?
      ensures r.1 == GeneratorSpec(order, src, old(g)).rest
      ensures r.0 ==> g == Some(ModPow(2, GeneratorSpec(order, src, old(g)).e, 2 * order + 1))
      ensures !r.0 ==> g == GeneratorSpec(order, src, old(g)).g
    {
      var rest := src;
      var modulus := 2 * order + 1;
      ModPowZeroBase(order, modulus);
      while true
        invariant GeneratorSpec(order, rest, g) == GeneratorSpec(order, src, old(g))
        decreases |rest|
      {
        var exponent := GetInRange(modulus, 3, rest);
        if exponent.Exhausted? {
          return (false, rest);
        }
        ghost var before, previous := rest, g;
        rest := exponent.rest;
        var e: nat := exponent.value;
        var generator := ModPow(2, e, modulus);
        g := Some(generator);
        if ModPow(generator, order, modulus) == 1 && ModPow(generator, 2, modulus) != 1 {
          if (modulus - 1) % generator != 0 {
            DivModUnique(generator, modulus, 0, generator);
            InverseExists(generator, modulus);
            var inverse := ModInv(generator, modulus).value;
            if (modulus - 1) % inverse != 0 {
              assert ValidGenerator(generator, order, modulus);
              return (true, rest);
            }
          }
        }
        assert !ValidGenerator(generator, order, modulus);
        assert GeneratorSpec(order, before, previous) == GeneratorSpec(order, rest, g);
      }
    }

    /** The last step of `initialize`: draw `x` in `[2, p - 2]` and set `y = g^x mod p`. */
    method ChooseKeys(order: nat, src: seq<Byte>) returns (r: (bool, seq<Byte>))
      requires p == Some(2 * order + 1) && order >= 2 && g.Some?
      modifies this`x, this`y
      ensures r.0 <==> InRangeSpec(2 * order, 2, src).Drawn?
      ensures r.0 ==> x == Some(InRangeSpec(2 * order, 2, src).value as nat) &&
                      r.1 == InRangeSpec(2 * order, 2, src).rest &&
                      2 <= x.value <= 2 * order - 1 && y == Some(ModPow(g.value, x.value, 2 * order + 1))
      ensures !r.0 ==> x == old(x) && y == old(y) && r.1 == src
    {
      assert p.value - 1 == 2 * order;
      var privateKey := GetInRange(p.value - 1, 2, src);
      if privateKey.Exhausted? {
        return (false, src);
      }
      var key: nat := privateKey.value;
      x := Some(key);
      y := Some(ModPow(g.value, key, p.value));
      return (true, privateKey.rest);
    }

    /**
     * `encrypt(message)`: refuses an engine that is not secure, then one that
     * is not ready; draws the ephemeral key `k` in `[1, p - 2]` and records it as
     * `lastEncryptionKey` before looking at the message, so a string or an
     * unsupported message fails with the key already overwritten.
     */
    method Encrypt(message: Message, src: seq<Byte>) returns (r: Result<Cipher, Error>, rest: seq<Byte>)
      requires isSecure && IsReady() ==> p.value >= 4
      modifies this`lastEncryptionKey
      ensures !isSecure ==> r == Failure(Insecure) && rest == src && lastEncryptionKey == old(lastEncryptionKey)
      ensures isSecure && !IsReady() ==>
                r == Failure(NotReady) && rest == src && lastEncryptionKey == old(lastEncryptionKey)
      ensures isSecure && IsReady() && InRangeSpec(p.value - 1, 1, src).Exhausted? ==>
                r == Failure(OutOfEntropy) && lastEncryptionKey == old(lastEncryptionKey)
      ensures isSecure && IsReady() && InRangeSpec(p.value - 1, 1, src).Drawn? ==>
                var k := InRangeSpec(p.value - 1, 1, src).value;
                1 <= k <= p.value - 2 && lastEncryptionKey == Some(k) &&
                rest == InRangeSpec(p.value - 1, 1, src).rest &&
                r == EncryptOutcome(message, p.value, g.value, y.value, k)
    {
      rest := src;
      if !isSecure {
        return Failure(Insecure), rest;
      }
      if !IsReady() {
        return Failure(NotReady), rest;
      }
      var modulus := p.value;
      var draw := GetInRange(modulus - 1, 1, src);
      if draw.Exhausted? {
        return Failure(OutOfEntropy), rest;
      }
      var tempPrivateKey: nat := draw.value;
      rest := draw.rest;
      lastEncryptionKey := Some(tempPrivateKey);
      match message {
        case Text(_) =>
          r := Failure(NotImplemented);
        case Unsupported =>
          r := Failure(UnsupportedMessage);
        case Numeric(m) =>
          r := Success(Cipher(ModPow(g.value, tempPrivateKey, modulus),
                              Rem(ModPow(y.value, tempPrivateKey, modulus) * m, modulus)));
      }
    }

    /** `decrypt({c1, c2})`: the same two guards as `encrypt`, then `DecryptWith`. */
    function Decrypt(c: Cipher): (r: Result<int, Error>)
      reads this
      ensures !isSecure ==> r == Failure(Insecure)
      ensures isSecure && !IsReady() ==> r == Failure(NotReady)
      ensures r.Success? ==> isSecure && IsReady() && p.value > 0 &&
                             (r.value * ModPow(c.c1, x.value, p.value) - c.c2) % p.value == 0
      ensures isSecure && IsReady() ==> r == DecryptWith(p.value, x.value, c)
    {
      if !isSecure then Failure(Insecure)
      else if !IsReady() then Failure(NotReady)
      else DecryptWith(p.value, x.value, c)
    }

    /** `randomGropuMember()`: `g^e mod p` for an exponent `e` drawn in `[3, p)`. */
    method RandomGroupMember(src: seq<Byte>) returns (r: Result<nat, Error>, rest: seq<Byte>)
      requires p.Some? ==> p.value >= 5
      ensures p.None? ==> r == Failure(UndefinedField) && rest == src
      ensures p.Some? && InRangeSpec(p.value, 3, src).Exhausted? ==> r == Failure(OutOfEntropy)
      ensures p.Some? && InRangeSpec(p.value, 3, src).Drawn? ==>
                rest == InRangeSpec(p.value, 3, src).rest &&
                (g.None? ==> r == Failure(UndefinedField)) &&
                (g.Some? ==> r == Success(ModPow(g.value, InRangeSpec(p.value, 3, src).value as nat, p.value)))
      ensures r.Success? ==> p.Some? && g.Some? && exists e :: 3 <= e < p.value && r.value == ModPow(g.value, e, p.value)
    {
      rest := src;
      if p.None? {
        return Failure(UndefinedField), rest;
      }
      var exponent := GetInRange(p.value, 3, src);
      if exponent.Exhausted? {
        return Failure(OutOfEntropy), rest;
      }
      rest := exponent.rest;
      if g.None? {
        return Failure(UndefinedField), rest;
      }
      var e: nat := exponent.value;
      return Success(ModPow(g.value, e, p.value)), rest;
    }

    /**
     * `power(e)`: `g^e mod p`, whatever the security state. `power(1)` is `g`
     * for `g < p`.
     */
    function Power(e: nat): (r: Result<nat, Error>)
      reads this
      ensures r.Success? <==> g.Some? && p.Some? && p.value > 0
      ensures r.Success? ==> r.value < p.value
      ensures r.Success? && e == 1 && g.value < p.value ==> r.value == g.value
    {
      if g.Some? && p.Some? && p.value > 0 && g.value < p.value then
        assert Pow(g.value, 1) == g.value * Pow(g.value, 0);
        DivModUnique(g.value, p.value, 0, g.value);
        ModPowOf(g, Some(e), p)
      else
        ModPowOf(g, Some(e), p)
    }

    /** `add(a, b)`: `(a + b) mod p` with big-integer's sign-of-dividend remainder. */
    function Add(a: int, b: int): (r: Result<int, Error>)
      reads this
      ensures r.Success? <==> p.Some? && p.value > 0
      ensures p.Some? && p.value == 0 ==> r == Failure(ZeroModulus)
      ensures r.Success? ==> (r.value - (a + b)) % p.value == 0
      ensures r.Success? && a + b >= 0 ==> 0 <= r.value < p.value
      ensures r.Success? && a + b < 0 ==> -(p.value as int) < r.value <= 0
    {
      if p.None? then Failure(UndefinedField)
      else if p.value == 0 then Failure(ZeroModulus)
      else
        var v := Rem(a + b, p.value);
        DividesLinear(p.value, (a + b) - v, 0, -1);
        Success(v)
    }

    /** `multiply(a, b)`: `(a * b) mod p` with big-integer's sign-of-dividend remainder. */
    function Multiply(a: int, b: int): (r: Result<int, Error>)
      reads this
      ensures r.Success? <==> p.Some? && p.value > 0
      ensures p.Some? && p.value == 0 ==> r == Failure(ZeroModulus)
      ensures r.Success? ==> (r.value - a * b) % p.value == 0
      ensures r.Success? && a * b >= 0 ==> 0 <= r.value < p.value
      ensures r.Success? && a * b < 0 ==> -(p.value as int) < r.value <= 0
    {
      if p.None? then Failure(UndefinedField)
      else if p.value == 0 then Failure(ZeroModulus)
      else
        var v := Rem(a * b, p.value);
        DivModUnique(0, p.value, 0, 0);
        DividesLinear(p.value, a * b - v, 0, -1);
        Success(v)
    }

    /** The `generator` getter. */
    function Generator(): (r: Result<nat, Error>)
      reads this
      ensures r.Success? <==> g.Some?
      ensures r.Success? ==> r.value == g.value
    {
      if g.Some? then Success(g.value) else Failure(UndefinedField)
    }

    /** The `groupOrder` getter. */
    function GroupOrder(): (r: Result<nat, Error>)
      reads this
      ensures r.Success? <==> q.Some?
      ensures r.Success? ==> r.value == q.value
    {
      if q.Some? then Success(q.value) else Failure(UndefinedField)
    }

    /** The `modulus` getter. */
    function Modulus(): (r: Result<nat, Error>)
      reads this
      ensures r.Success? <==> p.Some?
      ensures r.Success? ==> r.value == p.value
    {
      if p.Some? then Success(p.value) else Failure(UndefinedField)
    }

    /** The `publicKey` getter. */
    function PublicKey(): (r: Result<nat, Error>)
      reads this
      ensures r.Success? <==> y.Some?
      ensures r.Success? ==> r.value == y.value
    {
      if y.Some? then Success(y.value) else Failure(UndefinedField)
    }

    /** The `privateKey` getter: only at the exact level "LOW". */
    function PrivateKey(): (r: Result<nat, Error>)
      reads this
      ensures securityLevel != "LOW" ==> r == Failure(PolicyViolation)
      ensures r.Success? <==> securityLevel == "LOW" && x.Some?
      ensures r.Success? ==> r.value == x.value
    {
      if securityLevel != "LOW" then Failure(PolicyViolation)
      else if x.Some? then Success(x.value)
      else Failure(UndefinedField)
    }

    /** The `generator` setter: replaces `g` and leaves `isSecure` as it was. */
    method SetGenerator(a: Arg) returns (r: Outcome<Error>)
      modifies this`g
      ensures r == if a.Malformed? then Fail(InvalidLiteral) else Pass
      ensures g == if a.Malformed? then old(g) else ArgValue(a)
    {
      if a.Malformed? { return Fail(InvalidLiteral); }
      g := ArgValue(a);
      return Pass;
    }

    /** The `groupOrder` setter: replaces `q` and leaves `isSecure` as it was. */
    method SetGroupOrder(a: Arg) returns (r: Outcome<Error>)
      modifies this`q
      ensures r == if a.Malformed? then Fail(InvalidLiteral) else Pass
      ensures q == if a.Malformed? then old(q) else ArgValue(a)
    {
      if a.Malformed? { return Fail(InvalidLiteral); }
      q := ArgValue(a);
      return Pass;
    }

    /** The `modulus` setter: replaces `p` (not `q`) and leaves `isSecure` as it was. */
    method SetModulus(a: Arg) returns (r: Outcome<Error>)
      modifies this`p
      ensures r == if a.Malformed? then Fail(InvalidLiteral) else Pass
      ensures p == if a.Malformed? then old(p) else ArgValue(a)
    {
      if a.Malformed? { return Fail(InvalidLiteral); }
      p := ArgValue(a);
      return Pass;
    }

    /** The `publicKey` setter: replaces `y` and leaves `isSecure` as it was. */
    method SetPublicKey(a: Arg) returns (r: Outcome<Error>)
      modifies this`y
      ensures r == if a.Malformed? then Fail(InvalidLiteral) else Pass
      ensures y == if a.Malformed? then old(y) else ArgValue(a)
    {
      if a.Malformed? { return Fail(InvalidLiteral); }
      y := ArgValue(a);
      return Pass;
    }

    /** The `privateKey` setter: replaces `x` and leaves `isSecure` as it was. */
    method SetPrivateKey(a: Arg) returns (r: Outcome<Error>)
      modifies this`x
      ensures r == if a.Malformed? then Fail(InvalidLiteral) else Pass
      ensures x == if a.Malformed? then old(x) else ArgValue(a)
    {
      if a.Malformed? { return Fail(InvalidLiteral); }
      x := ArgValue(a);
      return Pass;
    }

    /**
     * `export(deep)`: with `deep` the last ephemeral key is handed out and
     * cleared (before `y` is computed, so also when that throws); `x` is
     * included only at the exact level "LOW"; `y` is recomputed as `g^x mod p`.
     */
    method Export(deep: bool) returns (r: Result<Snapshot, Error>)
      modifies this`lastEncryptionKey
      ensures lastEncryptionKey == if deep then None else old(lastEncryptionKey)
      ensures r.Success? <==> g.Some? && x.Some? && p.Some? && p.value > 0
      ensures r.Failure? ==> r.error == UndefinedField || r.error == ZeroModulus
      ensures r.Success? ==>
                r.value == Snapshot(if deep then old(lastEncryptionKey) else None,
                                    securityLevel,
                                    if securityLevel == "LOW" then x else None,
                                    g, p, Some(ModPow(g.value, x.value, p.value)))
    {
      var key: Option<nat> := None;
      if deep {
        key := lastEncryptionKey;
        lastEncryptionKey := None;
      }
      var publicValue := ModPowOf(g, x, p);
      if publicValue.Failure? {
        return Failure(publicValue.error);
      }
      return Success(Snapshot(key, securityLevel, if securityLevel == "LOW" then x else None,
                              g, p, Some(publicValue.value)));
    }

    /**
     * `import(engine)` as written: clears `isSecure` and copies `g`, `p`, `x` and
     * the level, but sets `y` to the snapshot's modulus.
     */
    method Import(s: Snapshot)
      modifies this`isSecure, this`g, this`p, this`y, this`securityLevel, this`x
      ensures !isSecure
      ensures g == s.g && p == s.p && x == s.x && securityLevel == s.security
      ensures y == s.p
    {
      isSecure := false;
      g := s.g;
      p := s.p;
      y := s.p;
      securityLevel := s.security;
      x := s.x;
    }

    /** `import(engine)` as evidently intended: `y` is the snapshot's public value. */
    method ImportRestoringKey(s: Snapshot)
      modifies this`isSecure, this`g, this`p, this`y, this`securityLevel, this`x
      ensures !isSecure
      ensures g == s.g && p == s.p && x == s.x && securityLevel == s.security
      ensures y == s.y
    {
      isSecure := false;
      g := s.g;
      p := s.p;
      y := s.y;
      securityLevel := s.security;
      x := s.x;
    }

    /** `setSecurityLevel(level)` as evidently intended: the level is stored upper-cased. */
    method SetSecurityLevelCanonical(level: string) returns (r: Outcome<Error>)
      modifies this`securityLevel
      ensures r.Pass? <==> Upper(level) in SecurityLevels
      ensures r.Fail? ==> r.error == InvalidSecurityLevel
      ensures securityLevel == if r.Pass? then Upper(level) else old(securityLevel)
      ensures r.Pass? ==> securityLevel in SecurityLevels
    {
      if Upper(level) !in SecurityLevels {
        return Fail(InvalidSecurityLevel);
      }
      securityLevel := Upper(level);
      return Pass;
    }
  }
}
