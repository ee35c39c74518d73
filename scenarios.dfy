/**
 * Runs of the engine on a small safe-prime group (`p = 23`, `q = 11`,
 * `g = 4`), the end-to-end properties of a whole session, and the two places
 * where the engine as written departs from what its callers rely on.
 */
module ElGamalScenarios {
  import opened Common
  import opened ModArith
  import opened Primes
  import opened Bits
  import opened BigIntManager
  import opened ElGamalEngine

  /** `NoDivisorBelow(n, k)`: no `d` in `[2, k)` divides `n`. */
  function NoDivisorBelow(n: nat, k: nat): bool
  {
    if k <= 2 then true else n % (k - 1) != 0 && NoDivisorBelow(n, k - 1)
  }

  /** Trial division decides primality. */
  lemma {:induction false} TrialDivision(n: nat, k: nat)
    requires NoDivisorBelow(n, k)
    ensures forall d :: 2 <= d < k ==> !Divides(d, n)
  {
    if k > 2 {
      TrialDivision(n, k - 1);
    }
  }

  lemma ToyPrimes()
    ensures IsPrime(23) && IsPrime(11)
  {
    assert NoDivisorBelow(23, 3);
    assert NoDivisorBelow(23, 4);
    assert NoDivisorBelow(23, 5);
    assert NoDivisorBelow(23, 6);
    assert NoDivisorBelow(23, 7);
    assert NoDivisorBelow(23, 8);
    assert NoDivisorBelow(23, 9);
    assert NoDivisorBelow(23, 10);
    assert NoDivisorBelow(23, 11);
    assert NoDivisorBelow(23, 12);
    assert NoDivisorBelow(23, 13);
    assert NoDivisorBelow(23, 14);
    assert NoDivisorBelow(23, 15);
    assert NoDivisorBelow(23, 16);
    assert NoDivisorBelow(23, 17);
    assert NoDivisorBelow(23, 18);
    assert NoDivisorBelow(23, 19);
    assert NoDivisorBelow(23, 20);
    assert NoDivisorBelow(23, 21);
    assert NoDivisorBelow(23, 22);
    assert NoDivisorBelow(23, 23);
    TrialDivision(23, 23);
    assert NoDivisorBelow(11, 3);
    assert NoDivisorBelow(11, 4);
    assert NoDivisorBelow(11, 5);
    assert NoDivisorBelow(11, 6);
    assert NoDivisorBelow(11, 7);
    assert NoDivisorBelow(11, 8);
    assert NoDivisorBelow(11, 9);
    assert NoDivisorBelow(11, 10);
    assert NoDivisorBelow(11, 11);
    TrialDivision(11, 11);
  }

  /** The upper-casing `setSecurityLevel` compares with. */
  lemma UpperMedium()
    ensures Upper("medium") == "MEDIUM"
  {
    var u := Upper("medium");
    assert u[0] == 'M' && u[1] == 'E' && u[2] == 'D' && u[3] == 'I' && u[4] == 'U' && u[5] == 'M';
  }

  /** The toy key pair: `4^6 mod 23 = 2`. */
  lemma ToyKeyPair()
    ensures ModPow(4, 6, 23) == 2
  {
    assert Pow(4, 3) == 64;
    assert Pow(4, 6) == Pow(4, 3) * Pow(4, 3) by {
      PowAdd(4, 3, 3);
    }
  }

  /** The powers of the toy encryption with `k = 3` and its decryption. */
  lemma ToyPowers()
    ensures ModPow(4, 3, 23) == 18 && ModPow(2, 3, 23) == 8 && ModPow(18, 6, 23) == 8
  {
    assert Pow(4, 3) == 64;
    assert Pow(2, 3) == 8;
    assert Pow(18, 3) == 5832;
    assert Pow(18, 6) == Pow(18, 3) * Pow(18, 3) by {
      PowAdd(18, 3, 3);
    }
  }

  /** `8^-1 = 3` modulo 23. */
  lemma ToyInverse()
    ensures ModInv(8, 23) == Some(3)
  {
    assert IsInverse(8, 3, 23);
    ModInvCharacterised(8, 3, 23);
  }

  /**
   * The toy key pair with ephemeral key `k = 3`: 9 encrypts to `(18, 3)`,
   * which decrypts back to 9.
   */
  lemma ToyCipher()
    ensures EncryptWith(23, 4, 2, 3, 9) == Cipher(18, 3)
    ensures DecryptWith(23, 6, Cipher(18, 3)) == Success(9)
  {
    ToyPowers();
    ToyInverse();
    assert Rem(8 * 9, 23) == 3;
    assert Rem(3 * 3, 23) == 9;
  }

  /**
   * The usage of the engine with known keys: construct, `checkSecurity`,
   * encrypt 9 with the ephemeral key drawn from one random byte `b`, decrypt.
   * Every byte up to 20 is accepted at once (`k = b + 1`) and the message
   * comes back.
   */
  method ToySession(b: Byte) returns (secure: Result<bool, Error>, plain: Result<int, Error>)
    requires b <= 20
    ensures secure == Success(true)
    ensures plain == Success(9)
  {
    var engine := new ElGamal(Some(23), Some(4), Some(2), Some(6));
    ToyPrimes();
    ToyKeyPair();
    secure := engine.CheckSecurity();
    SingleByteDraw(engine.p.value - 1, 1, b);
    plain := EncryptThenDecrypt(engine, 9, [b]);
  }

  /**
   * Encrypt then decrypt on one engine whose key pair matches (`y = g^x mod p`)
   * over a prime modulus: the message comes back, and only running out of
   * random bytes can stop the encryption.
   */
  method EncryptThenDecrypt(engine: ElGamal, m: int, src: seq<Byte>) returns (plain: Result<int, Error>)
    requires engine.isSecure && engine.IsReady()
    requires IsPrime(engine.p.value) && engine.p.value >= 4 && engine.g.value % engine.p.value != 0
    requires engine.y == Some(ModPow(engine.g.value, engine.x.value, engine.p.value))
    requires 0 <= m < engine.p.value
    modifies engine`lastEncryptionKey
    ensures plain == Success(m) || plain == Failure(OutOfEntropy)
    ensures InRangeSpec(engine.p.value - 1, 1, src).Drawn? ==> plain == Success(m)
  {
    var cipher, rest := engine.Encrypt(Numeric(m), src);
    if cipher.Failure? {
      return Failure(cipher.error);
    }
    var k: nat := InRangeSpec(engine.p.value - 1, 1, src).value;
    DecryptAfterEncrypt(engine.p.value, engine.g.value, engine.x.value, k, m);
    plain := engine.Decrypt(cipher.value);
  }

  /**
   * A fresh engine (`new ElGamal()`) that `initialize` completes passes
   * `checkSecurity` at the default level: the order it lacks is derived from
   * the new modulus, and the group is a safe-prime group.
   */
  method InitializedEngineIsSecure(primes: seq<nat>, src: seq<Byte>) returns (init: Outcome<Error>, secure: Result<bool, Error>)
    requires forall i :: 0 <= i < |primes| ==> IsPrime(primes[i])
    ensures init.Pass? ==> secure == Success(true)
    ensures secure == Failure(NotInitialized) <==> |primes| == 0
  {
    var engine := new ElGamal(None, None, None, None);
    var rest;
    ghost var order;
    init, rest, order := engine.Initialize(primes, src);
    secure := engine.CheckSecurity();
    if init.Pass? {
      assert OrderOf(2 * order + 1) == order;
    }
  }

  /**
   * As written, `import` copies the snapshot's modulus into `y`: after an
   * export/import the public value 2 of the toy engine becomes 23.
   */
  method ImportLosesPublicKey() returns (exported: Option<nat>, imported: Option<nat>)
    ensures exported == Some(2) && imported == Some(23)
  {
    var source := new ElGamal(Some(23), Some(4), Some(2), Some(6));
    var snapshot := source.Export(false);
    assert ModPow(4, 6, 23) == 2;
    exported := snapshot.value.y;
    var target := new ElGamal(None, None, None, None);
    target.Import(snapshot.value);
    imported := target.y;
  }

  /**
   * Export then the corrected import carries the key pair over whole: the new
   * engine has the source's group, its public value `g^x mod p`, and is not
   * yet secure.
   */
  method TransferKeys(source: ElGamal) returns (r: Result<ElGamal, Error>)
    requires source.IsReady() && source.p.value > 0
    modifies source`lastEncryptionKey
    ensures r.Success? && fresh(r.value)
    ensures r.value.p == source.p && r.value.g == source.g && !r.value.isSecure
    ensures r.value.y == Some(ModPow(source.g.value, source.x.value, source.p.value))
    ensures r.value.securityLevel == source.securityLevel
    ensures r.value.x == if source.securityLevel == "LOW" then source.x else None
  {
    var snapshot := source.Export(false);
    var target := new ElGamal(None, None, None, None);
    target.ImportRestoringKey(snapshot.value);
    return Success(target);
  }

  /** With the corrected import, the toy engine's public value survives the transfer. */
  method ImportRestoresPublicKey() returns (exported: Option<nat>, imported: Option<nat>)
    ensures exported == Some(2) && imported == Some(2)
  {
    var source := new ElGamal(Some(23), Some(4), Some(2), Some(6));
    assert ModPow(4, 6, 23) == 2;
    exported := source.y;
    var target := TransferKeys(source);
    imported := target.value.y;
  }

  /**
   * As written, `setSecurityLevel('medium')` is accepted but stored in lower
   * case, and `checkSecurity` then falls through to its permissive branch:
   * the composite modulus 9 is declared secure.
   */
  method LowercaseMediumSkipsPrimality() returns (level: Outcome<Error>, secure: Result<bool, Error>)
    ensures level == Pass && secure == Success(true)
  {
    var engine := new ElGamal(Some(9), Some(2), Some(4), Some(2));
    assert Divides(3, 9);
    UpperMedium();
    assert "medium"[0] != "HIGH"[0] && "medium"[0] != "MEDIUM"[0];
    level := engine.SetSecurityLevel("medium");
    secure := engine.CheckSecurity();
  }

  /** With the level stored upper-cased, the same engine is checked and refused. */
  method CanonicalMediumChecksPrimality() returns (level: Outcome<Error>, secure: Result<bool, Error>)
    ensures level == Pass && secure == Success(false)
  {
    var engine := new ElGamal(Some(9), Some(2), Some(4), Some(2));
    assert Divides(3, 9);
    UpperMedium();
    level := engine.SetSecurityLevelCanonical("medium");
    secure := engine.CheckSecurity();
  }
}
