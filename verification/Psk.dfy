/** ML-KEM-768 PSK negotiation. The primitives are parameters; only their laws are used. */
module Psk {
  import opened Wrappers

  const HKDF_INFO := "pqvpn-psk-v1"
  const PSK_LENGTH := 32

  /** The primitives of FIPS 203, RFC 5869 and RFC 4648 that both ends call. */
  datatype Crypto = Crypto(
    keygen: Bytes -> (Bytes, Bytes),              // seed -> (decapsulation key, encapsulation key)
    isEk: Bytes -> bool,                          // the encapsulation-key check, FIPS 203 section 7.2
    encaps: (Bytes, Bytes) -> (Bytes, Bytes),     // (key, coins) -> (shared secret, ciphertext)
    isCt: Bytes -> bool,                          // the ciphertext check, FIPS 203 section 7.3
    decaps: (Bytes, Bytes) -> Bytes,              // (key, ciphertext) -> shared secret
    hkdf: (Bytes, Bytes, string, nat) -> Bytes,   // (input key, salt, info, length) -> output key
    toB64: Bytes -> string,
    fromB64: string -> Option<Bytes>)

  /** Decapsulation inverts encapsulation under a generated pair; base64 decodes what it encoded. */
  ghost predicate Lawful(c: Crypto) {
    && (forall seed, coins {:trigger c.encaps(c.keygen(seed).1, coins)} ::
          var (dk, ek) := c.keygen(seed);
          var (secret, ct) := c.encaps(ek, coins);
          c.isEk(ek) && c.isCt(ct) && c.decaps(dk, ct) == secret)
    && (forall b :: c.fromB64(c.toB64(b)) == Some(b))
  }

  datatype NegotiateResult = NegotiateResult(psk: Bytes, ciphertext: Bytes, salt: Bytes)

  /** The coins of one encapsulation, and the salt unless the random source fails. */
  datatype Randomness = Randomness(coins: Bytes, salt: Option<Bytes>)

  function DerivePSK(c: Crypto, secret: Bytes, salt: Bytes): Bytes {
    c.hkdf(secret, salt, HKDF_INFO, PSK_LENGTH)
  }

  /** Server side: check the key, encapsulate to it, draw a salt, derive. */
  function Negotiate(c: Crypto, ekBytes: Bytes, rnd: Randomness): Option<NegotiateResult> {
    if !c.isEk(ekBytes) then None
    else
      var (secret, ct) := c.encaps(ekBytes, rnd.coins);
      match rnd.salt
      case None => None
      case Some(salt) => Some(NegotiateResult(DerivePSK(c, secret, salt), ct, salt))
  }

  /** Client side: decode and check the ciphertext, decapsulate, decode the salt, derive. */
  function ClientDerive(c: Crypto, dk: Bytes, ctB64: string, saltB64: string): Option<Bytes> {
    match c.fromB64(ctB64)
    case None => None
    case Some(ct) =>
      if !c.isCt(ct) then None
      else
        match c.fromB64(saltB64)
        case None => None
        case Some(salt) => Some(DerivePSK(c, c.decaps(dk, ct), salt))
  }

  /** Whatever the server derives for a client's key, the client derives from the reply. */
  lemma BothEndsDeriveTheSame(c: Crypto, seed: Bytes, rnd: Randomness)
    requires Lawful(c)
    ensures var (dk, ek) := c.keygen(seed);
            var r := Negotiate(c, ek, rnd);
            && (r.Some? <==> rnd.salt.Some?)
            && (r.Some?
                ==> ClientDerive(c, dk, c.toB64(r.value.ciphertext), c.toB64(r.value.salt)) == Some(r.value.psk))
            && (r.Some? ==>
                  && rnd.salt == Some(r.value.salt)
                  && r.value.psk == c.hkdf(c.decaps(dk, r.value.ciphertext), r.value.salt, "pqvpn-psk-v1", 32))
  {
    var (dk, ek) := c.keygen(seed);
    var (secret, ct) := c.encaps(c.keygen(seed).1, rnd.coins);
    assert c.isEk(ek) && c.isCt(ct) && c.decaps(dk, ct) == secret;
  }

  /** A key that fails the check, or a salt that cannot be drawn, ends the negotiation; nothing else does. */
  lemma NegotiatesIff(c: Crypto, ekBytes: Bytes, rnd: Randomness)
    ensures Negotiate(c, ekBytes, rnd).Some? <==> c.isEk(ekBytes) && rnd.salt.Some?
  {
  }

  /** The client gets a PSK exactly from a ciphertext and a salt that decode, the ciphertext passing
      its check. */
  lemma DerivesIff(c: Crypto, dk: Bytes, ctB64: string, saltB64: string)
    ensures ClientDerive(c, dk, ctB64, saltB64).Some?
            <==> c.fromB64(ctB64).Some? && c.isCt(c.fromB64(ctB64).value) && c.fromB64(saltB64).Some?
  {
  }

  // ---------- what the PSK depends on ----------

  /** Sizes: a shared secret has 32 bytes, and HKDF gives as many bytes as asked, up to 255 hashes. */
  ghost predicate Sized(c: Crypto) {
    && (forall ek, coins :: |c.encaps(ek, coins).0| == 32)
    && (forall dk, ct :: |c.decaps(dk, ct)| == 32)
    && (forall key, salt, info, n: nat {:trigger c.hkdf(key, salt, info, n)} ::
          n <= 8160 ==> |c.hkdf(key, salt, info, n)| == n)
  }

  /** HKDF with 32 bytes of output taken to be free of collisions: among 32-byte input keys for one
      salt, and among salts of one length up to 32 for one key. */
  ghost predicate Separates(c: Crypto) {
    && (forall key, key', salt, info {:trigger c.hkdf(key, salt, info, 32), c.hkdf(key', salt, info, 32)} ::
          |key| == |key'| == 32 && c.hkdf(key, salt, info, 32) == c.hkdf(key', salt, info, 32) ==> key == key')
    && (forall key, salt, salt', info {:trigger c.hkdf(key, salt, info, 32), c.hkdf(key, salt', info, 32)} ::
          |key| == 32 && |salt| == |salt'| <= 32 && c.hkdf(key, salt, info, 32) == c.hkdf(key, salt', info, 32)
          ==> salt == salt')
  }

  /** Two negotiations with one salt derive one PSK if and only if their shared secrets are equal, and
      two with one secret if and only if their salts are. Every PSK has 32 bytes. */
  lemma PskIdentifiesItsInputs(c: Crypto, ek: Bytes, rnd: Randomness, ek': Bytes, rnd': Randomness)
    requires Sized(c) && Separates(c)
    requires Negotiate(c, ek, rnd).Some? && Negotiate(c, ek', rnd').Some?
    ensures var r, r' := Negotiate(c, ek, rnd).value, Negotiate(c, ek', rnd').value;
            var secret, secret' := c.encaps(ek, rnd.coins).0, c.encaps(ek', rnd'.coins).0;
            && |r.psk| == 32
            && (rnd.salt == rnd'.salt ==> (r.psk == r'.psk <==> secret == secret'))
            && (secret == secret' && |rnd.salt.value| == |rnd'.salt.value| <= 32
                ==> (r.psk == r'.psk <==> rnd.salt == rnd'.salt))
  {
    assert |c.encaps(ek, rnd.coins).0| == 32 && |c.encaps(ek', rnd'.coins).0| == 32;
  }

  /** Whoever is sent the reply derives its PSK exactly by decapsulating it to the same secret. */
  lemma AnotherSecretAnotherPsk(c: Crypto, ek: Bytes, rnd: Randomness, dk: Bytes)
    requires Lawful(c) && Sized(c) && Separates(c) && Negotiate(c, ek, rnd).Some?
    ensures var r := Negotiate(c, ek, rnd).value;
            ClientDerive(c, dk, c.toB64(r.ciphertext), c.toB64(r.salt)) == Some(r.psk)
            <==> c.isCt(r.ciphertext) && c.decaps(dk, r.ciphertext) == c.encaps(ek, rnd.coins).0
  {
    assert |c.encaps(ek, rnd.coins).0| == 32 && |c.decaps(dk, c.encaps(ek, rnd.coins).1)| == 32;
  }

  // ---------- the laws can hold together ----------

  function ByteAt(s: Bytes, i: nat): byte {
    if i < |s| then s[i] else 0
  }

  function Sum(a: Bytes, b: Bytes, n: nat): Bytes {
    seq(n, (i: nat) => (ByteAt(a, i) as int + ByteAt(b, i)) % 256)
  }

  lemma SumSeparates(a: Bytes, a': Bytes, b: Bytes)
    requires |a| == |a'| <= 32 && Sum(a, b, 32) == Sum(a', b, 32)
    ensures a == a'
  {
    forall i | 0 <= i < |a| ensures a[i] == a'[i] {
      assert Sum(a, b, 32)[i] == Sum(a', b, 32)[i];
    }
  }

  lemma SumCommutes(a: Bytes, b: Bytes, n: nat)
    ensures Sum(a, b, n) == Sum(b, a, n)
  {
  }

  function Chars(b: Bytes): string {
    seq(|b|, i requires 0 <= i < |b| => b[i] as char)
  }

  function Unchars(s: string): Option<Bytes> {
    if forall i :: 0 <= i < |s| ==> s[i] as int < 256
    then Some(seq(|s|, i requires 0 <= i < |s| => s[i] as int))
    else None
  }

  /** Primitives, weak ones, that satisfy every law used here: the laws do not contradict each other. */
  lemma LawsCanHold() returns (c: Crypto)
    ensures Lawful(c) && Sized(c) && Separates(c)
  {
    c := Crypto(
      seed => (seed, seed), _ => true, (ek, coins) => (Sum(ek, [], 32), coins), _ => true,
      (dk, ct) => Sum(dk, [], 32), (key, salt, info, n) => Sum(key, salt, n), Chars, Unchars);
    forall b ensures c.fromB64(c.toB64(b)) == Some(b) {
      assert Unchars(Chars(b)).value == b;
    }
    forall key, key', salt | |key| == |key'| == 32 && Sum(key, salt, 32) == Sum(key', salt, 32) ensures key == key' {
      SumSeparates(key, key', salt);
    }
    forall key, salt, salt' | |salt| == |salt'| <= 32 && Sum(key, salt, 32) == Sum(key, salt', 32)
      ensures salt == salt'
    {
      SumCommutes(key, salt, 32);
      SumCommutes(key, salt', 32);
      SumSeparates(salt, salt', key);
    }
  }
}
