/** The commutative cipher the host uses for the oblivious transfer
    (src/runHostProtocol.ts, lines 16, 47-50 and 63-65). Its internals are
    not part of this model: a cipher is a pair of operations on group
    elements, and the two laws the protocol relies on are a hypothesis of
    every lemma that needs them. */
module CommutativeCipher {

  /** A key of the cipher (`CommutableCipher.random()` draws one). */
  type Key = int

  /** `encrypt(key, value)` and `decrypt(key, value)` on group elements,
      which the source carries as integers. */
  datatype Cipher = Cipher(encrypt: (Key, int) -> int, decrypt: (Key, int) -> int)

  /** Removing a key undoes applying it. */
  ghost predicate Inverts(c: Cipher)
  {
    forall k: Key, x: int :: c.decrypt(k, c.encrypt(k, x)) == x
  }

  /** Applying two keys in either order gives the same value. */
  ghost predicate Commutes(c: Cipher)
  {
    forall a: Key, b: Key, x: int :: c.encrypt(a, c.encrypt(b, x)) == c.encrypt(b, c.encrypt(a, x))
  }

  ghost predicate Lawful(c: Cipher)
  {
    Inverts(c) && Commutes(c)
  }

  /** `secrets.friendship.encrypt(cc)`, `secrets.love.encrypt(cc)`. */
  function EncryptPair(c: Cipher, key: Key, friendship: int, love: int): (r: (int, int))
    ensures Inverts(c) ==> c.decrypt(key, r.0) == friendship && c.decrypt(key, r.1) == love
  {
    (c.encrypt(key, friendship), c.encrypt(key, love))
  }

  /** `new CipherMessage(BigInt(messageToDecrypt.value)).decrypt(cc)`: the
      host removes its own key layer from whatever it is sent, without
      interpreting the result. Applied to a value the joiner re-encrypted
      over the host's layer, it leaves that value encrypted under the
      joiner's key alone. */
  function BlindDecrypt(c: Cipher, key: Key, request: int): (r: int)
    ensures Lawful(c) ==>
      forall joinerKey: Key, x: int :: request == c.encrypt(joinerKey, c.encrypt(key, x)) ==> r == c.encrypt(joinerKey, x)
  {
    c.decrypt(key, request)
  }

  /** The round trip of the transfer: host encrypts, joiner re-encrypts,
      host removes its layer, joiner removes its layer, and the joiner holds
      the original plaintext. */
  lemma TransferRoundTrip(c: Cipher, hostKey: Key, joinerKey: Key, secret: int)
    requires Lawful(c)
    ensures c.decrypt(joinerKey, BlindDecrypt(c, hostKey, c.encrypt(joinerKey, c.encrypt(hostKey, secret)))) == secret
  {
    assert c.encrypt(joinerKey, c.encrypt(hostKey, secret)) == c.encrypt(hostKey, c.encrypt(joinerKey, secret));
  }

  /** A stand-in cipher that satisfies both laws, showing that the
      hypothesis can be met; it says nothing about the real cipher's
      security. */
  function ShiftCipher(): Cipher
  {
    Cipher((k: int, x: int) => x + k, (k: int, x: int) => x - k)
  }

  lemma ShiftCipherIsLawful()
    ensures Lawful(ShiftCipher())
  {
  }
}
