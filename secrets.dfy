/** The two secrets the host offers in the oblivious transfer
    (src/runHostProtocol.ts, lines 33-45): a category tag OR'ed with a
    payload bit in bit 0 that is pre-masked by the host's mask bit. */
module Secrets {
  import opened Vocabulary
  import opened JsBits

  /** Category tag of the friendship secret, `0b10`. */
  const FriendshipTag: nat := 0x2
  /** Category tag of the love secret, `0b100`. */
  const LoveTag: nat := 0x4

  /** `choice === '😍' ? 1 : 0`. */
  function ChoiceBit(c: Choice): (b: nat)
    ensures IsBit(b)
    ensures b == 1 <==> c == Love
  {
    if c == Love then 1 else 0
  }

  /** `0b10 | (0 ^ localMask)`: the payload of the friendship branch is the
      constant 0, masked, so it never carries the host's choice. */
  function FriendshipSecret(localMask: nat): (s: nat)
    requires IsBit(localMask)
    ensures s == FriendshipTag + localMask
    ensures s == 2 || s == 3
    ensures And(s, 1) == localMask
  {
    XorSelf(localMask);
    OrLowBit(FriendshipTag, localMask);
    Or(FriendshipTag, Xor(0, localMask))
  }

  /** `0b100 | ((choice === '😍' ? 1 : 0) ^ localMask)`: the payload of the
      love branch is the host's choice bit, masked. */
  function LoveSecret(choice: Choice, localMask: nat): (s: nat)
    requires IsBit(localMask)
    ensures s == LoveTag + Xor(ChoiceBit(choice), localMask)
    ensures s == 4 || s == 5
    ensures And(s, 1) == Xor(ChoiceBit(choice), localMask)
  {
    XorBits(ChoiceBit(choice), localMask);
    OrLowBit(LoveTag, Xor(ChoiceBit(choice), localMask));
    Or(LoveTag, Xor(ChoiceBit(choice), localMask))
  }

  /** The pair of plaintext secrets the host prepares (`secrets`). */
  datatype SecretPair = SecretPair(friendship: nat, love: nat)

  function PrepareSecrets(choice: Choice, localMask: nat): (p: SecretPair)
    requires IsBit(localMask)
    ensures p.friendship in {2, 3} && p.love in {4, 5}
  {
    SecretPair(FriendshipSecret(localMask), LoveSecret(choice, localMask))
  }

  /** The secret belonging to the branch a chooser selects. */
  function SecretFor(branch: Choice, p: SecretPair): nat
  {
    if branch == Love then p.love else p.friendship
  }

  /** The unmasked payload the host intends for each branch, as the comments
      on the two secrets say: 0 for friendship whatever the host chose, the
      host's own choice bit for love. */
  function IntendedPayload(branch: Choice, hostChoice: Choice): (b: nat)
    ensures IsBit(b)
    ensures b == 1 <==> branch == Love && hostChoice == Love
  {
    if branch == Love then ChoiceBit(hostChoice) else 0
  }

  /** Reads a plaintext secret back: its payload is `s & 1` and its category
      is what remains; anything outside {2, 3, 4, 5} has no category. */
  function DecodeSecret(s: nat): (r: Option<(Choice, nat)>)
    ensures r.Some? <==> 2 <= s <= 5
    ensures r.Some? ==> r.value.1 == s % 2 && (r.value.0 == Love <==> s >= 4)
  {
    var payload := And(s, 1);
    AndOneIsParity(s);
    if s - payload == FriendshipTag then Some((Friendship, payload))
    else if s - payload == LoveTag then Some((Love, payload))
    else None
  }

  /** Tag and payload never collide: decoding either secret recovers the
      branch it was made for and the intended payload masked by the host's
      mask bit. */
  lemma DecodePrepared(branch: Choice, hostChoice: Choice, localMask: nat)
    requires IsBit(localMask)
    ensures DecodeSecret(SecretFor(branch, PrepareSecrets(hostChoice, localMask)))
            == Some((branch, Xor(IntendedPayload(branch, hostChoice), localMask)))
  {
    XorSelf(localMask);
  }

  /** The friendship secret is the same whatever the host chose, and the two
      secrets of one pair always differ. */
  lemma FriendshipSecretIgnoresChoice(localMask: nat)
    requires IsBit(localMask)
    ensures PrepareSecrets(Friendship, localMask).friendship
            == PrepareSecrets(Love, localMask).friendship
    ensures PrepareSecrets(Love, localMask).friendship != PrepareSecrets(Love, localMask).love
  {
  }
}
