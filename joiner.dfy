/** The joiner (chooser) side, which this model does not have as code: an
    honest joiner as the host's comments and arithmetic require it to act.
    These functions are used only as hypotheses about the peer. */
module HonestJoiner {
  import opened Vocabulary
  import opened JsBits
  import opened Masks
  import opened Secrets
  import opened CommutativeCipher

  /** Picks the ciphertext of the branch matching the joiner's own choice
      and layers the joiner's key over it. */
  function SelectRequest(c: Cipher, joinerKey: Key, joinerChoice: Choice, encrypted: (int, int)): int
  {
    c.encrypt(joinerKey, if joinerChoice == Love then encrypted.1 else encrypted.0)
  }

  /** Removes the joiner's key layer from the host's decrypt result, checks
      the category tag against the branch it asked for (a mismatch aborts),
      and masks the payload with the joiner's own mask bit. */
  function MaskedOutputFor(c: Cipher, joinerKey: Key, joinerChoice: Choice, joinerMask: seq<Byte>, decryptResult: int): (r: Option<Uint31>)
    requires |joinerMask| == MaskBytes
    ensures r.Some? ==> IsBit(r.value)
  {
    var plain := c.decrypt(joinerKey, decryptResult);
    if plain < 0 then None
    else match DecodeSecret(plain)
      case None => None
      case Some((category, payload)) =>
        if category != joinerChoice then None
        else
          XorBits(payload, LocalMask(joinerMask));
          Some(Xor(payload, LocalMask(joinerMask)))
  }
}
