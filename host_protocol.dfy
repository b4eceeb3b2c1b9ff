/** One run of the host (sender) side of the protocol
    (src/runHostProtocol.ts, lines 11-103), with the joiner's messages, the
    randomness, the commitment hash and the fair-reveal service as inputs.
    The run is the sequence of channel events it produces and the verdict
    it returns. */
module HostProtocol {
  import opened Vocabulary
  import opened JsBits
  import opened Masks
  import opened Secrets
  import opened Reconciliation
  import opened CommutativeCipher
  import HonestJoiner

  /** The typed messages on the channel. */
  datatype Message =
    | MaskCommitment(digest: seq<Byte>)
    | EncryptedSecrets(friendship: int, love: int)
    | DecryptRequest(ciphertext: int)
    | DecryptResult(ciphertext: int)
    | MaskedOutput(value: Uint31)

  /** What the host does, in order: sends, receives, and the hand-over of
      its raw mask to the fair-reveal service. */
  datatype Event =
    | Send(msg: Message)
    | Recv(msg: Message)
    | Reveal(ownMask: seq<Byte>, peerCommitment: seq<Byte>)

  /** The joiner's messages as the host receives them, and the preimage the
      fair-reveal service resolves for the joiner's commitment (None when it
      resolves none). */
  datatype JoinerMessages = JoinerMessages(
    commitment: seq<Byte>,
    decryptRequest: int,
    maskedOutput: Uint31,
    revealedMask: Option<seq<Byte>>)

  /** The transcript and the verdict; the verdict is None when the run
      aborts because no preimage was resolved (`friendMask[0]` throws). */
  datatype Run = Run(transcript: seq<Event>, verdict: Option<Choice>)

  /** Messages the host may send, and the ones it may receive. */
  predicate HostSends(m: Message) { m.MaskCommitment? || m.EncryptedSecrets? || m.DecryptResult? }
  predicate HostReceives(m: Message) { m.MaskCommitment? || m.DecryptRequest? || m.MaskedOutput? }

  predicate RightDirection(e: Event)
  {
    match e
    case Send(m) => HostSends(m)
    case Recv(m) => HostReceives(m)
    case Reveal(_, _) => true
  }

  /** The `EncryptedSecrets` message: both secrets under the host's key. */
  function SecretsMessage(c: Cipher, key: Key, choice: Choice, mask: seq<Byte>): (m: Message)
    requires |mask| == MaskBytes
    ensures m.EncryptedSecrets?
    ensures Inverts(c) ==>
      c.decrypt(key, m.friendship) in {2, 3} && c.decrypt(key, m.love) in {4, 5}
  {
    var secrets := PrepareSecrets(choice, LocalMask(mask));
    var pair := EncryptPair(c, key, secrets.friendship, secrets.love);
    EncryptedSecrets(pair.0, pair.1)
  }

  /** The host hands its raw mask to the reveal service in exactly one
      event, and that event comes after every receipt of a masked output:
      the joiner is bound to its output before it can learn the host's mask. */
  predicate RevealsOnceAfterMaskedOutput(t: seq<Event>, mask: seq<Byte>)
  {
    (exists i | 0 <= i < |t| :: t[i].Reveal?)
    && (forall i, j | 0 <= i < |t| && 0 <= j < |t| && t[i].Reveal? && t[j].Reveal? :: i == j)
    && (forall i | 0 <= i < |t| && t[i].Reveal? :: t[i].ownMask == mask)
    && (forall i, j | 0 <= i < |t| && 0 <= j < |t| && t[i].Reveal? && t[j].Recv? && t[j].msg.MaskedOutput? :: j < i)
  }

  /** The host sends nothing but its commitment before it has received the
      joiner's commitment. */
  predicate CommitsBeforeSecrets(t: seq<Event>)
  {
    forall i | 0 <= i < |t| && t[i].Send? && !t[i].msg.MaskCommitment? ::
      exists j | 0 <= j < i :: t[j].Recv? && t[j].msg.MaskCommitment?
  }

  /** The channel events of one run of `runHostProtocol`, in order. */
  function Transcript(c: Cipher, key: Key, digest: seq<Byte> -> seq<Byte>, choice: Choice,
                      mask: seq<Byte>, joiner: JoinerMessages): (t: seq<Event>)
    requires |mask| == MaskBytes
    ensures |t| == 7
    ensures forall i | 0 <= i < |t| :: RightDirection(t[i])
    ensures RevealsOnceAfterMaskedOutput(t, mask)
    ensures CommitsBeforeSecrets(t)
    ensures t[0] == Send(MaskCommitment(digest(mask)))
    ensures t[2] == Send(SecretsMessage(c, key, choice, mask))
    ensures t[4] == Send(DecryptResult(BlindDecrypt(c, key, joiner.decryptRequest)))
  {
    var t := [
      Send(MaskCommitment(digest(mask))),
      Recv(MaskCommitment(joiner.commitment)),
      Send(SecretsMessage(c, key, choice, mask)),
      Recv(DecryptRequest(joiner.decryptRequest)),
      Send(DecryptResult(BlindDecrypt(c, key, joiner.decryptRequest))),
      Recv(MaskedOutput(joiner.maskedOutput)),
      Reveal(mask, joiner.commitment)
    ];
    assert t[6].Reveal?;
    assert forall i | 0 <= i < |t| && t[i].Send? && !t[i].msg.MaskCommitment? :: 1 < i && t[1].Recv?;
    t
  }

  /** `runHostProtocol` as written: the transcript and the verdict with the
      guard `output === 1`. */
  function RunHost(c: Cipher, key: Key, digest: seq<Byte> -> seq<Byte>, choice: Choice,
                   mask: seq<Byte>, joiner: JoinerMessages): (r: Run)
    requires |mask| == MaskBytes
    ensures r.transcript == Transcript(c, key, digest, choice, mask, joiner)
    ensures r.verdict.Some? <==> joiner.revealedMask.Some?
    ensures r.verdict.Some? && choice == Love ==>
      (r.verdict.value == Love <==> joiner.maskedOutput != TotalMask(LocalMask(mask), joiner.revealedMask.value))
    ensures r.verdict.Some? && choice == Friendship ==>
      (r.verdict.value == Love <==> !IsBit(joiner.maskedOutput))
  {
    var t := Transcript(c, key, digest, choice, mask, joiner);
    match joiner.revealedMask
    case None => Run(t, None)
    case Some(joinerMask) =>
      Run(t, Some(HostVerdictAsWritten(choice, LocalMask(mask), joinerMask, joiner.maskedOutput)))
  }

  /** The same run with the corrected guard (see the corrected verdict). */
  function RunHostCorrected(c: Cipher, key: Key, digest: seq<Byte> -> seq<Byte>, choice: Choice,
                            mask: seq<Byte>, joiner: JoinerMessages): (r: Run)
    requires |mask| == MaskBytes
    ensures r.transcript == Transcript(c, key, digest, choice, mask, joiner)
    ensures r.verdict.Some? <==> joiner.revealedMask.Some?
    ensures choice == Friendship ==> r.verdict != Some(Love)
  {
    var t := Transcript(c, key, digest, choice, mask, joiner);
    match joiner.revealedMask
    case None => Run(t, None)
    case Some(joinerMask) =>
      Run(t, Some(HostVerdict(choice, LocalMask(mask), joinerMask, joiner.maskedOutput)))
  }

  /** Whatever bit the joiner sends as its masked output and whatever masks
      are revealed, a host that chose '🙂' never ends with '😍'. */
  lemma FriendshipHostNeverLove(c: Cipher, key: Key, digest: seq<Byte> -> seq<Byte>,
                                mask: seq<Byte>, joiner: JoinerMessages)
    requires |mask| == MaskBytes
    requires IsBit(joiner.maskedOutput)
    ensures RunHost(c, key, digest, Friendship, mask, joiner).verdict != Some(Love)
  {
  }

  /** With the guard corrected, the same holds for every masked output, and
      on bit-valued masked outputs the two runs agree. */
  lemma CorrectedRunAgreesOnBits(c: Cipher, key: Key, digest: seq<Byte> -> seq<Byte>, choice: Choice,
                                 mask: seq<Byte>, joiner: JoinerMessages)
    requires |mask| == MaskBytes
    requires IsBit(joiner.maskedOutput)
    ensures RunHost(c, key, digest, choice, mask, joiner) == RunHostCorrected(c, key, digest, choice, mask, joiner)
  {
    if joiner.revealedMask.Some? {
      AsWrittenAgreesOnBits(choice, LocalMask(mask), joiner.revealedMask.value, joiner.maskedOutput);
    }
  }

  /** The messages of an honest joiner, given what the host sends it. */
  function HonestMessages(c: Cipher, hostKey: Key, joinerKey: Key, digest: seq<Byte> -> seq<Byte>,
                          hostChoice: Choice, hostMask: seq<Byte>,
                          joinerChoice: Choice, joinerMask: seq<Byte>): Option<JoinerMessages>
    requires |hostMask| == MaskBytes && |joinerMask| == MaskBytes
  {
    var sent := SecretsMessage(c, hostKey, hostChoice, hostMask);
    var request := HonestJoiner.SelectRequest(c, joinerKey, joinerChoice, (sent.friendship, sent.love));
    var result := BlindDecrypt(c, hostKey, request);
    match HonestJoiner.MaskedOutputFor(c, joinerKey, joinerChoice, joinerMask, result)
    case None => None
    case Some(out) => Some(JoinerMessages(digest(joinerMask), request, out, Some(joinerMask)))
  }

  /** The masks cancel: against an honest joiner, whichever masks both
      parties drew and whatever keys they hold, the joiner never aborts and
      the host ends with '😍' exactly when both parties chose '😍'. */
  lemma HonestRunComputesBothLove(c: Cipher, hostKey: Key, joinerKey: Key, digest: seq<Byte> -> seq<Byte>,
                                  hostChoice: Choice, hostMask: seq<Byte>,
                                  joinerChoice: Choice, joinerMask: seq<Byte>)
    requires Lawful(c)
    requires |hostMask| == MaskBytes && |joinerMask| == MaskBytes
    ensures HonestMessages(c, hostKey, joinerKey, digest, hostChoice, hostMask, joinerChoice, joinerMask).Some?
    ensures
      var joiner := HonestMessages(c, hostKey, joinerKey, digest, hostChoice, hostMask, joinerChoice, joinerMask).value;
      RunHost(c, hostKey, digest, hostChoice, hostMask, joiner).verdict
        == Some(if hostChoice == Love && joinerChoice == Love then Love else Friendship)
  {
    var localMask := LocalMask(hostMask);
    var secrets := PrepareSecrets(hostChoice, localMask);
    var selected := SecretFor(joinerChoice, secrets);
    var sent := SecretsMessage(c, hostKey, hostChoice, hostMask);
    var request := HonestJoiner.SelectRequest(c, joinerKey, joinerChoice, (sent.friendship, sent.love));
    assert request == c.encrypt(joinerKey, c.encrypt(hostKey, selected));
    TransferRoundTrip(c, hostKey, joinerKey, selected);
    DecodePrepared(joinerChoice, hostChoice, localMask);
    var payload := Xor(IntendedPayload(joinerChoice, hostChoice), localMask);
    var joinerBit := LocalMask(joinerMask);
    var out := Xor(payload, joinerBit);
    XorBits(IntendedPayload(joinerChoice, hostChoice), localMask);
    XorBits(payload, joinerBit);
    assert HonestJoiner.MaskedOutputFor(c, joinerKey, joinerChoice, joinerMask, BlindDecrypt(c, hostKey, request)) == Some(out);
    // out = intended ^ localMask ^ joinerBit and the total mask is localMask ^ joinerBit.
    var total := TotalMask(localMask, joinerMask);
    assert out != total <==> IntendedPayload(joinerChoice, hostChoice) == 1;
  }
}
