# Host side of the "both chose love?" protocol, in Dafny

Two parties each pick '🙂' (friendship) or '😍' (love). They learn whether
both picked '😍' and nothing more. This project models the host (sender)
side of the two-party protocol in `src/runHostProtocol.ts`. The host:

- derives a secret mask bit from a random 16-byte buffer and commits to the
  buffer;
- builds two tagged secrets (friendship `0b10 | (0 ^ mask)` and love
  `0b100 | (choiceBit ^ mask)`) and sends both, encrypted under a commutative
  cipher;
- removes its own key layer from the one ciphertext the joiner sends back;
- receives the joiner's masked output and obtains the joiner's mask through a
  fair-reveal service;
- unmasks the output; if it chose '🙂' and the unmasked output is exactly 1,
  it silently forces the output to 0; it returns '😍' for any nonzero output
  and '🙂' for 0.

Randomness, the commitment hash (keccak256), the cipher and the reveal
service are inputs: the mask buffer, a `digest` function, a `Cipher` value
with a key, and the preimage the service resolves. The joiner's code is not
part of this model. An honest joiner appears only as a hypothesis, in
`HonestJoiner` and `HostProtocol.HonestMessages`.

JavaScript's `&`, `|` and `^` are defined bit by bit on naturals in
`JsBits` (`js_bits.dfy`). The values this code feeds them are a byte, a
bit, the tags 2 and 4, and the masked output. For these, JavaScript's
conversion to a 32-bit integer changes nothing.

Files, one module each: `vocabulary.dfy` (Choice, Byte, Option),
`js_bits.dfy`, `masks.dfy`, `secrets.dfy`, `reconciliation.dfy`,
`cipher.dfy`, `joiner.dfy` (the honest-joiner hypothesis) and
`host_protocol.dfy` (one run: its transcript and verdict).

## Model

| member | source | states |
|---|---|---|
| Masks.LocalMask | src/runHostProtocol.ts:18-20 | the host's mask is a single bit, the parity of the first byte of its 16-byte random buffer |
| Masks.TotalMask | src/runHostProtocol.ts:82 | the total mask is a bit. It is 1 exactly when the host's mask bit differs from the parity of the joiner's first byte. A joiner mask with no first byte leaves the host's own mask bit |
| Masks.TotalMaskOnlyParity | src/runHostProtocol.ts:82 | two joiner masks whose first bytes have the same parity give the same total mask |
| Secrets.ChoiceBit | src/runHostProtocol.ts:42 | `choice === '😍' ? 1 : 0` is a bit, and it is 1 exactly for love |
| Secrets.FriendshipSecret | src/runHostProtocol.ts:33-39 | the friendship secret is tag 2 plus the mask bit (the OR adds, because tag and payload bits are disjoint). It lies in {2,3}, and `& 1` recovers the masked payload 0 ^ mask |
| Secrets.LoveSecret | src/runHostProtocol.ts:40-45 | the love secret is tag 4 plus (choiceBit ^ mask). It lies in {4,5}, and `& 1` recovers the masked payload |
| Secrets.PrepareSecrets | src/runHostProtocol.ts:33-45 | the friendship secret lies in {2,3} and the love secret in {4,5} |
| Secrets.IntendedPayload | src/runHostProtocol.ts:35-43 | the unmasked payload the comments describe is 1 exactly when the love branch is selected and the host chose love |
| Secrets.DecodeSecret | src/runHostProtocol.ts:37-42 | reading a secret back: exactly the values 2..5 decode. The payload is the parity, and the category is love exactly for 4 and 5 |
| Secrets.DecodePrepared | src/runHostProtocol.ts:33-45 | decoding the secret of either branch gives back that branch and the intended payload XOR the host's mask, whatever the host chose |
| Secrets.FriendshipSecretIgnoresChoice | src/runHostProtocol.ts:35-37 | the friendship secret is the same for both host choices, and it always differs from the love secret |
| Reconciliation.RawOutput | src/runHostProtocol.ts:84 | the unmasked output is 0 exactly when the masked output equals the total mask. Masking it again gives back the masked output, and a bit stays a bit |
| Reconciliation.ToChoice | src/runHostProtocol.ts:102 | the result is '😍' exactly when the output is nonzero |
| Reconciliation.CorrectAsWritten | src/runHostProtocol.ts:86-100 | the written guard returns its input unchanged, except that it forces 0 when the host chose '🙂' and the output is exactly 1 |
| Reconciliation.Correct | src/runHostProtocol.ts:86-100 | the intended correction: a host that chose '🙂' ends with 0, and a host that chose '😍' keeps its output |
| Reconciliation.HostVerdictAsWritten | src/runHostProtocol.ts:82-102 | the verdict as written. A host that chose '😍' returns '😍' exactly when the masked output differs from the total mask. A host that chose '🙂' returns '🙂' when the masked output is 0 or 1, and '😍' for any larger masked output |
| Reconciliation.HostVerdict | src/runHostProtocol.ts:82-102 | the corrected verdict (see Findings). A host that chose '🙂' returns '🙂' for every masked output and every pair of masks. A host that chose '😍' returns '😍' exactly when the masked output differs from the total mask, with no correction |
| Reconciliation.CorrectionOnlySuppresses | src/runHostProtocol.ts:84-100 | under both guards the correction keeps 0 at 0 and returns either 0 or its input, never anything else; a host that chose '😍' is never corrected |
| Reconciliation.AsWrittenAgreesOnBits | src/runHostProtocol.ts:84-102 | for every masked output that is 0 or 1, the written guard and the corrected guard give the same verdict |
| Reconciliation.AsWrittenAcceptsTwo | src/runHostProtocol.ts:86-102 | with the written guard, a host that chose '🙂' and receives masked output 2 returns '😍' under any masks. The corrected verdict returns '🙂' |
| JsBits.AndOneIsParity | src/runHostProtocol.ts:20 | `x & 1` is the parity of x |
| JsBits.XorZero | src/runHostProtocol.ts:84 | `a ^ b` is 0 exactly when a equals b |
| JsBits.XorCancels | src/runHostProtocol.ts:84 | `(a ^ b) ^ b` gives back a |
| JsBits.OrLowBit | src/runHostProtocol.ts:37-42 | OR-ing a bit into a tag whose low bit is clear adds it, and `& 1` reads the bit back |
| CommutativeCipher.EncryptPair | src/runHostProtocol.ts:47-50 | under a cipher whose decryption inverts encryption, the host's key decrypts each ciphertext back to its secret |
| CommutativeCipher.BlindDecrypt | src/runHostProtocol.ts:63-65 | under the cipher laws, removing the host's layer from a value the joiner encrypted over the host's layer leaves that value under the joiner's key alone |
| CommutativeCipher.TransferRoundTrip | src/runHostProtocol.ts:47-65 | encrypt by the host, re-encrypt by the joiner, blind decryption by the host, then decryption by the joiner gives back the original secret |
| HostProtocol.SecretsMessage | src/runHostProtocol.ts:47-59 | the encrypted-secrets message decrypts under the host's key to a friendship secret in {2,3} and a love secret in {4,5} |
| HostProtocol.Transcript | src/runHostProtocol.ts:23-79 | seven events, each message going the right way. Nothing but the host's commitment is sent before the joiner's commitment arrives. The raw mask is handed over in exactly one event, to the reveal service, after every receipt of the masked output. The commitment, secrets and decrypt-result messages carry the digest, the encrypted secrets and the blind decryption |
| HostProtocol.RunHost | src/runHostProtocol.ts:11-103 | the run as written: its transcript, and a verdict that is missing exactly when no joiner preimage is resolved. A host that chose '😍' returns '😍' exactly when the masked output differs from the total mask. A host that chose '🙂' returns '😍' exactly when the masked output is not a bit |
| HostProtocol.RunHostCorrected | src/runHostProtocol.ts:86-102 | the run with the corrected guard: the same transcript, and a host that chose '🙂' never returns '😍' |
| HostProtocol.FriendshipHostNeverLove | src/runHostProtocol.ts:86-102 | for the run as written: whatever bit the joiner sends as its masked output and whatever masks are revealed, a host that chose '🙂' never returns '😍' |
| HostProtocol.CorrectedRunAgreesOnBits | src/runHostProtocol.ts:84-102 | when the masked output is 0 or 1, the run as written and the corrected run are identical |
| HostProtocol.HonestRunComputesBothLove | src/runHostProtocol.ts:33-102 | the masks cancel: for every mask, key and choice, with a lawful cipher and an honest joiner, the joiner never aborts, and the run as written returns '😍' exactly when both chose '😍' |

## Left out

- `src/runProtocol.ts` is not part of this model. It is a wrapper around a third-party circuit engine, a WebRTC socket and floating-point progress reporting.
- `crypto.getRandomValues` and `CommutableCipher.random()`: the mask buffer and the cipher key are inputs.
- keccak256 is an input function `digest`. The fair-reveal service (`TrustedHashRevealer`) is an input too: the preimage it resolves for the joiner's commitment, or none. Commitment binding is not modelled, because the host code trusts the service and does not check the preimage against the commitment.
- The internals of `CommutableCipher` and `CipherMessage` are not part of this model. This includes BigInt group arithmetic and the string/BigInt conversions of ciphertexts. The cipher is a pair of functions. Its two laws (decryption inverts encryption; encryption under two keys commutes) are hypotheses of the lemmas that need them. `CommutativeCipher.ShiftCipher` only shows that the laws can hold together.
- Security claims are not modelled: secrecy of the choices, obliviousness of the transfer, and the absence of timing or logging side channels in the forced-friendship path.
- `ZodChannel` transport, schema validation (`MessageTypes` is not part of this model), `async`/`await` suspension and `console` logging. The transcript records what is sent and received, in order.
- Reconciliation.RawOutput: the masked output is modelled as a non-negative integer below 2^31. Negative, fractional or larger values, where JavaScript's 32-bit conversion changes the operand, are not modelled.
- HostProtocol.FriendshipHostNeverLove: stated for bit-valued masked outputs only, because the guard as written lets larger values through (see Findings); `HostProtocol.RunHostCorrected` carries the unconditional statement.
- Rejection of out-of-order or duplicate messages is left to the channel: `channel.recv` waits for the named message type. The transcript of `HostProtocol.RunHost` fixes the order the host follows, but no state machine that rejects other orders is modelled.
- The joiner's own verdict and any cheat detection on the joiner's side are not modelled, since the joiner's code is not part of this model.
- A missing joiner preimage ends the run without a verdict. The exact exception the source raises there is not modelled.

## Findings

| source | as written | input that shows it | evidently intended | confidence | as-written member | corrected member |
|---|---|---|---|---|---|---|
| src/runHostProtocol.ts:86 | the correction fires only when `output === 1`, but line 102 reads every nonzero output as '😍' | host chose '🙂' and receives masked output 2: the output is 2 or 3, it is not corrected, and the host returns '😍' | a host that chose '🙂' never acknowledges a love result (comment at lines 96-98) | not executed; reachable only if the masked-output schema admits integers other than 0 and 1 | Reconciliation.AsWrittenAcceptsTwo | HostProtocol.RunHostCorrected |
