/** Output reconciliation and cheat correction on the host side
    (src/runHostProtocol.ts, lines 82-102). */
module Reconciliation {
  import opened Vocabulary
  import opened JsBits
  import opened Masks

  /** `maskedOutputMessage.value ^ totalMask`: the joiner's masked output
      with both masks removed. It is zero exactly when the masked output
      equals the total mask, and unmasking is undone by masking again. */
  function RawOutput(maskedOutput: Uint31, totalMask: nat): (o: nat)
    requires IsBit(totalMask)
    ensures o == 0 <==> maskedOutput == totalMask
    ensures Xor(o, totalMask) == maskedOutput
    ensures IsBit(maskedOutput) ==> IsBit(o)
  {
    XorZero(maskedOutput, totalMask);
    XorCancels(maskedOutput, totalMask);
    Xor(maskedOutput, totalMask)
  }

  /** `output ? '😍' : '🙂'`: any nonzero output reads as love. */
  function ToChoice(output: nat): (c: Choice)
    ensures c == Love <==> output != 0
  {
    if output != 0 then Love else Friendship
  }

  /** The correction exactly as the source writes it: a host that chose
      '🙂' overrides an output that is exactly 1. */
  function CorrectAsWritten(choice: Choice, output: nat): (o: nat)
    ensures o == output || (choice == Friendship && output == 1 && o == 0)
    ensures choice == Friendship && output == 1 ==> o == 0
  {
    if choice == Friendship && output == 1 then 0 else output
  }

  /** The correction as the surrounding comments intend it: a host that
      chose '🙂' never acknowledges a love result, so every output that the
      final `output ? '😍' : '🙂'` would read as love is overridden. */
  function Correct(choice: Choice, output: nat): (o: nat)
    ensures choice == Friendship ==> o == 0
    ensures choice == Love ==> o == output
  {
    if choice == Friendship && output != 0 then 0 else output
  }

  /** The host's verdict with the guard as written: a host that chose '😍'
      applies no correction and ends with '😍' exactly when the masked output
      differs from the total mask. A host that chose '🙂' ends with '🙂'
      when the masked output is a bit. For a larger masked output the guard
      `output === 1` does not fire, and the host ends with '😍'. */
  function HostVerdictAsWritten(choice: Choice, localMask: nat, joinerMask: seq<Byte>, maskedOutput: Uint31): (v: Choice)
    requires IsBit(localMask)
    ensures choice == Love ==> (v == Love <==> maskedOutput != TotalMask(localMask, joinerMask))
    ensures choice == Friendship && IsBit(maskedOutput) ==> v == Friendship
    ensures choice == Friendship && !IsBit(maskedOutput) ==> v == Love
  {
    ToChoice(CorrectAsWritten(choice, RawOutput(maskedOutput, TotalMask(localMask, joinerMask))))
  }

  /** The host's verdict with the corrected guard: a host that chose '🙂'
      always ends with '🙂'; a host that chose '😍' applies no correction and
      ends with '😍' exactly when the masked output differs from the total
      mask, i.e. when unmasking leaves a nonzero value. */
  function HostVerdict(choice: Choice, localMask: nat, joinerMask: seq<Byte>, maskedOutput: Uint31): (v: Choice)
    requires IsBit(localMask)
    ensures choice == Friendship ==> v == Friendship
    ensures choice == Love ==> (v == Love <==> maskedOutput != TotalMask(localMask, joinerMask))
  {
    ToChoice(Correct(choice, RawOutput(maskedOutput, TotalMask(localMask, joinerMask))))
  }

  /** The correction only ever suppresses a love result: it never turns 0
      into anything else, whatever it returns is either 0 or the value it was
      given, and a host that chose '😍' is never corrected. Both the written
      and the corrected guard have this shape. */
  lemma CorrectionOnlySuppresses(choice: Choice, output: nat)
    ensures output == 0 ==> Correct(choice, output) == 0 && CorrectAsWritten(choice, output) == 0
    ensures Correct(choice, output) in {0, output}
    ensures CorrectAsWritten(choice, output) in {0, output}
    ensures choice == Love ==> Correct(choice, output) == output == CorrectAsWritten(choice, output)
  {
  }

  /** For every bit-valued masked output the written guard and the corrected
      guard give the same verdict. */
  lemma AsWrittenAgreesOnBits(choice: Choice, localMask: nat, joinerMask: seq<Byte>, maskedOutput: Uint31)
    requires IsBit(localMask) && IsBit(maskedOutput)
    ensures HostVerdictAsWritten(choice, localMask, joinerMask, maskedOutput)
            == HostVerdict(choice, localMask, joinerMask, maskedOutput)
  {
  }

  /** A masked output of 2 slips past the written guard `output === 1`
      although the final line reads it as love: with the guard as written a
      host that chose '🙂' returns '😍', whatever the masks. */
  lemma AsWrittenAcceptsTwo(localMask: nat, joinerMask: seq<Byte>)
    requires IsBit(localMask)
    ensures HostVerdictAsWritten(Friendship, localMask, joinerMask, 2) == Love
    ensures HostVerdict(Friendship, localMask, joinerMask, 2) == Friendship
  {
  }
}
