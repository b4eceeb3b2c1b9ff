/** The host's mask bit and the combined mask used to unmask the joiner's
    output (src/runHostProtocol.ts, lines 18-20 and 82). */
module Masks {
  import opened Vocabulary
  import opened JsBits

  /** Length of the random buffer backing a mask (`new Uint8Array(16)`). */
  const MaskBytes: nat := 16

  /** `mask[0] & 1`: the host's secret mask bit is the parity of the first
      byte of its random buffer; the other fifteen bytes only feed the
      commitment. */
  function LocalMask(mask: seq<Byte>): (m: nat)
    requires |mask| == MaskBytes
    ensures IsBit(m)
    ensures m == mask[0] % 2
  {
    AndOneIsParity(mask[0]);
    And(mask[0], 1)
  }

  /** `friendMask[0] ?? 0`: the first byte of the revealed joiner mask, or 0
      when the revealed buffer has no first byte. */
  function FirstByteOrZero(bytes: seq<Byte>): Byte
  {
    if |bytes| == 0 then 0 else bytes[0]
  }

  /** `(localMask ^ (friendMask[0] ?? 0)) & 1`: the XOR of both parties' mask
      bits. Only the parity of the joiner's first byte matters, and a joiner
      mask with no first byte leaves the host's own mask bit in place. */
  function TotalMask(localMask: nat, joinerMask: seq<Byte>): (t: nat)
    requires IsBit(localMask)
    ensures IsBit(t)
    ensures |joinerMask| == 0 ==> t == localMask
    ensures |joinerMask| > 0 ==> (t == 1 <==> localMask != joinerMask[0] % 2)
  {
    var x := Xor(localMask, FirstByteOrZero(joinerMask));
    AndOneIsParity(x);
    XorLow(localMask, FirstByteOrZero(joinerMask));
    And(x, 1)
  }

  /** Only the parity of the joiner's first byte reaches the total mask; the
      higher bits of that byte and all later bytes are ignored. */
  lemma TotalMaskOnlyParity(localMask: nat, a: seq<Byte>, b: seq<Byte>)
    requires IsBit(localMask)
    requires |a| > 0 && |b| > 0 && a[0] % 2 == b[0] % 2
    ensures TotalMask(localMask, a) == TotalMask(localMask, b)
  {
  }
}
