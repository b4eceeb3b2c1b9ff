/** JavaScript's bitwise operators `&`, `|` and `^` on non-negative integers
    below 2^31, where the conversion to a 32-bit integer that the operators
    apply first changes nothing. Each operator is defined bit by bit, from
    the lowest bit up; the facts the protocol relies on are lemmas below. */
module JsBits {

  /** A non-negative integer that JavaScript's 32-bit conversion leaves alone. */
  type Uint31 = x: nat | x < 0x8000_0000

  /** A value that is a single bit. */
  predicate IsBit(x: nat) { x == 0 || x == 1 }

  /** The lowest bit of `x`. */
  function Low(x: nat): nat { x % 2 }

  /** `a & b`. */
  function And(a: nat, b: nat): nat
    decreases a
  {
    if a == 0 || b == 0 then 0
    else 2 * And(a / 2, b / 2) + (if Low(a) == 1 && Low(b) == 1 then 1 else 0)
  }

  /** `a | b`. */
  function Or(a: nat, b: nat): nat
    decreases a
  {
    if a == 0 then b
    else if b == 0 then a
    else 2 * Or(a / 2, b / 2) + (if Low(a) == 1 || Low(b) == 1 then 1 else 0)
  }

  /** `a ^ b`. */
  function Xor(a: nat, b: nat): nat
    decreases a
  {
    if a == 0 then b
    else if b == 0 then a
    else 2 * Xor(a / 2, b / 2) + (if Low(a) == Low(b) then 0 else 1)
  }

  /** Appending a low bit to `h` and reading it back. */
  lemma Halves(h: nat, bit: nat)
    requires IsBit(bit)
    ensures (2 * h + bit) / 2 == h && Low(2 * h + bit) == bit
  {
  }

  /** `x & 1` is the parity of `x`. */
  lemma AndOneIsParity(x: nat)
    ensures And(x, 1) == Low(x)
  {
    if x != 0 {
      assert And(x / 2, 0) == 0;
    }
  }

  /** The lowest bit of `a ^ b` is the XOR of their lowest bits. */
  lemma XorLow(a: nat, b: nat)
    ensures Low(Xor(a, b)) == (if Low(a) == Low(b) then 0 else 1)
  {
    if a != 0 && b != 0 {
      Halves(Xor(a / 2, b / 2), if Low(a) == Low(b) then 0 else 1);
    }
  }

  /** `x ^ x == 0` and `0 ^ x == x ^ 0 == x`. */
  lemma {:induction false} XorSelf(x: nat)
    ensures Xor(x, x) == 0
    ensures Xor(0, x) == x && Xor(x, 0) == x
  {
    if x != 0 {
      XorSelf(x / 2);
    }
  }

  /** `a ^ b` is zero exactly when `a == b`. */
  lemma {:induction false} XorZero(a: nat, b: nat)
    ensures Xor(a, b) == 0 <==> a == b
    decreases a
  {
    if a == b {
      XorSelf(a);
    } else if a != 0 && b != 0 {
      XorZero(a / 2, b / 2);
      if Low(a) == Low(b) {
        assert a / 2 != b / 2;
      }
    }
  }

  /** XOR-ing with the same value twice restores the original. */
  lemma {:induction false} XorCancels(a: nat, b: nat)
    ensures Xor(Xor(a, b), b) == a
    decreases a
  {
    if a == 0 {
      XorSelf(b);
    } else if b == 0 {
    } else {
      var h := Xor(a / 2, b / 2);
      var low := if Low(a) == Low(b) then 0 else 1;
      var x := 2 * h + low;
      assert Xor(a, b) == x;
      if x == 0 {
        XorZero(a / 2, b / 2);
        XorSelf(b);
      } else {
        Halves(h, low);
        XorCancels(a / 2, b / 2);
        assert Xor(x, b) == 2 * Xor(h, b / 2) + (if Low(x) == Low(b) then 0 else 1);
        assert Xor(x, b) == 2 * (a / 2) + Low(a);
      }
    }
  }

  /** XOR of two bits is a bit, and is 1 exactly when they differ. */
  lemma XorBits(a: nat, b: nat)
    requires IsBit(a) && IsBit(b)
    ensures IsBit(Xor(a, b))
    ensures Xor(a, b) == 1 <==> a != b
  {
  }

  /** A tag whose lowest bit is clear OR'ed with a bit puts the bit in
      position 0 without touching the tag: the OR is an addition, and `& 1`
      reads the bit back. */
  lemma OrLowBit(tag: nat, bit: nat)
    requires Low(tag) == 0 && IsBit(bit)
    ensures Or(tag, bit) == tag + bit
    ensures And(Or(tag, bit), 1) == bit
  {
    if tag != 0 && bit != 0 {
      assert Or(tag / 2, 0) == tag / 2;
    }
    AndOneIsParity(tag + bit);
  }
}
