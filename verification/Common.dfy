/** Stock types shared by the other modules. */
module Common {
  datatype Option<+T> = None | Some(value: T)

  /** An unsigned octet, the `uint8_t` of the program. */
  type byte = x: int | 0 <= x < 256

  /** An unsigned word of 32 bits, the `uint32_t` of the program. */
  type word = x: int | 0 <= x < 0x1_0000_0000

  /** The bitwise conjunction. */
  function And(a: nat, b: nat): (c: nat)
    ensures c <= a && c <= b
  {
    if a == 0 || b == 0 then 0 else 2 * And(a / 2, b / 2) + if a % 2 == 1 && b % 2 == 1 then 1 else 0
  }

  predicate Bit(a: nat, k: nat) {
    if k == 0 then a % 2 == 1 else Bit(a / 2, k - 1)
  }

  lemma {:induction false} AndBit(a: nat, b: nat, k: nat)
    ensures Bit(And(a, b), k) <==> Bit(a, k) && Bit(b, k)
    decreases k
  {
    if a == 0 || b == 0 {
      NoBit(k);
    } else if k != 0 {
      assert And(a, b) / 2 == And(a / 2, b / 2);
      AndBit(a / 2, b / 2, k - 1);
    }
  }

  lemma {:induction false} NoBit(k: nat)
    ensures !Bit(0, k)
  {
    if k != 0 { NoBit(k - 1); }
  }

  lemma {:induction false} SameBits(a: nat, b: nat)
    requires forall k: nat :: Bit(a, k) <==> Bit(b, k)
    ensures a == b
    decreases a + b
  {
    if a != 0 || b != 0 {
      assert Bit(a, 0) <==> Bit(b, 0);
      forall k: nat ensures Bit(a / 2, k) <==> Bit(b / 2, k) { assert Bit(a, k + 1) <==> Bit(b, k + 1); }
      SameBits(a / 2, b / 2);
    }
  }

  /** Each bit of `c` is set exactly if it is set in both. */
  ghost predicate Conjunction(a: nat, b: nat, c: nat) {
    forall k: nat :: Bit(c, k) <==> Bit(a, k) && Bit(b, k)
  }

  lemma AndIsBitwise(a: nat, b: nat, c: nat)
    ensures And(a, b) == c <==> Conjunction(a, b, c)
  {
    hide And, Bit;
    forall k: nat ensures Bit(And(a, b), k) <==> Bit(a, k) && Bit(b, k) { AndBit(a, b, k); }
    if Conjunction(a, b, c) { SameBits(And(a, b), c); }
  }

  /** The first place from `i` on of an element with a property, or the length. */
  function FirstPlace<T>(s: seq<T>, p: T -> bool, i: nat): (k: nat)
    requires i <= |s|
    ensures i <= k <= |s|
    ensures k < |s| ==> p(s[k])
    ensures forall j | i <= j < k :: !p(s[j])
    decreases |s| - i
  {
    if i == |s| || p(s[i]) then i else FirstPlace(s, p, i + 1)
  }
}
