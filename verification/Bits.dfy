/** Bits of numbers, and bitmaps over bytes. */
module Bits {
  import opened Bytes

  /** `(x >> b) & 1 == 1`. */
  predicate HasBit(x: nat, b: nat) {
    if b == 0 then x % 2 == 1 else HasBit(x / 2, b - 1)
  }

  /** `x | 1 << b`. */
  function SetBit(x: nat, b: nat): nat {
    if b == 0 then x / 2 * 2 + 1 else 2 * SetBit(x / 2, b - 1) + x % 2
  }

  function Two(k: nat): nat {
    if k == 0 then 1 else 2 * Two(k - 1)
  }

  lemma {:induction false} SetBitSmall(x: nat, b: nat, k: nat)
    requires x < Two(k) && b < k
    ensures SetBit(x, b) < Two(k)
  {
    if b > 0 {
      assert x / 2 < Two(k - 1);
      SetBitSmall(x / 2, b - 1, k - 1);
      assert SetBit(x, b) <= 2 * (Two(k - 1) - 1) + 1;
    }
  }

  /** Setting one bit leaves the others. */
  lemma {:induction false} SetBitAt(x: nat, b: nat, c: nat)
    ensures HasBit(SetBit(x, b), c) <==> b == c || HasBit(x, c)
  {
    if b > 0 && c > 0 {
      assert SetBit(x, b) / 2 == SetBit(x / 2, b - 1);
      SetBitAt(x / 2, b - 1, c - 1);
    }
  }

  lemma {:induction false} NoBits(b: nat)
    ensures !HasBit(0, b)
  {
    if b > 0 {
      NoBits(b - 1);
    }
  }

  /** Bit `k` of a bitmap, counting from the lowest bit of the first byte. */
  predicate IsSet(m: seq<byte>, k: nat)
    requires k < 8 * |m|
  {
    HasBit(m[k / 8], k % 8)
  }

  function Marked(x: byte, b: nat): byte
    requires b < 8
  {
    assert Two(8) == 256 by { assert Two(4) == 16; assert Two(8) == 16 * Two(4); }
    SetBitSmall(x, b, 8);
    SetBit(x, b)
  }

  lemma {:induction false} MarkedAt(m: seq<byte>, i: nat, k: nat)
    requires i < 8 * |m| && k < 8 * |m|
    ensures IsSet(m[i / 8 := Marked(m[i / 8], i % 8)], k) <==> k == i || IsSet(m, k)
  {
    if k / 8 == i / 8 {
      SetBitAt(m[i / 8], i % 8, k % 8);
    }
  }
}
