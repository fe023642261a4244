/**
 Single bits of a byte, by arithmetic.
 */
module Bits {
  import opened Bytes

  function Pow2(j: nat): (r: nat)
    ensures r > 0
  {
    if j == 0 then 1 else 2 * Pow2(j - 1)
  }

  predicate BitSet(x: nat, j: nat)
  {
    if j == 0 then x % 2 == 1 else BitSet(x / 2, j - 1)
  }

  /** `x | 1 << j` */
  function OrBit(x: nat, j: nat): nat
  {
    if j == 0 then x + 1 - x % 2 else x % 2 + 2 * OrBit(x / 2, j - 1)
  }

  lemma {:induction false} OrBitSets(x: nat, j: nat, k: nat)
    ensures BitSet(OrBit(x, j), k) <==> j == k || BitSet(x, k)
    decreases j
  {
    var y := OrBit(x, j);
    if j > 0 {
      assert y / 2 == OrBit(x / 2, j - 1) && y % 2 == x % 2;
      if k > 0 { OrBitSets(x / 2, j - 1, k - 1); }
    } else {
      assert y / 2 == x / 2 && y % 2 == 1;
    }
  }

  lemma {:induction false} OrBitFits(x: nat, j: nat, n: nat)
    requires j < n && x < Pow2(n)
    ensures OrBit(x, j) < Pow2(n)
    decreases j
  {
    if j > 0 { OrBitFits(x / 2, j - 1, n - 1); }
  }

  lemma OrBitByte(x: byte, j: nat)
    requires j < 8
    ensures OrBit(x, j) < 256
  {
    assert Pow2(4) == 16;
    assert Pow2(8) == 2 * (2 * (2 * (2 * Pow2(4))));
    OrBitFits(x, j, 8);
  }

  /** `x & ~(1 << j)` */
  function ClearBit(x: nat, j: nat): (r: nat)
    ensures r <= x
  {
    if j == 0 then x - x % 2 else x % 2 + 2 * ClearBit(x / 2, j - 1)
  }

  lemma {:induction false} ClearBitClears(x: nat, j: nat, k: nat)
    ensures BitSet(ClearBit(x, j), k) <==> j != k && BitSet(x, k)
    decreases j
  {
    var y := ClearBit(x, j);
    if j > 0 {
      assert y / 2 == ClearBit(x / 2, j - 1) && y % 2 == x % 2;
      if k > 0 { ClearBitClears(x / 2, j - 1, k - 1); }
    } else {
      assert y / 2 == x / 2 && y % 2 == 0;
    }
  }
}
