/** Single bits and half bytes of a byte, as the bitmap macros use them. */
module Bits {

  /** `1 << k` in a byte. */
  function Mask1(k: nat): bv8
    requires k < 8
  {
    1 << k
  }

  /** `0b1111 << (4 * k)` in a byte. */
  function Mask4(k: nat): bv8
    requires k < 2
  {
    if k == 0 then 15 else 240
  }

  predicate BitSet(b: bv8, k: nat)
    requires k < 8
  {
    b & Mask1(k) != 0
  }

  lemma OrBit(b: bv8, k: nat, j: nat)
    requires k < 8 && j < 8
    ensures BitSet(b | Mask1(k), j) <==> BitSet(b, j) || j == k
  {
    assert Mask1(k) & Mask1(j) == if j == k then Mask1(k) else 0 by { MaskTable(k); MaskTable(j); }
    assert (b | Mask1(k)) & Mask1(j) == (b & Mask1(j)) | (Mask1(k) & Mask1(j));
    MaskTable(k);
    MaskTable(j);
  }

  lemma MaskTable(k: nat)
    requires k < 8
    ensures Mask1(k) == if k == 0 then 1 else if k == 1 then 2 else if k == 2 then 4 else if k == 3 then 8
                        else if k == 4 then 16 else if k == 5 then 32 else if k == 6 then 64 else 128
  {
  }

  /** `(1 << k) - 1` in a byte. */
  function LowMask(k: nat): bv8
    requires k < 8
  {
    (1 << k) - 1
  }

  lemma LowBits(b: bv8, k: nat, j: nat)
    requires k < 8 && j < 8
    ensures BitSet(b | LowMask(k), j) <==> BitSet(b, j) || j < k
  {
    MaskTable(k);
    MaskTable(j);
    assert (b | LowMask(k)) & Mask1(j) == (b & Mask1(j)) | (LowMask(k) & Mask1(j));
    assert LowMask(k) & Mask1(j) == if j < k then Mask1(j) else 0;
  }

  lemma AllBits(k: nat)
    requires k < 8
    ensures BitSet(255, k) && !BitSet(0, k)
  {
    MaskTable(k);
  }

  /** Setting a half byte sets its four bits and no other. */
  lemma OrNibble(b: bv8, h: nat, k: nat)
    requires h < 2 && k < 8
    ensures BitSet(b | Mask4(h), k) <==> BitSet(b, k) || 4 * h <= k < 4 * h + 4
  {
    MaskTable(k);
    assert (b | Mask4(h)) & Mask1(k) == (b & Mask1(k)) | (Mask4(h) & Mask1(k));
    assert Mask4(h) & Mask1(k) == if 4 * h <= k < 4 * h + 4 then Mask1(k) else 0;
  }

  /** A half byte is clear when its four bits are. */
  lemma ClearNibble(b: bv8, h: nat)
    requires h < 2
    ensures b & Mask4(h) == 0 <==>
              !BitSet(b, 4 * h) && !BitSet(b, 4 * h + 1) && !BitSet(b, 4 * h + 2) && !BitSet(b, 4 * h + 3)
  {
    MaskTable(4 * h);
    MaskTable(4 * h + 1);
    MaskTable(4 * h + 2);
    MaskTable(4 * h + 3);
    if h == 0 {
      assert b & 15 == (b & 1) | (b & 2) | (b & 4) | (b & 8);
    } else {
      assert b & 240 == (b & 16) | (b & 32) | (b & 64) | (b & 128);
    }
  }
}
