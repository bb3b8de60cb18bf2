/** Single bits of a byte. */
module Bits {

  function Mask(k: nat): bv8 {
    1 << (k % 8)
  }

  function BitAt(m: bv8, k: nat): bool {
    m & Mask(k) != 0
  }

  lemma MaskValue(k: nat)
    requires k < 8
    ensures Mask(k) == (if k == 0 then 1 else if k == 1 then 2 else if k == 2 then 4 else if k == 3 then 8
                        else if k == 4 then 16 else if k == 5 then 32 else if k == 6 then 64 else 128)
  {}

  lemma MasksDisjoint(k: nat, j: nat)
    requires k < 8 && j < 8
    ensures Mask(k) != 0 && (k != j ==> Mask(k) & Mask(j) == 0)
  {
    MaskValue(k);
    MaskValue(j);
  }

  lemma MaskOps(m: bv8, a: bv8, b: bv8)
    requires a != 0 && b != 0 && (a == b || a & b == 0)
    ensures (m | a) & b != 0 <==> a == b || m & b != 0
    ensures (m & !a) & b != 0 <==> a != b && m & b != 0
  {}

  lemma BitUpdate(m: bv8, k: nat, j: nat)
    requires k < 8 && j < 8
    ensures BitAt(m | Mask(k), j) == (j == k || BitAt(m, j))
    ensures BitAt(m & !Mask(k), j) == (j != k && BitAt(m, j))
  {
    MasksDisjoint(k, j);
    MasksDisjoint(j, k);
    MaskOps(m, Mask(k), Mask(j));
  }

  lemma FullByte(k: nat)
    requires k < 8
    ensures BitAt(0xFF, k)
  {
    MaskValue(k);
  }
}
