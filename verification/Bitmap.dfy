/** Bits in bytes, and the free-block map made of them. */
module Bitmap {
  import opened Bytes

  /** Bitmap bits per block. */
  const BPB: nat := 4096

  /** 1 << k. */
  function Pow2(k: nat): (r: nat)
    ensures r >= 1
  {
    if k == 0 then 1 else 2 * Pow2(k - 1)
  }

  /** x & (1 << k). */
  predicate Bit(x: nat, k: nat)
  {
    if k == 0 then x % 2 == 1 else Bit(x / 2, k - 1)
  }

  /** x | (1 << k). */
  function SetBit(x: nat, k: nat): nat
  {
    if Bit(x, k) then x else x + Pow2(k)
  }

  /** x & ~(1 << k). */
  function ClearBit(x: nat, k: nat): nat
  {
    BitWeight(x, k);
    if Bit(x, k) then x - Pow2(k) else x
  }

  lemma {:induction false} BitWeight(x: nat, k: nat)
    ensures Bit(x, k) ==> Pow2(k) <= x
  {
    if k > 0 {
      BitWeight(x / 2, k - 1);
    }
  }

  /** Bit k counts 2 to the power of k. */
  lemma {:induction false} BitIs(x: nat, k: nat)
    ensures Bit(x, k) <==> x / Pow2(k) % 2 == 1
  {
    if k > 0 {
      BitIs(x / 2, k - 1);
      DivTwice(x, Pow2(k - 1));
    }
  }

  lemma DivTwice(x: nat, p: nat)
    requires p > 0
    ensures x / (2 * p) == x / 2 / p
  {
    var q, m := x / 2 / p, x / 2 % p;
    assert x == 2 * (q * p + m) + x % 2;
    assert x == q * (2 * p) + (2 * m + x % 2) && 0 <= 2 * m + x % 2 < 2 * p;
    Quotient(x, 2 * p, q, 2 * m + x % 2);
  }

  lemma Quotient(x: nat, d: nat, q: nat, m: nat)
    requires x == q * d + m && m < d
    ensures x / d == q
  {
    var k := x / d - q;
    assert k * d == m - x % d;
    AtLeastOnce(k, d);
    AtLeastOnce(-k, d);
  }

  lemma AtLeastOnce(k: int, d: nat)
    ensures k > 0 ==> k * d >= d
  {
  }

  lemma BitHalf(x: nat, k: nat)
    requires k > 0
    ensures Bit(x, k) == Bit(x / 2, k - 1)
  {
  }

  /** A byte stays a byte. */
  lemma {:induction false} SetBitFits(x: nat, k: nat, n: nat)
    requires k < n && x < Pow2(n)
    ensures SetBit(x, k) < Pow2(n)
  {
    var h, p := x / 2, Pow2(n - 1);
    assert h < p;
    if k > 0 {
      SetBitFits(h, k - 1, n - 1);
      hide Bit;
      assert Bit(x, k) == Bit(h, k - 1) by {
        BitHalf(x, k);
      }
      assert Pow2(k) == 2 * Pow2(k - 1);
    }
  }

  /** Setting a bit sets that bit and no other. */
  lemma {:induction false} SetBitOnly(x: nat, k: nat, j: nat)
    ensures Bit(SetBit(x, k), j) <==> j == k || Bit(x, j)
  {
    if k > 0 {
      assert (x + 2 * Pow2(k - 1)) / 2 == x / 2 + Pow2(k - 1);
      if j > 0 {
        SetBitOnly(x / 2, k - 1, j - 1);
      }
    }
  }

  /** Clearing a bit clears that bit and no other. */
  lemma {:induction false} ClearBitOnly(x: nat, k: nat, j: nat)
    ensures Bit(ClearBit(x, k), j) <==> j != k && Bit(x, j)
  {
    if k > 0 && Bit(x, k) {
      BitWeight(x, k);
      assert (x - 2 * Pow2(k - 1)) / 2 == x / 2 - Pow2(k - 1);
      if j > 0 {
        ClearBitOnly(x / 2, k - 1, j - 1);
      }
    }
  }

  /** Bit bi of a bitmap block. */
  predicate BitAt(s: Sector, bi: nat)
    requires bi < BPB
  {
    Bit(s[bi / 8], bi % 8)
  }

  /** data[bi >> 3] |= m. */
  function SetAt(s: Sector, bi: nat): Sector
    requires bi < BPB
  {
    ByteFits(s[bi / 8], bi % 8);
    s[bi / 8 := SetBit(s[bi / 8], bi % 8)]
  }

  /** data[bi >> 3] &= ~m. */
  function ClearAt(s: Sector, bi: nat): Sector
    requires bi < BPB
  {
    s[bi / 8 := ClearBit(s[bi / 8], bi % 8)]
  }

  lemma ByteFits(x: Byte, k: nat)
    requires k < 8
    ensures SetBit(x, k) < 256
  {
    assert Pow2(8) == 2 * Pow2(7) == 256 by {
      assert Pow2(3) == 8 && Pow2(5) == 32 && Pow2(7) == 128;
    }
    SetBitFits(x, k, 8);
  }

  lemma SetAtOnly(s: Sector, bi: nat, c: nat)
    requires bi < BPB && c < BPB
    ensures BitAt(SetAt(s, bi), c) <==> c == bi || BitAt(s, c)
  {
    SetBitOnly(s[bi / 8], bi % 8, c % 8);
  }

  lemma ClearAtOnly(s: Sector, bi: nat, c: nat)
    requires bi < BPB && c < BPB
    ensures BitAt(ClearAt(s, bi), c) <==> c != bi && BitAt(s, c)
  {
    ClearBitOnly(s[bi / 8], bi % 8, c % 8);
  }

  /** The bit of block b in a bitmap that starts at block start. */
  predicate InUse(blocks: Image, start: nat, b: nat)
    requires start + b / BPB < |blocks|
  {
    BitAt(blocks[start + b / BPB], b % BPB)
  }

  /** Setting the bit of block b marks that block and no other. */
  lemma SetInUse(blocks: Image, start: nat, b: nat, c: nat)
    requires start + b / BPB < |blocks| && start + c / BPB < |blocks|
    ensures InUse(blocks[start + b / BPB := SetAt(blocks[start + b / BPB], b % BPB)], start, c)
       <==> c == b || InUse(blocks, start, c)
  {
    SetAtOnly(blocks[start + b / BPB], b % BPB, c % BPB);
  }

  lemma ClearInUse(blocks: Image, start: nat, b: nat, c: nat)
    requires start + b / BPB < |blocks| && start + c / BPB < |blocks|
    ensures InUse(blocks[start + b / BPB := ClearAt(blocks[start + b / BPB], b % BPB)], start, c)
       <==> c != b && InUse(blocks, start, c)
  {
    ClearAtOnly(blocks[start + b / BPB], b % BPB, c % BPB);
  }
}
