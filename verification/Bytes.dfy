/** Sectors of bytes, and the little-endian words that the kernel reads and writes in them by casting. */
module Bytes {

  const BSIZE: nat := 512
  const NWORDS: nat := 128

  type Byte = b: int | 0 <= b < 256
  type Word = w: int | 0 <= w < 0x1_0000_0000
  type Sector = s: seq<Byte> | |s| == BSIZE witness seq(BSIZE, _ => 0)

  /** The disk as a whole: one sector per block number. */
  type Image = seq<Sector>

  function ZeroSector(): Sector
  {
    seq(BSIZE, _ => 0)
  }

  /** Word i of a sector: ((uint32_t *) data)[i]. */
  function GetWord(s: Sector, i: nat): Word
    requires i < NWORDS
  {
    (s[4*i] as int) + 0x100 * (s[4*i+1] as int) + 0x1_0000 * (s[4*i+2] as int) + 0x100_0000 * (s[4*i+3] as int)
  }

  /** Assignment ((uint32_t *) data)[i] = v. */
  function PutWord(s: Sector, i: nat, v: Word): Sector
    requires i < NWORDS
  {
    s[4*i := v % 0x100]
     [4*i+1 := v / 0x100 % 0x100]
     [4*i+2 := v / 0x1_0000 % 0x100]
     [4*i+3 := v / 0x100_0000]
  }

  /** A stored word reads back, and no other word of the sector moves. */
  lemma GetPut(s: Sector, i: nat, v: Word, j: nat)
    requires i < NWORDS && j < NWORDS
    ensures GetWord(PutWord(s, i, v), j) == if i == j then v else GetWord(s, j)
  {
    if i == j {
      var a, b, c := v / 0x100, v / 0x1_0000, v / 0x100_0000;
      assert v == 0x100 * a + v % 0x100;
      assert a == 0x100 * (a / 0x100) + a % 0x100 && a / 0x100 == b;
      assert b == 0x100 * (b / 0x100) + b % 0x100 && b / 0x100 == c;
    } else if i < j {
      assert 4*i + 3 < 4*j;
    } else {
      assert 4*j + 3 < 4*i;
    }
  }

  lemma ZeroWord(i: nat)
    requires i < NWORDS
    ensures GetWord(ZeroSector(), i) == 0
  {
  }
}
