/** Inodes as they are stored: sixteen words each, eight to a block. */
module DiskInodes {
  import opened Bytes
  import opened BlockMap

  /** Inodes per block, and words per inode. */
  const IPB: nat := 8
  const IWORDS: nat := 16

  /** struct dinode as words: type and major, minor and nlink, size, addresses. */
  function InodeWords(ip: Inode): (r: seq<Word>)
    ensures |r| == IWORDS
  {
    [ip.kind + 0x1_0000 * ip.major, ip.minor + 0x1_0000 * ip.nlink, ip.size] + ip.addrs
  }

  function FromWords(ws: seq<Word>): Inode
    requires |ws| == IWORDS
  {
    Inode(ws[0] % 0x1_0000, ws[0] / 0x1_0000, ws[1] % 0x1_0000, ws[1] / 0x1_0000, ws[2], ws[3..])
  }

  lemma WordsRoundTrip(ip: Inode)
    ensures FromWords(InodeWords(ip)) == ip
  {
    assert InodeWords(ip)[3..] == ip.addrs;
  }

  function StoreWords(s: Sector, base: nat, ws: seq<Word>): Sector
    requires base + |ws| <= NWORDS
  {
    if ws == [] then s else PutWord(StoreWords(s, base, ws[..|ws|-1]), base + |ws| - 1, ws[|ws|-1])
  }

  lemma {:induction false} StoreWordsAt(s: Sector, base: nat, ws: seq<Word>, j: nat)
    requires base + |ws| <= NWORDS && j < NWORDS
    ensures GetWord(StoreWords(s, base, ws), j) == if base <= j < base + |ws| then ws[j - base] else GetWord(s, j)
  {
    if ws != [] {
      StoreWordsAt(s, base, ws[..|ws|-1], j);
      GetPut(StoreWords(s, base, ws[..|ws|-1]), base + |ws| - 1, ws[|ws|-1], j);
    }
  }

  function LoadWords(s: Sector, base: nat, n: nat): (r: seq<Word>)
    requires base + n <= NWORDS
    ensures |r| == n && forall j :: 0 <= j < n ==> r[j] == GetWord(s, base + j)
  {
    if n == 0 then [] else LoadWords(s, base, n - 1) + [GetWord(s, base + n - 1)]
  }

  /** *dip = *ip for the given one of the inodes in a block. */
  function EncodeInode(s: Sector, slot: nat, ip: Inode): Sector
    requires slot < IPB
  {
    StoreWords(s, IWORDS * slot, InodeWords(ip))
  }

  function DecodeInode(s: Sector, slot: nat): Inode
    requires slot < IPB
  {
    FromWords(LoadWords(s, IWORDS * slot, IWORDS))
  }

  /** The sixteen words of a stored inode: two halves to a word, the size, the thirteen addresses. */
  lemma InodeLayout(s: Sector, slot: nat, ip: Inode)
    requires slot < 8
    ensures var s' := EncodeInode(s, slot, ip);
      && GetWord(s', 16 * slot) == ip.kind + 0x1_0000 * ip.major
      && GetWord(s', 16 * slot + 1) == ip.minor + 0x1_0000 * ip.nlink && GetWord(s', 16 * slot + 2) == ip.size
      && forall k :: 0 <= k < 13 ==> GetWord(s', 16 * slot + 3 + k) == ip.addrs[k]
  {
    hide GetWord, StoreWords;
    var ws := InodeWords(ip);
    StoreWordsAt(s, 16 * slot, ws, 16 * slot);
    StoreWordsAt(s, 16 * slot, ws, 16 * slot + 1);
    StoreWordsAt(s, 16 * slot, ws, 16 * slot + 2);
    forall k | 0 <= k < 13
      ensures GetWord(EncodeInode(s, slot, ip), 16 * slot + 3 + k) == ip.addrs[k]
    {
      assert ws[3 + k] == ip.addrs[k];
      StoreWordsAt(s, 16 * slot, ws, 16 * slot + 3 + k);
    }
  }

  /** A stored inode reads back, and the other inodes of the block stay as they are. */
  lemma InodeRoundTrip(s: Sector, slot: nat, ip: Inode, slot': nat)
    requires slot < IPB && slot' < IPB
    ensures DecodeInode(EncodeInode(s, slot, ip), slot') == if slot' == slot then ip else DecodeInode(s, slot')
  {
    hide GetWord, PutWord, FromWords, InodeWords, StoreWords;
    var s' := EncodeInode(s, slot, ip);
    var ws, ws' := LoadWords(s, IWORDS * slot', IWORDS), LoadWords(s', IWORDS * slot', IWORDS);
    forall j | 0 <= j < IWORDS
      ensures ws'[j] == if slot' == slot then InodeWords(ip)[j] else ws[j]
    {
      assert ws'[j] == GetWord(s', IWORDS * slot' + j) && ws[j] == GetWord(s, IWORDS * slot' + j);
      StoreWordsAt(s, IWORDS * slot, InodeWords(ip), IWORDS * slot' + j);
    }
    if slot' == slot {
      assert ws' == InodeWords(ip);
      WordsRoundTrip(ip);
    } else {
      assert ws' == ws;
    }
  }
}
