/** Directory entries: their bytes, names cut to DIRSIZ, and the finite map that a list of entries stands for. */
module Dirents {
  import opened Bytes

  const DIRSIZ: nat := 14
  /** sizeof(struct dirent). */
  const DESIZE: nat := 16

  /** What strncmp and strncpy see of a string in n bytes: the part before its NUL. */
  function Prefix(s: seq<Byte>, n: nat): (r: seq<Byte>)
    ensures |r| <= n && |r| <= |s|
  {
    if n == 0 || s == [] || s[0] == 0 then [] else [s[0]] + Prefix(s[1..], n - 1)
  }

  function Cut(name: seq<Byte>): seq<Byte>
  {
    Prefix(name, DIRSIZ)
  }

  /** Byte k of the string; reading on past the bytes given reads its NUL. */
  function CharAt(s: seq<Byte>, k: nat): Byte
  {
    if k < |s| then s[k] else 0
  }

  lemma {:induction false} PrefixAt(s: seq<Byte>, n: nat, k: nat)
    requires k < |Prefix(s, n)|
    ensures Prefix(s, n)[k] == s[k] != 0
  {
    if k > 0 {
      PrefixAt(s[1..], n - 1, k - 1);
    }
  }

  /** The prefix ends at n bytes or at a NUL. */
  lemma {:induction false} PrefixEnd(s: seq<Byte>, n: nat)
    ensures |Prefix(s, n)| == n || CharAt(s, |Prefix(s, n)|) == 0
  {
    if n > 0 && s != [] && s[0] != 0 {
      PrefixEnd(s[1..], n - 1);
    }
  }

  /** Bytes without a NUL that go on until n or a NUL are the prefix. */
  lemma {:induction false} PrefixIs(s: seq<Byte>, n: nat, k: nat)
    requires k <= n && k <= |s| && (forall j :: 0 <= j < k ==> s[j] != 0) && (k == n || CharAt(s, k) == 0)
    ensures Prefix(s, n) == s[..k]
  {
    if k > 0 {
      PrefixIs(s[1..], n - 1, k - 1);
      assert s[..k] == [s[0]] + s[1..][..k - 1];
    }
  }

  /** namecmp(s, t) == 0: strncmp over DIRSIZ bytes. */
  method Namecmp(s: seq<Byte>, t: seq<Byte>) returns (same: bool)
    ensures same <==> Cut(s) == Cut(t)
  {
    var k := 0;
    while k < DIRSIZ && CharAt(s, k) != 0 && CharAt(s, k) == CharAt(t, k)
      invariant k <= DIRSIZ && k <= |s| && k <= |t|
      invariant forall j :: 0 <= j < k ==> s[j] == t[j] != 0
    {
      k := k + 1;
    }
    same := k == DIRSIZ || CharAt(s, k) == CharAt(t, k);
    if same {
      PrefixIs(s, DIRSIZ, k);
      PrefixIs(t, DIRSIZ, k);
    } else if Cut(s) == Cut(t) {
      Differs(s, t, k);
    }
  }

  lemma Differs(s: seq<Byte>, t: seq<Byte>, k: nat)
    requires Cut(s) == Cut(t) && k < DIRSIZ && k <= |s| && forall j :: 0 <= j < k ==> CharAt(s, j) == CharAt(t, j) != 0
    ensures CharAt(s, k) == CharAt(t, k)
  {
    var n := |Cut(s)|;
    PrefixEnd(s, DIRSIZ);
    PrefixEnd(t, DIRSIZ);
    if k < n {
      PrefixAt(s, DIRSIZ, k);
      PrefixAt(t, DIRSIZ, k);
    }
  }

  /** strncpy into the name field. */
  function Pad(name: seq<Byte>): (r: seq<Byte>)
    ensures |r| == DIRSIZ
  {
    Cut(name) + seq(DIRSIZ - |Cut(name)|, _ => 0)
  }

  /** A stored name reads back cut. */
  lemma CutPad(name: seq<Byte>)
    ensures Cut(Pad(name)) == Cut(name)
  {
    var k := |Cut(name)|;
    forall j | 0 <= j < k
      ensures Pad(name)[j] != 0
    {
      PrefixAt(name, DIRSIZ, j);
    }
    PrefixIs(Pad(name), DIRSIZ, k);
  }

  datatype Dirent = Dirent(inum: nat, name: seq<Byte>)

  /** The bytes of an entry; the inode number is cut to sixteen bits. */
  function Encode(inum: nat, name: seq<Byte>): (r: seq<Byte>)
    ensures |r| == DESIZE
  {
    [inum % 0x100, inum / 0x100 % 0x100] + Pad(name)
  }

  function Decode(de: seq<Byte>): Dirent
    requires |de| == DESIZE
  {
    Dirent(de[0] as int + 0x100 * de[1] as int, Cut(de[2..]))
  }

  /** The names of a directory and of its parent. */
  function Dot(): seq<Byte>
  {
    [46]
  }

  function DotDot(): seq<Byte>
  {
    [46, 46]
  }

  lemma DirentRoundTrip(inum: nat, name: seq<Byte>)
    ensures Decode(Encode(inum, name)) == Dirent(inum % 0x1_0000, Cut(name))
  {
    CutPad(name);
    assert Encode(inum, name)[2..] == Pad(name);
    assert inum % 0x1_0000 == inum % 0x100 + 0x100 * (inum / 0x100 % 0x100);
  }

  /** The sixteen bytes of an entry: the number, low byte first, and the name filled up with zeros. */
  lemma EncodeBytes(inum: nat, name: seq<Byte>)
    ensures var de := Encode(inum, name);
      && |de| == 16 && de[0] == inum % 0x100 && de[1] == inum / 0x100 % 0x100
      && forall k :: 0 <= k < 14 ==> de[2 + k] == if k < |Cut(name)| then Cut(name)[k] else 0
  {
  }

  /** A name ends before its first NUL, and after fourteen bytes at the latest. */
  lemma CutExact(name: seq<Byte>)
    ensures Cut(name) <= name && |Cut(name)| <= 14 && forall k :: 0 <= k < |Cut(name)| ==> Cut(name)[k] != 0
    ensures |Cut(name)| < 14 && |Cut(name)| < |name| ==> name[|Cut(name)|] == 0
  {
    PrefixEnd(name, DIRSIZ);
    forall k | 0 <= k < |Cut(name)|
      ensures k < |name| && Cut(name)[k] == name[k] != 0
    {
      PrefixAt(name, DIRSIZ, k);
    }
  }

  /** Entry e of a directory's bytes. */
  function EntryAt(c: seq<Byte>, e: nat): Dirent
    requires DESIZE * e + DESIZE <= |c|
  {
    Decode(c[DESIZE * e..DESIZE * e + DESIZE])
  }

  /** A directory as the list of its entries. */
  function Entries(c: seq<Byte>): (r: seq<Dirent>)
    ensures |r| == |c| / DESIZE
  {
    seq(|c| / DESIZE, e requires 0 <= e < |c| / DESIZE => EntryAt(c, e))
  }

  // ---------- Directories as finite maps ----------

  predicate Matches(d: Dirent, name: seq<Byte>)
  {
    d.inum != 0 && d.name == name
  }

  /** The first entry from e on that has this name; |es| if none. */
  function First(es: seq<Dirent>, name: seq<Byte>, e: nat): (r: nat)
    requires e <= |es|
    ensures e <= r <= |es| && (r < |es| ==> Matches(es[r], name))
    ensures forall j :: e <= j < r ==> !Matches(es[j], name)
    decreases |es| - e
  {
    if e == |es| || Matches(es[e], name) then e else First(es, name, e + 1)
  }

  /** The first unused entry from e on; |es| if none. */
  function FirstFree(es: seq<Dirent>, e: nat): (r: nat)
    requires e <= |es|
    ensures e <= r <= |es| && (r < |es| ==> es[r].inum == 0)
    ensures forall j :: e <= j < r ==> es[j].inum != 0
    decreases |es| - e
  {
    if e == |es| || es[e].inum == 0 then e else FirstFree(es, e + 1)
  }

  /** The list after dirlink: the entry goes to the first unused place, or at the end. */
  function Insert(es: seq<Dirent>, d: Dirent): seq<Dirent>
  {
    var k := FirstFree(es, 0);
    if k < |es| then es[k := d] else es + [d]
  }

  /** The entries in use are exactly the bindings of m, each name once. */
  ghost predicate Represents(es: seq<Dirent>, m: map<seq<Byte>, nat>)
  {
    && (forall e :: 0 <= e < |es| && es[e].inum != 0 ==> es[e].name in m && m[es[e].name] == es[e].inum)
    && (forall n :: n in m ==> exists e :: 0 <= e < |es| && Matches(es[e], n))
    && (forall e, f :: 0 <= e < f < |es| && es[e].inum != 0 && es[f].inum != 0 ==> es[e].name != es[f].name)
  }

  /** dirlookup is lookup in the map. */
  lemma LookupIsMap(es: seq<Dirent>, m: map<seq<Byte>, nat>, name: seq<Byte>)
    requires Represents(es, m)
    ensures First(es, name, 0) < |es| <==> name in m
    ensures name in m ==> First(es, name, 0) < |es| && es[First(es, name, 0)].inum == m[name]
  {
  }

  /** dirlink is insertion into the map. */
  lemma InsertIsUpdate(es: seq<Dirent>, m: map<seq<Byte>, nat>, d: Dirent)
    requires Represents(es, m) && d.name !in m && d.inum != 0
    ensures Represents(Insert(es, d), m[d.name := d.inum])
  {
    var k := FirstFree(es, 0);
    var es', m' := Insert(es, d), m[d.name := d.inum];
    forall n | n in m'
      ensures exists e :: 0 <= e < |es'| && Matches(es'[e], n)
    {
      if n == d.name {
        assert Matches(es'[k], n);
      } else {
        var e :| 0 <= e < |es| && Matches(es[e], n);
        assert Matches(es'[e], n);
      }
    }
  }

  /** An entry with inode number zero binds nothing. */
  lemma InsertZero(es: seq<Dirent>, m: map<seq<Byte>, nat>, d: Dirent)
    requires Represents(es, m) && d.inum == 0
    ensures Represents(Insert(es, d), m)
  {
    var k := FirstFree(es, 0);
    var es' := Insert(es, d);
    forall n | n in m
      ensures exists e :: 0 <= e < |es'| && Matches(es'[e], n)
    {
      var e :| 0 <= e < |es| && Matches(es[e], n);
      assert e != k && Matches(es'[e], n);
    }
  }

  /** After linking, the name resolves to the inode exactly if the number fits in the sixteen bits of the entry. */
  lemma LinkResolves(es: seq<Dirent>, m: map<seq<Byte>, nat>, inum: nat, name: seq<Byte>)
    requires Represents(es, m) && Cut(name) !in m && inum != 0
    ensures var es' := Insert(es, Dirent(inum % 0x1_0000, Cut(name)));
      (First(es', Cut(name), 0) < |es'| && es'[First(es', Cut(name), 0)].inum == inum) <==> inum < 0x1_0000
  {
    var d := Dirent(inum % 0x1_0000, Cut(name));
    if d.inum == 0 {
      InsertZero(es, m, d);
      LookupIsMap(Insert(es, d), m, Cut(name));
    } else {
      InsertIsUpdate(es, m, d);
      LookupIsMap(Insert(es, d), m[d.name := d.inum], Cut(name));
    }
  }

  /** Names other than the one linked resolve as before. */
  lemma LinkKeeps(es: seq<Dirent>, m: map<seq<Byte>, nat>, d: Dirent, other: seq<Byte>)
    requires Represents(es, m) && d.name !in m && d.inum != 0 && other != d.name
    ensures var es' := Insert(es, d);
      && (First(es', other, 0) < |es'| <==> First(es, other, 0) < |es|)
      && (First(es, other, 0) < |es| ==> es'[First(es', other, 0)].inum == es[First(es, other, 0)].inum)
  {
    InsertIsUpdate(es, m, d);
    LookupIsMap(es, m, other);
    LookupIsMap(Insert(es, d), m[d.name := d.inum], other);
  }

  /** Overwriting or appending one entry's bytes does so to the list. */
  lemma SpliceEntry(c: seq<Byte>, e: nat, de: seq<Byte>)
    requires |c| % DESIZE == 0 && e <= |c| / DESIZE && |de| == DESIZE
    ensures var c' := c[..DESIZE * e] + de + (if DESIZE * e + DESIZE < |c| then c[DESIZE * e + DESIZE..] else []);
      && |c'| % DESIZE == 0
      && Entries(c') == if e < |c| / DESIZE then Entries(c)[e := Decode(de)] else Entries(c) + [Decode(de)]
  {
    var c' := c[..DESIZE * e] + de + (if DESIZE * e + DESIZE < |c| then c[DESIZE * e + DESIZE..] else []);
    assert |c'| == if e < |c| / DESIZE then |c| else |c| + DESIZE;
    forall f | 0 <= f < |c'| / DESIZE
      ensures c'[DESIZE * f..DESIZE * f + DESIZE] == if f == e then de else c[DESIZE * f..DESIZE * f + DESIZE]
    {
      if f < e {
        assert DESIZE * f + DESIZE <= DESIZE * e;
      } else if f > e {
        assert DESIZE * e + DESIZE <= DESIZE * f;
      }
    }
    hide Decode;
  }
}
