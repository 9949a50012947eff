/** The radix trees that page tables form in memory: which frame each path leads to, and how that changes. */
module PageTree {
  import opened Memory

  // Bit numbers of the flags.
  const P: nat := 0        // PTE_P
  const TABLE: nat := 1    // PTE_TABLE and PTE_PAGE
  const USER: nat := 6     // PTE_USER
  const RO: nat := 7       // PTE_RO
  const AF: nat := 10      // PTE_AF

  /** Indices into the tables of successive levels. */
  type Path = seq<nat>

  ghost predicate IsPath(p: Path, k: nat)
  {
    |p| <= k && forall i :: 0 <= i < |p| ==> p[i] < ENTRIES
  }

  predicate Present(w: Word)
  {
    P in w.flags
  }

  /** The frame that entry i of table t points to; 0 if none. */
  ghost function Child(mem: seq<Page>, t: nat, i: nat): nat
  {
    if t == 0 || t >= |mem| || i >= ENTRIES || !Present(mem[t][i]) then 0 else mem[t][i].page
  }

  /** The frame that path p leads to from root: a table for up to three indices, a page for four; 0 if none. */
  ghost function Node(mem: seq<Page>, root: nat, p: Path): nat
  {
    if p == [] then root else Child(mem, Node(mem, root, p[..|p|-1]), p[|p|-1])
  }

  /** The last-level entry of a four-index path; zero where a table is missing. */
  ghost function Entry(mem: seq<Page>, root: nat, p: Path): Word
    requires IsPath(p, 4) && |p| == 4
  {
    var t := Node(mem, root, p[..3]);
    if t == 0 || t >= |mem| then ZeroWord else mem[t][p[3]]
  }

  /** Where a frame sits: the root of its tree and its path there. */
  datatype Place = Place(root: nat, path: Path)

  ghost predicate Named(mem: seq<Page>, roots: set<nat>, owner: map<nat, Place>)
  {
    forall r, p :: r in roots && IsPath(p, 4) && Node(mem, r, p) != 0 ==>
      Node(mem, r, p) in owner && owner[Node(mem, r, p)] == Place(r, p)
  }

  ghost predicate Placed(mem: seq<Page>, roots: set<nat>, owner: map<nat, Place>)
  {
    forall f :: f in owner ==>
      0 < f < NFRAMES && owner[f].root in roots && IsPath(owner[f].path, 4)
        && Node(mem, owner[f].root, owner[f].path) == f
  }

  ghost predicate Tidy(mem: seq<Page>, owner: map<nat, Place>)
  {
    forall f, i :: f in owner && |owner[f].path| <= 3 && f < |mem| && 0 <= i < ENTRIES ==>
      if Present(mem[f][i]) then mem[f][i].page != 0 else mem[f][i] == ZeroWord
  }

  /** owner names the place of every frame in the trees with the given roots. Since a frame has one owner, no frame
      occurs twice, in one tree or in two. An entry names a frame
      or is zero. */
  ghost predicate Forest(mem: seq<Page>, roots: set<nat>, owner: map<nat, Place>)
  {
    |mem| == NFRAMES && 0 !in roots && Named(mem, roots, owner) && Placed(mem, roots, owner) && Tidy(mem, owner)
  }

  /** Memory after entry i of table t is set to w. */
  function SetEntry(mem: seq<Page>, t: nat, i: nat, w: Word): (r: seq<Page>)
    requires t < |mem| && i < ENTRIES
    ensures |r| == |mem|
  {
    mem[t := mem[t][i := w]]
  }

  /** What it takes to hang frame w.page below index i of the table at (r, q). */
  ghost predicate CanAttach(mem: seq<Page>, roots: set<nat>, owner: map<nat, Place>, r: nat, q: Path, i: nat, w: Word)
  {
    && Forest(mem, roots, owner) && r in roots && IsPath(q, 3) && i < ENTRIES
    && Node(mem, r, q) != 0 && !Present(mem[Node(mem, r, q)][i])
    && Present(w) && 0 < w.page < NFRAMES && w.page !in owner
    && (|q| < 3 ==> mem[w.page] == ZeroPage())
  }

  /** Hanging a fresh frame below a free entry adds that one node and changes no other. */
  lemma {:induction false} AttachNode(mem: seq<Page>, roots: set<nat>, owner: map<nat, Place>, r: nat, q: Path, i: nat,
                                      w: Word, r': nat, p: Path)
    requires CanAttach(mem, roots, owner, r, q, i, w) && r' in roots && IsPath(p, 4)
    ensures Node(SetEntry(mem, Node(mem, r, q), i, w), r', p)
         == if r' == r && p == q + [i] then w.page else Node(mem, r', p)
  {
    hide Forest;
    OneOwner(mem, roots, owner, r, q, r, q);
    if p != [] {
      var p0, j := p[..|p|-1], p[|p|-1];
      assert p == p0 + [j];
      AttachNode(mem, roots, owner, r, q, i, w, r', p0);
      AttachGap(mem, roots, owner, r, q, i, w);
      OneOwner(mem, roots, owner, r, q, r', p0);
      assert Node(mem, r', p) == Child(mem, Node(mem, r', p0), j);
    }
  }

  /** Before it is attached, nothing is at the new place; after, the new table is empty. */
  lemma AttachGap(mem: seq<Page>, roots: set<nat>, owner: map<nat, Place>, r: nat, q: Path, i: nat, w: Word)
    requires CanAttach(mem, roots, owner, r, q, i, w)
    ensures Node(mem, r, q + [i]) == 0
    ensures |q| < 3 ==> forall j :: Child(SetEntry(mem, Node(mem, r, q), i, w), w.page, j) == 0
  {
    assert (q + [i])[..|q|] == q;
  }

  /** No frame is in two places. */
  lemma OneOwner(mem: seq<Page>, roots: set<nat>, owner: map<nat, Place>, r: nat, p: Path, r': nat, p': Path)
    requires Forest(mem, roots, owner) && r in roots && r' in roots && IsPath(p, 4) && IsPath(p', 4)
    ensures Node(mem, r, p) == Node(mem, r', p') != 0 ==> r == r' && p == p'
    ensures Node(mem, r, p) != 0 ==>
      Node(mem, r, p) in owner && owner[Node(mem, r, p)] == Place(r, p) && Node(mem, r, p) < |mem|
  {
  }

  /** One node more, at (r, q), and otherwise the same: the new frame's owner completes the map. */
  lemma PlusNode(mem: seq<Page>, mem': seq<Page>, roots: set<nat>, owner: map<nat, Place>, r: nat, q: Path, f: nat)
    requires Named(mem, roots, owner) && Placed(mem, roots, owner)
    requires r in roots && IsPath(q, 4) && Node(mem, r, q) == 0 && 0 < f < NFRAMES && f !in owner
    requires forall r', p :: r' in roots && IsPath(p, 4) ==>
               Node(mem', r', p) == if r' == r && p == q then f else Node(mem, r', p)
    ensures Named(mem', roots, owner[f := Place(r, q)]) && Placed(mem', roots, owner[f := Place(r, q)])
  {
  }

  lemma TidyPlus(mem: seq<Page>, owner: map<nat, Place>, t: nat, i: nat, w: Word, x: Place)
    requires Tidy(mem, owner) && t < |mem| && i < ENTRIES && Present(w) && 0 < w.page < |mem|
    requires |x.path| <= 3 ==> mem[w.page] == ZeroPage() && w.page != t
    ensures Tidy(SetEntry(mem, t, i, w), owner[w.page := x])
  {
  }

  lemma AttachForest(mem: seq<Page>, roots: set<nat>, owner: map<nat, Place>, r: nat, q: Path, i: nat, w: Word)
    requires CanAttach(mem, roots, owner, r, q, i, w)
    ensures Forest(SetEntry(mem, Node(mem, r, q), i, w), roots, owner[w.page := Place(r, q + [i])])
  {
    var mem' := SetEntry(mem, Node(mem, r, q), i, w);
    AttachGap(mem, roots, owner, r, q, i, w);
    OneOwner(mem, roots, owner, r, q, r, q);
    hide Named, Placed, Tidy, Node;
    TidyPlus(mem, owner, Node(mem, r, q), i, w, Place(r, q + [i]));
    forall r', p | r' in roots && IsPath(p, 4)
      ensures Node(mem', r', p) == if r' == r && p == q + [i] then w.page else Node(mem, r', p)
    {
      AttachNode(mem, roots, owner, r, q, i, w, r', p);
    }
    PlusNode(mem, mem', roots, owner, r, q + [i], w.page);
  }

  /** Translations under an attachment: a new table translates nothing, a new page exactly its own address. */
  lemma AttachEntry(mem: seq<Page>, roots: set<nat>, owner: map<nat, Place>, r: nat, q: Path, i: nat, w: Word, r': nat,
                    p: Path)
    requires CanAttach(mem, roots, owner, r, q, i, w) && r' in roots && IsPath(p, 4) && |p| == 4
    ensures Entry(SetEntry(mem, Node(mem, r, q), i, w), r', p)
         == if r' == r && p == q + [i] then w else Entry(mem, r', p)
  {
    AttachNode(mem, roots, owner, r, q, i, w, r', p[..3]);
    AttachGap(mem, roots, owner, r, q, i, w);
    OneOwner(mem, roots, owner, r, q, r', p[..3]);
    assert p == p[..3] + [p[3]];
    assert |q| == 3 ==> (p == q + [i] <==> p[..3] == q && p[3] == i);
  }

  /** All tables of the forest are the same in both memories; pages and everything outside may differ. */
  ghost predicate SameTables(mem: seq<Page>, mem': seq<Page>, owner: map<nat, Place>)
  {
    |mem| == |mem'| && forall f :: f in owner && f < |mem| && |owner[f].path| <= 3 ==> mem'[f] == mem[f]
  }

  lemma {:induction false} FrameNode(mem: seq<Page>, mem': seq<Page>, roots: set<nat>, owner: map<nat, Place>, r: nat,
                                     p: Path)
    requires Forest(mem, roots, owner) && SameTables(mem, mem', owner) && r in roots && IsPath(p, 4)
    ensures Node(mem', r, p) == Node(mem, r, p)
  {
    if p != [] {
      var p0 := p[..|p|-1];
      FrameNode(mem, mem', roots, owner, r, p0);
      OneOwner(mem, roots, owner, r, p0, r, p0);
    }
  }

  lemma FrameForest(mem: seq<Page>, mem': seq<Page>, roots: set<nat>, owner: map<nat, Place>)
    requires Forest(mem, roots, owner) && SameTables(mem, mem', owner)
    ensures Forest(mem', roots, owner)
    ensures forall r, p :: r in roots && IsPath(p, 4) && |p| == 4 ==> Entry(mem', r, p) == Entry(mem, r, p)
  {
    forall r, p | r in roots && IsPath(p, 4)
      ensures Node(mem', r, p) == Node(mem, r, p)
    {
      FrameNode(mem, mem', roots, owner, r, p);
    }
    forall r, p | r in roots && IsPath(p, 4) && |p| == 4
      ensures Entry(mem', r, p) == Entry(mem, r, p)
    {
      OneOwner(mem, roots, owner, r, p[..3], r, p[..3]);
    }
  }

  /** Clearing a last-level entry removes that one page and changes no other node. */
  lemma {:induction false} DetachNode(mem: seq<Page>, roots: set<nat>, owner: map<nat, Place>, r: nat, q: Path, i: nat,
                                      r': nat, p: Path)
    requires Forest(mem, roots, owner) && r in roots && IsPath(q, 3) && |q| == 3 && i < ENTRIES && Node(mem, r, q) != 0
    requires r' in roots && IsPath(p, 4)
    ensures Node(mem, r, q) < |mem|
    ensures Node(SetEntry(mem, Node(mem, r, q), i, ZeroWord), r', p)
         == if r' == r && p == q + [i] then 0 else Node(mem, r', p)
  {
    OneOwner(mem, roots, owner, r, q, r, q);
    if p != [] {
      var p0, j := p[..|p|-1], p[|p|-1];
      assert p == p0 + [j];
      DetachNode(mem, roots, owner, r, q, i, r', p0);
      OneOwner(mem, roots, owner, r, q, r', p0);
      hide Forest;
      assert Node(mem, r', p) == Child(mem, Node(mem, r', p0), j);
    }
  }

  /** One node less, at (r, q), and otherwise the same. */
  lemma MinusNode(mem: seq<Page>, mem': seq<Page>, roots: set<nat>, owner: map<nat, Place>, r: nat, q: Path)
    requires Named(mem, roots, owner) && Placed(mem, roots, owner) && r in roots && IsPath(q, 4)
    requires forall r', p :: r' in roots && IsPath(p, 4) ==>
               Node(mem', r', p) == if r' == r && p == q then 0 else Node(mem, r', p)
    ensures Named(mem', roots, owner - {Node(mem, r, q)}) && Placed(mem', roots, owner - {Node(mem, r, q)})
  {
  }

  lemma DetachForest(mem: seq<Page>, roots: set<nat>, owner: map<nat, Place>, r: nat, q: Path, i: nat)
    requires Forest(mem, roots, owner) && r in roots && IsPath(q, 3) && |q| == 3 && i < ENTRIES && Node(mem, r, q) != 0
    ensures Node(mem, r, q) < |mem|
    ensures Forest(SetEntry(mem, Node(mem, r, q), i, ZeroWord), roots, owner - {Node(mem, r, q + [i])})
  {
    OneOwner(mem, roots, owner, r, q, r, q);
    var mem' := SetEntry(mem, Node(mem, r, q), i, ZeroWord);
    assert Tidy(mem', owner - {Node(mem, r, q + [i])});
    hide Named, Placed, Tidy;
    forall r', p | r' in roots && IsPath(p, 4)
      ensures Node(mem', r', p) == if r' == r && p == q + [i] then 0 else Node(mem, r', p)
    {
      DetachNode(mem, roots, owner, r, q, i, r', p);
    }
    assert IsPath(q + [i], 4);
    MinusNode(mem, mem', roots, owner, r, q + [i]);
  }

  lemma DetachEntry(mem: seq<Page>, roots: set<nat>, owner: map<nat, Place>, r: nat, q: Path, i: nat, r': nat, p: Path)
    requires Forest(mem, roots, owner) && r in roots && IsPath(q, 3) && |q| == 3 && i < ENTRIES && Node(mem, r, q) != 0
    requires r' in roots && IsPath(p, 4) && |p| == 4
    ensures Node(mem, r, q) < |mem|
    ensures Entry(SetEntry(mem, Node(mem, r, q), i, ZeroWord), r', p)
         == if r' == r && p == q + [i] then ZeroWord else Entry(mem, r', p)
  {
    OneOwner(mem, roots, owner, r, q, r, q);
    DetachNode(mem, roots, owner, r, q, i, r', p[..3]);
    OneOwner(mem, roots, owner, r, q, r', p[..3]);
    assert p == p[..3] + [p[3]];
    assert p == q + [i] <==> p[..3] == q && p[3] == i;
  }

  /** A zeroed frame outside the forest becomes a new, empty tree. */
  lemma {:induction false} NewRootNode(mem: seq<Page>, d: nat, p: Path)
    requires d < |mem| && mem[d] == ZeroPage() && IsPath(p, 4)
    ensures Node(mem, d, p) == if p == [] then d else 0
  {
    if p != [] {
      NewRootNode(mem, d, p[..|p|-1]);
    }
  }

  /** A tree of nothing but its root. */
  ghost predicate NoTablesBelow(mem: seq<Page>, d: nat)
  {
    forall p :: IsPath(p, 3) && p != [] ==> Node(mem, d, p) == 0
  }

  lemma NewRoot(mem: seq<Page>, roots: set<nat>, owner: map<nat, Place>, d: nat)
    requires Forest(mem, roots, owner) && 0 < d < |mem| && d !in owner && mem[d] == ZeroPage()
    ensures d !in roots
    ensures Forest(mem, roots + {d}, owner[d := Place(d, [])])
    ensures forall p :: IsPath(p, 4) && |p| == 4 ==> Entry(mem, d, p) == ZeroWord
    ensures NoTablesBelow(mem, d)
  {
    assert forall r :: r in roots && r != 0 ==> Node(mem, r, []) == r;
    forall p | IsPath(p, 4)
      ensures Node(mem, d, p) == if p == [] then d else 0
    {
      NewRootNode(mem, d, p);
    }
  }

  /** The frames of a tree, by place. */
  ghost function TreeOf(owner: map<nat, Place>, r: nat): set<nat>
  {
    set f | f in owner && owner[f].root == r
  }

  /** Without root r the other trees are as they were. */
  lemma DropRoot(mem: seq<Page>, roots: set<nat>, owner: map<nat, Place>, r: nat)
    requires Forest(mem, roots, owner)
    ensures Forest(mem, roots - {r}, owner - TreeOf(owner, r))
  {
  }

  // ---------- Addresses ----------

  /** The four 9-bit indices of a virtual address. */
  function PathOf(va: nat): (p: Path)
    ensures |p| == 4 && IsPath(p, 4)
  {
    [va / 0x80_0000_0000 % 512, va / 0x4000_0000 % 512, va / 0x20_0000 % 512, va / 0x1000 % 512]
  }

  function PageNumber(p: Path): nat
    requires |p| == 4
  {
    p[0] * 0x800_0000 + p[1] * 0x4_0000 + p[2] * 512 + p[3]
  }

  /** A page number is its path read in base 512, so the indices lose nothing of a 48-bit page address. */
  lemma PathRoundTrip(va: nat)
    requires va < 0x1_0000_0000_0000
    ensures PageNumber(PathOf(va)) == va / 0x1000
  {
    var a, b, c, d := va / 0x1000, va / 0x20_0000, va / 0x4000_0000, va / 0x80_0000_0000;
    assert b == a / 512 && c == b / 512 && d == c / 512 && d < 512;
  }

  lemma PathOfPage(p: Path)
    requires IsPath(p, 4) && |p| == 4
    ensures PathOf(PageNumber(p) * 0x1000) == p
  {
    var a := PageNumber(p);
    var b, c := p[0] * 0x4_0000 + p[1] * 512 + p[2], p[0] * 512 + p[1];
    var va := a * 0x1000;
    assert va / 0x1000 == a;
    assert a == b * 512 + p[3] && b == c * 512 + p[2];
    assert a / 512 == b && a % 512 == p[3];
    assert b / 512 == c && b % 512 == p[2];
    assert c / 512 == p[0] && c % 512 == p[1];
    assert va / 0x20_0000 == a / 512;
    assert va / 0x4000_0000 == b / 512;
    assert va / 0x80_0000_0000 == c / 512;
  }

  /** Two page-aligned 48-bit addresses with the same indices are the same. */
  lemma PathInjective(va: nat, vb: nat)
    requires va < 0x1_0000_0000_0000 && vb < 0x1_0000_0000_0000 && va % 0x1000 == 0 && vb % 0x1000 == 0
    ensures PathOf(va) == PathOf(vb) <==> va == vb
  {
    PathRoundTrip(va);
    PathRoundTrip(vb);
  }

  /** The path of an address is the only one with its page number. */
  lemma OnlyPath(p: Path, va: nat)
    requires IsPath(p, 4) && |p| == 4 && va < 0x1_0000_0000_0000
    ensures PageNumber(p) == va / 0x1000 <==> p == PathOf(va)
  {
    PathRoundTrip(va);
    PathOfPage(p);
    if PageNumber(p) == va / 0x1000 {
      PathOfPage(PathOf(va));
    }
  }

  lemma HighIndices(va: nat)
    requires va < 0x1_0000_0000_0000
    ensures (0xFFFF_0000_0000_0000 + va) / 0x80_0000_0000 % 512 == va / 0x80_0000_0000 % 512
    ensures (0xFFFF_0000_0000_0000 + va) / 0x4000_0000 % 512 == va / 0x4000_0000 % 512
  {
    var vb := 0xFFFF_0000_0000_0000 + va;
    assert vb / 0x80_0000_0000 == 512 * 0xFFFF + va / 0x80_0000_0000;
    assert vb / 0x4000_0000 == 512 * 0x1FFFE00 + va / 0x4000_0000;
  }

  lemma LowIndices(va: nat)
    requires va < 0x1_0000_0000_0000
    ensures (0xFFFF_0000_0000_0000 + va) / 0x20_0000 % 512 == va / 0x20_0000 % 512
    ensures (0xFFFF_0000_0000_0000 + va) / 0x1000 % 512 == va / 0x1000 % 512
  {
    var vb := 0xFFFF_0000_0000_0000 + va;
    assert vb / 0x20_0000 == 512 * 0x3_FFFC_0000 + va / 0x20_0000;
    assert vb / 0x1000 == 512 * 0x7FF_F800_0000 + va / 0x1000;
  }

  /** The same indices are also those of the upper address half: pgdir_walk does not tell the halves apart. */
  lemma PathIgnoresHalf(va: nat)
    requires va < 0x1_0000_0000_0000
    ensures PathOf(0xFFFF_0000_0000_0000 + va) == PathOf(va)
  {
    HighIndices(va);
    LowIndices(va);
  }
}
