/** The page allocator and the page-table code over one physical memory. */
module Vm {
  import opened Memory
  import opened PageTree
  import opened Sets

  const PGSIZE: nat := 0x1000
  /** Largest user address space. */
  const UADDR_SZ: nat := 0x1000_0000

  /** No address translates differently in any of the trees. */
  ghost predicate SameTranslation(mem: seq<Page>, mem': seq<Page>, roots: set<nat>)
  {
    forall r, p :: r in roots && IsPath(p, 4) && |p| == 4 ==> Entry(mem', r, p) == Entry(mem, r, p)
  }

  /** Every place keeps its frame. */
  ghost predicate Keeps(owner: map<nat, Place>, owner': map<nat, Place>)
  {
    forall f :: f in owner ==> f in owner' && owner'[f] == owner[f]
  }

  /** Pages of the trees, and the frames outside, keep their contents. */
  ghost predicate SameContents(mem: seq<Page>, mem': seq<Page>, owner: map<nat, Place>, other: set<nat>)
  {
    && |mem| == |mem'|
    && (forall f :: f in owner && f < |mem| && |owner[f].path| == 4 ==> mem'[f] == mem[f])
    && (forall f :: f in other && f < |mem| ==> mem'[f] == mem[f])
  }

  /** What walking with allocation may do: add empty tables. */
  ghost predicate OnlyTables(mem: seq<Page>, mem': seq<Page>, roots: set<nat>, owner: map<nat, Place>,
                             owner': map<nat, Place>, other: set<nat>)
  {
    SameTranslation(mem, mem', roots) && Keeps(owner, owner') && SameContents(mem, mem', owner, other)
  }

  lemma OnlyTablesTransitive(m: seq<Page>, m': seq<Page>, m'': seq<Page>, roots: set<nat>,
                             o: map<nat, Place>, o': map<nat, Place>, o'': map<nat, Place>, other: set<nat>)
    requires OnlyTables(m, m', roots, o, o', other) && OnlyTables(m', m'', roots, o', o'', other)
    ensures OnlyTables(m, m'', roots, o, o'', other)
  {
  }

  /** Attaching a table translates nothing and leaves pages alone. */
  lemma AttachSame(mem: seq<Page>, roots: set<nat>, owner: map<nat, Place>, r: nat, q: Path, i: nat, w: Word,
                   other: set<nat>)
    requires CanAttach(mem, roots, owner, r, q, i, w) && |q| < 3 && Node(mem, r, q) !in other
    ensures Node(mem, r, q) < |mem|
    ensures var mem' := SetEntry(mem, Node(mem, r, q), i, w);
      && SameTranslation(mem, mem', roots) && SameContents(mem, mem', owner, other)
      && Keeps(owner, owner[w.page := Place(r, q + [i])])
      && Node(mem', r, q + [i]) == w.page
  {
    OneOwner(mem, roots, owner, r, q, r, q);
    AttachNode(mem, roots, owner, r, q, i, w, r, q + [i]);
    hide Forest;
    forall r', x | r' in roots && IsPath(x, 4) && |x| == 4
      ensures Entry(SetEntry(mem, Node(mem, r, q), i, w), r', x) == Entry(mem, r', x)
    {
      AttachEntry(mem, roots, owner, r, q, i, w, r', x);
    }
  }

  /** The free list is not disturbed, and the frame moves from the allocated ones into the tree. */
  lemma AttachList(mem: seq<Page>, head: nat, free: seq<nat>, low: nat, roots: set<nat>, owner: map<nat, Place>,
                   r: nat, q: Path, i: nat, w: Word, other: set<nat>)
    requires Chain(mem, head, free) && Partition(low, free, owner.Keys, other) && w.page in other
    requires CanAttach(mem, roots, owner, r, q, i, w)
    ensures Node(mem, r, q) < |mem| && Node(mem, r, q) !in other
    ensures Chain(SetEntry(mem, Node(mem, r, q), i, w), head, free)
    ensures Partition(low, free, owner[w.page := Place(r, q + [i])].Keys, other - {w.page})
  {
    OneOwner(mem, roots, owner, r, q, r, q);
    hide Forest;
    ChainFrame(mem, SetEntry(mem, Node(mem, r, q), i, w), head, free);
    assert owner[w.page := Place(r, q + [i])].Keys == owner.Keys + {w.page};
  }

  datatype MapResult = Mapped | NoMemory | AlreadyMapped

  /** Exactly one translation is added: path p of tree r now gives w, which it did not before. */
  ghost predicate Adds(mem: seq<Page>, mem': seq<Page>, roots: set<nat>, r: nat, p: Path, w: Word)
    requires IsPath(p, 4) && |p| == 4
  {
    && !Present(Entry(mem, r, p))
    && forall r', q :: r' in roots && IsPath(q, 4) && |q| == 4 ==>
         Entry(mem', r', q) == if r' == r && q == p then w else Entry(mem, r', q)
  }

  /** Attaching a page adds its translation. */
  lemma AttachAdds(mem: seq<Page>, roots: set<nat>, owner: map<nat, Place>, r: nat, p: Path, w: Word, other: set<nat>)
    requires IsPath(p, 4) && |p| == 4 && CanAttach(mem, roots, owner, r, p[..3], p[3], w)
           && Node(mem, r, p[..3]) !in other
    ensures Node(mem, r, p[..3]) < |mem|
    ensures var mem' := SetEntry(mem, Node(mem, r, p[..3]), p[3], w);
      && Adds(mem, mem', roots, r, p, w) && SameContents(mem, mem', owner, other)
      && Keeps(owner, owner[w.page := Place(r, p)])
  {
    OneOwner(mem, roots, owner, r, p[..3], r, p[..3]);
    hide Forest;
    assert p == p[..3] + [p[3]];
    forall r', x | r' in roots && IsPath(x, 4) && |x| == 4
      ensures Entry(SetEntry(mem, Node(mem, r, p[..3]), p[3], w), r', x) == if r' == r && x == p then w
          else Entry(mem, r', x)
    {
      AttachEntry(mem, roots, owner, r, p[..3], p[3], w, r', x);
    }
  }

  lemma MapCompose(m: seq<Page>, m': seq<Page>, m'': seq<Page>, roots: set<nat>,
                   o: map<nat, Place>, o': map<nat, Place>, o'': map<nat, Place>, other: set<nat>, r: nat, p: Path,
                   w: Word)
    requires OnlyTables(m, m', roots, o, o', other) && r in roots && IsPath(p, 4) && |p| == 4
    requires Adds(m', m'', roots, r, p, w) && Keeps(o', o'') && SameContents(m', m'', o', other)
    ensures Adds(m, m'', roots, r, p, w) && Keeps(o, o'') && SameContents(m, m'', o, other)
  {
  }

  lemma EntryBefore(m: seq<Page>, m': seq<Page>, roots: set<nat>, r: nat, p: Path)
    requires SameTranslation(m, m', roots) && r in roots && IsPath(p, 4) && |p| == 4
    ensures Entry(m, r, p) == Entry(m', r, p)
  {
  }

  /** Exactly one translation is removed. */
  ghost predicate Removes(mem: seq<Page>, mem': seq<Page>, roots: set<nat>, r: nat, p: Path)
    requires IsPath(p, 4) && |p| == 4
  {
    forall r', q :: r' in roots && IsPath(q, 4) && |q| == 4 ==>
      Entry(mem', r', q) == if r' == r && q == p then ZeroWord else Entry(mem, r', q)
  }

  /** The user pages of a tree are exactly those with numbers below k. */
  ghost predicate Contiguous(mem: seq<Page>, r: nat, k: nat)
  {
    forall p :: IsPath(p, 4) && |p| == 4 ==> (Present(Entry(mem, r, p)) <==> PageNumber(p) < k)
  }

  /** Pages needed for sz bytes: ROUNDUP(sz, PGSIZE) / PGSIZE. */
  function Pages(sz: nat): nat
  {
    (sz + PGSIZE - 1) / PGSIZE
  }

  /** Tree r has lost its translations for pages lo .. hi, and nothing else has changed. */
  ghost predicate Cleared(mem: seq<Page>, mem': seq<Page>, roots: set<nat>, r: nat, lo: nat, hi: nat)
  {
    forall r', p :: r' in roots && IsPath(p, 4) && |p| == 4 ==>
      Entry(mem', r', p) == if r' == r && lo <= PageNumber(p) < hi then ZeroWord else Entry(mem, r', p)
  }

  /** The remaining places keep their frames, and remaining pages and outside frames their contents. */
  ghost predicate Shrinks(mem: seq<Page>, mem': seq<Page>, owner: map<nat, Place>, owner': map<nat, Place>,
                          other: set<nat>)
  {
    Keeps(owner', owner) && SameContents(mem, mem', owner', other)
  }

  lemma EntryTidy(mem: seq<Page>, roots: set<nat>, owner: map<nat, Place>, r: nat, p: Path)
    requires Forest(mem, roots, owner) && r in roots && IsPath(p, 4) && |p| == 4
    ensures !Present(Entry(mem, r, p)) ==> Entry(mem, r, p) == ZeroWord
    ensures Present(Entry(mem, r, p)) ==> Entry(mem, r, p).page == Node(mem, r, p) != 0 && Node(mem, r, p[..3]) != 0
  {
    OneOwner(mem, roots, owner, r, p[..3], r, p[..3]);
    assert p[..|p|-1] == p[..3];
  }

  lemma ClearedStep(m: seq<Page>, m': seq<Page>, m'': seq<Page>, roots: set<nat>, r: nat, lo: nat, a: nat)
    requires Cleared(m, m', roots, r, lo, a / PGSIZE) && a < 0x1_0000_0000_0000 && lo <= a / PGSIZE
    requires Removes(m', m'', roots, r, PathOf(a))
    ensures Cleared(m, m'', roots, r, lo, a / PGSIZE + 1)
  {
    forall r', p | r' in roots && IsPath(p, 4) && |p| == 4
      ensures Entry(m'', r', p) == if r' == r && lo <= PageNumber(p) < a / PGSIZE + 1 then ZeroWord else Entry(m, r', p)
    {
      OnlyPath(p, a);
    }
  }

  /** Above the last user page there is nothing to clear, so the upper bound does not matter there. */
  lemma ClearedBeyond(m: seq<Page>, m': seq<Page>, roots: set<nat>, owner: map<nat, Place>, r: nat, lo: nat, k: nat,
                      n: nat, n': nat)
    requires Forest(m, roots, owner) && r in roots && Contiguous(m, r, k) && k <= n && k <= n'
    requires Cleared(m, m', roots, r, lo, n)
    ensures Cleared(m, m', roots, r, lo, n')
  {
    forall r', p | r' in roots && IsPath(p, 4) && |p| == 4
      ensures Entry(m', r', p) == if r' == r && lo <= PageNumber(p) < n' then ZeroWord else Entry(m, r', p)
    {
      EntryTidy(m, roots, owner, r', p);
    }
  }

  /** The last-level entry of address a, during clearing from lo up to a. */
  lemma ClearedAt(m: seq<Page>, m': seq<Page>, roots: set<nat>, r: nat, lo: nat, k: nat, a: nat)
    requires r in roots && Contiguous(m, r, k) && a < 0x1_0000_0000_0000 && Cleared(m, m', roots, r, lo, a / PGSIZE)
    ensures Entry(m', r, PathOf(a)) == Entry(m, r, PathOf(a))
    ensures Present(Entry(m', r, PathOf(a))) <==> a / PGSIZE < k
  {
    PathRoundTrip(a);
  }

  /** Clearing the top keeps a contiguous space contiguous. */
  lemma ClearedContiguous(m: seq<Page>, m': seq<Page>, roots: set<nat>, r: nat, lo: nat, hi: nat, k: nat)
    requires r in roots && Contiguous(m, r, k) && k <= hi && Cleared(m, m', roots, r, lo, hi)
    ensures Contiguous(m', r, if lo < k then lo else k)
  {
  }

  lemma ShrinksTransitive(m: seq<Page>, m': seq<Page>, m'': seq<Page>, o: map<nat, Place>, o': map<nat, Place>,
                          o'': map<nat, Place>, other: set<nat>)
    requires Shrinks(m, m', o, o', other) && Shrinks(m', m'', o', o'', other)
    ensures Shrinks(m, m'', o, o'', other)
  {
  }

  /** Where a table is missing, so is everything below it. */
  lemma MissingBelow(mem: seq<Page>, r: nat, p: Path, k: nat)
    requires |p| == 4 && 1 <= k <= 3 && Node(mem, r, p[..k]) == 0
    ensures Node(mem, r, p[..3]) == 0
  {
    assert p[..2][..1] == p[..1] && p[..3][..2] == p[..2];
  }

  lemma SameIsOnlyTables(m: seq<Page>, roots: set<nat>, o: map<nat, Place>, other: set<nat>)
    ensures OnlyTables(m, m, roots, o, o, other)
  {
  }

  /** A mapped page is a managed frame, not free, and not a table. */
  lemma LeafFacts(mem: seq<Page>, roots: set<nat>, owner: map<nat, Place>, free: seq<nat>, low: nat, other: set<nat>,
                  r: nat, p: Path)
    requires Forest(mem, roots, owner) && Partition(low, free, owner.Keys, other)
    requires r in roots && IsPath(p, 4) && |p| == 4 && Present(Entry(mem, r, p))
    ensures var f := Entry(mem, r, p).page;
      low <= f < NFRAMES && 0 < f && f !in free && f in owner && owner[f] == Place(r, p)
    ensures var t := Node(mem, r, p[..3]);
      t != Entry(mem, r, p).page && t !in free && t in owner && owner[t] == Place(r, p[..3])
    ensures |mem| == NFRAMES && other !! owner.Keys
  {
    EntryTidy(mem, roots, owner, r, p);
    OneOwner(mem, roots, owner, r, p, r, p[..3]);
    OneOwner(mem, roots, owner, r, p[..3], r, p[..3]);
  }

  lemma LeafPartition(low: nat, free: seq<nat>, owner: map<nat, Place>, other: set<nat>, f: nat)
    requires Partition(low, free, owner.Keys, other) && f in owner
    ensures Partition(low, [f] + free, (owner - {f}).Keys, other)
  {
  }

  lemma LeafShrinks(m: seq<Page>, x: Page, y: Page, owner: map<nat, Place>, other: set<nat>, f: nat, t: nat)
    requires f in owner && |owner[f].path| == 4 && t in owner && |owner[t].path| == 3 && f < |m| && t < |m|
    requires other !! owner.Keys
    ensures Shrinks(m, m[f := x][t := y], owner, owner - {f}, other)
  {
  }

  /** Junking a page and clearing its entry removes its translation and keeps everything else. */
  lemma LeafRemoved(m: seq<Page>, x: Page, roots: set<nat>, owner: map<nat, Place>, r: nat, p: Path)
    requires Forest(m, roots, owner) && r in roots && IsPath(p, 4) && |p| == 4 && Present(Entry(m, r, p))
    requires Entry(m, r, p).page < |m| && Node(m, r, p[..3]) < |m| && Entry(m, r, p).page != Node(m, r, p[..3])
    requires Entry(m, r, p).page in owner && owner[Entry(m, r, p).page] == Place(r, p)
    ensures var m' := SetEntry(m[Entry(m, r, p).page := x], Node(m, r, p[..3]), p[3], ZeroWord);
      && Removes(m, m', roots, r, p)
      && Forest(m', roots, owner - {Entry(m, r, p).page})
  {
    hide Forest;
    var m1 := m[Entry(m, r, p).page := x];
    EntryTidy(m, roots, owner, r, p);
    FrameForest(m, m1, roots, owner);
    FrameNode(m, m1, roots, owner, r, p);
    FrameNode(m, m1, roots, owner, r, p[..3]);
    assert p == p[..3] + [p[3]];
    DetachForest(m1, roots, owner, r, p[..3], p[3]);
    forall r', q | r' in roots && IsPath(q, 4) && |q| == 4
      ensures Entry(SetEntry(m1, Node(m, r, p[..3]), p[3], ZeroWord), r', q)
           == if r' == r && q == p then ZeroWord else Entry(m, r', q)
    {
      DetachEntry(m1, roots, owner, r, p[..3], p[3], r', q);
    }
  }

  /** A new user page: readable and writable, zero, on a frame that was in no tree and not handed out before. */
  ghost predicate NewPage(mem: seq<Page>, w: Word, owner0: map<nat, Place>, other0: set<nat>)
  {
    w.flags == {P, TABLE, USER, AF} && w.page < |mem| && mem[w.page] == ZeroPage() && w.page !in owner0
      && w.page !in other0
  }

  /** Tree r has gained new pages lo .. hi; every other translation, and the contents of every page there was, are
      kept. */
  ghost predicate Grown(mem0: seq<Page>, mem: seq<Page>, roots: set<nat>, owner0: map<nat, Place>,
                        owner: map<nat, Place>, other0: set<nat>, r: nat, lo: nat, hi: nat)
  {
    && Keeps(owner0, owner) && SameContents(mem0, mem, owner0, other0)
    && forall r', p :: r' in roots && IsPath(p, 4) && |p| == 4 ==>
         if r' == r && lo <= PageNumber(p) < hi then NewPage(mem, Entry(mem, r', p), owner0, other0)
         else Entry(mem, r', p) == Entry(mem0, r', p)
  }

  lemma NothingNew(m0: seq<Page>, m: seq<Page>, roots: set<nat>, o0: map<nat, Place>, o: map<nat, Place>,
                   other0: set<nat>, r: nat)
    requires Grown(m0, m, roots, o0, o, other0, r, 0, 0)
    ensures SameTranslation(m0, m, roots)
  {
  }

  lemma NothingGrown(m: seq<Page>, roots: set<nat>, owner: map<nat, Place>, other: set<nat>, r: nat, lo: nat)
    ensures Grown(m, m, roots, owner, owner, other, r, lo, lo)
  {
  }

  /** Steps that add tables and handed-out frames only do not show in Grown. */
  lemma GrownSame(m0: seq<Page>, m: seq<Page>, m': seq<Page>, roots: set<nat>, o0: map<nat, Place>, o: map<nat, Place>,
                  o': map<nat, Place>, other0: set<nat>, other: set<nat>, r: nat, lo: nat, hi: nat)
    requires Grown(m0, m, roots, o0, o, other0, r, lo, hi) && Forest(m, roots, o) && r in roots && other0 <= other
    requires SameTranslation(m, m', roots) && Keeps(o, o') && SameContents(m, m', o, other)
    ensures Grown(m0, m', roots, o0, o', other0, r, lo, hi)
  {
    forall r', p | r' in roots && IsPath(p, 4) && |p| == 4
      ensures if r' == r && lo <= PageNumber(p) < hi then NewPage(m', Entry(m', r', p), o0, other0)
              else Entry(m', r', p) == Entry(m0, r', p)
    {
      EntryTidy(m, roots, o, r', p);
      OneOwner(m, roots, o, r', p, r', p);
    }
  }

  /** One more page: kalloc gave f, map_region put it at address a. */
  lemma GrownStep(m0: seq<Page>, m: seq<Page>, m': seq<Page>, roots: set<nat>, o0: map<nat, Place>, o: map<nat, Place>,
                  o': map<nat, Place>, other0: set<nat>, other: set<nat>, r: nat, lo: nat, a: nat, f: nat)
    requires Grown(m0, m, roots, o0, o, other0, r, lo, a / PGSIZE) && Forest(m, roots, o) && r in roots
    requires a < 0x1_0000_0000_0000 && lo <= a / PGSIZE
    requires Adds(m, m', roots, r, PathOf(a), Word(f, {USER} + {P, TABLE, AF}))
    requires Keeps(o, o') && SameContents(m, m', o, other) && other0 <= other
    requires f in other && f !in o0 && f !in other0 && f < |m| && m[f] == ZeroPage()
    ensures Grown(m0, m', roots, o0, o', other0, r, lo, a / PGSIZE + 1)
  {
    forall r', p | r' in roots && IsPath(p, 4) && |p| == 4
      ensures if r' == r && lo <= PageNumber(p) < a / PGSIZE + 1 then NewPage(m', Entry(m', r', p), o0, other0)
              else Entry(m', r', p) == Entry(m0, r', p)
    {
      OnlyPath(p, a);
      EntryTidy(m, roots, o, r', p);
      OneOwner(m, roots, o, r', p, r', p);
    }
  }

  lemma GrownContiguous(m0: seq<Page>, m: seq<Page>, roots: set<nat>, o0: map<nat, Place>, o: map<nat, Place>,
                        other0: set<nat>, r: nat, lo: nat, hi: nat)
    requires Grown(m0, m, roots, o0, o, other0, r, lo, hi) && Contiguous(m0, r, lo) && lo <= hi && r in roots
    ensures Contiguous(m, r, hi)
  {
  }

  /** Growing and then clearing what was grown restores every translation. */
  lemma GrownThenCleared(m0: seq<Page>, m: seq<Page>, m': seq<Page>, roots: set<nat>, o0: map<nat, Place>,
                         o: map<nat, Place>, other0: set<nat>, r: nat, lo: nat, hi: nat, top: nat)
    requires Grown(m0, m, roots, o0, o, other0, r, lo, hi) && Forest(m0, roots, o0) && Contiguous(m0, r, lo)
           && r in roots
    requires Cleared(m, m', roots, r, lo, top) && hi <= top
    ensures SameTranslation(m0, m', roots)
  {
    forall r', p | r' in roots && IsPath(p, 4) && |p| == 4
      ensures Entry(m', r', p) == Entry(m0, r', p)
    {
      EntryTidy(m0, roots, o0, r', p);
    }
  }

  /** A page of the copy: its own frame, the same bytes, the same user and read-only bits. */
  ghost predicate CopyOf(mem: seq<Page>, w: Word, mem0: seq<Page>, v: Word, owner0: map<nat, Place>, other0: set<nat>)
  {
    && w.flags == (v.flags * {USER, RO}) + {P, TABLE, AF} && w.page !in owner0 && w.page !in other0
    && w.page < |mem| && v.page < |mem0| && mem[w.page] == mem0[v.page]
  }

  /** Tree d holds copies of the first k pages of tree r; everything that was there before is as it was. */
  ghost predicate Copied(mem0: seq<Page>, mem: seq<Page>, roots: set<nat>, owner0: map<nat, Place>,
                         owner: map<nat, Place>, other0: set<nat>, r: nat, d: nat, k: nat)
  {
    && OnlyTables(mem0, mem, roots, owner0, owner, other0)
    && forall p :: IsPath(p, 4) && |p| == 4 ==>
         if PageNumber(p) < k then CopyOf(mem, Entry(mem, d, p), mem0, Entry(mem0, r, p), owner0, other0)
         else Entry(mem, d, p) == ZeroWord
  }

  /** After a copy the two trees share no frame, neither a page nor a table, wherever in them one looks. */
  lemma ForkDisjoint(m0: seq<Page>, m: seq<Page>, roots: set<nat>, o0: map<nat, Place>, o: map<nat, Place>,
                     other0: set<nat>, r: nat, d: nat, k: nat, p: Path, q: Path)
    requires Copied(m0, m, roots, o0, o, other0, r, d, k) && Forest(m, roots + {d}, o) && r in roots && d !in roots
    requires IsPath(p, 4) && IsPath(q, 4) && Node(m, r, p) != 0
    ensures Node(m, r, p) != Node(m, d, q)
  {
    OneOwner(m, roots + {d}, o, r, p, d, q);
  }

  /** Whatever the child stores in one of its pages, the parent sees none of it: its translations and the bytes of its
      pages are those from before the fork. */
  lemma ForkIsolated(m0: seq<Page>, m: seq<Page>, m': seq<Page>, roots: set<nat>, o0: map<nat, Place>,
                     o: map<nat, Place>, other0: set<nat>, r: nat, d: nat, k: nat, q: Path, x: Page, p: Path)
    requires Copied(m0, m, roots, o0, o, other0, r, d, k) && Forest(m, roots + {d}, o) && r in roots && d !in roots
    requires Forest(m0, roots, o0)
    requires IsPath(q, 4) && |q| == 4 && Present(Entry(m, d, q)) && Entry(m, d, q).page < |m|
    requires m' == m[Entry(m, d, q).page := x]
    requires IsPath(p, 4) && |p| == 4 && Present(Entry(m0, r, p))
    ensures Entry(m', r, p) == Entry(m0, r, p) && Entry(m0, r, p).page < |m0| == |m'|
    ensures m'[Entry(m', r, p).page] == m0[Entry(m0, r, p).page]
  {
    CopiedSource(m0, m, roots, o0, o, other0, r, d, k, p);
    EntryTidy(m, roots + {d}, o, d, q);
    EntryTidy(m, roots + {d}, o, r, p);
    OneOwner(m, roots + {d}, o, r, p, d, q);
    OneOwner(m, roots + {d}, o, d, q, d, q);
    hide Copied;
    FrameForest(m, m', roots + {d}, o);
  }

  /** Allocation, and changes to frames handed out since, do not show in Copied. */
  lemma CopiedSame(m0: seq<Page>, m: seq<Page>, m': seq<Page>, roots: set<nat>, o0: map<nat, Place>, o: map<nat, Place>,
                   other0: set<nat>, r: nat, d: nat, k: nat, f: nat)
    requires Copied(m0, m, roots, o0, o, other0, r, d, k) && Forest(m, roots + {d}, o)
    requires f < |m| && f !in o && f !in other0 && (exists x: Page {:trigger m[f := x]} :: m' == m[f := x])
    ensures Copied(m0, m', roots, o0, o, other0, r, d, k) && Forest(m', roots + {d}, o)
  {
    FrameForest(m, m', roots + {d}, o);
    forall p | IsPath(p, 4) && |p| == 4 && PageNumber(p) < k
      ensures CopyOf(m', Entry(m', d, p), m0, Entry(m0, r, p), o0, other0)
    {
      EntryTidy(m, roots + {d}, o, d, p);
      OneOwner(m, roots + {d}, o, d, p, d, p);
    }
  }

  /** One more page copied: frame f now holds what address a of tree r holds, and is mapped at a in tree d. */
  lemma CopiedStep(m0: seq<Page>, m: seq<Page>, m': seq<Page>, roots: set<nat>, o0: map<nat, Place>, o: map<nat, Place>,
                   o': map<nat, Place>, other0: set<nat>, other: set<nat>, r: nat, d: nat, a: nat, f: nat, w: Word)
    requires Copied(m0, m, roots, o0, o, other0, r, d, a / PGSIZE) && Forest(m, roots + {d}, o) && d !in roots
    requires a < 0x1_0000_0000_0000 && Adds(m, m', roots + {d}, d, PathOf(a), w)
    requires Keeps(o, o') && SameContents(m, m', o, other) && other0 <= other
    requires f in other && f !in o0 && f !in other0 && f < |m| && w.page == f
    requires w.flags == (Entry(m0, r, PathOf(a)).flags * {USER, RO}) + {P, TABLE, AF}
    requires Entry(m0, r, PathOf(a)).page < |m0| && m[f] == m0[Entry(m0, r, PathOf(a)).page]
    ensures Copied(m0, m', roots, o0, o', other0, r, d, a / PGSIZE + 1)
  {
    forall p | IsPath(p, 4) && |p| == 4
      ensures if PageNumber(p) < a / PGSIZE + 1 then CopyOf(m', Entry(m', d, p), m0, Entry(m0, r, p), o0, other0)
              else Entry(m', d, p) == ZeroWord
    {
      OnlyPath(p, a);
      EntryTidy(m, roots + {d}, o, d, p);
      OneOwner(m, roots + {d}, o, d, p, d, p);
    }
  }

  lemma CopiedStart(m0: seq<Page>, m: seq<Page>, roots: set<nat>, o0: map<nat, Place>, o: map<nat, Place>,
                    other0: set<nat>, r: nat, d: nat)
    requires OnlyTables(m0, m, roots, o0, o, other0)
    requires forall p :: IsPath(p, 4) && |p| == 4 ==> Entry(m, d, p) == ZeroWord
    ensures Copied(m0, m, roots, o0, o, other0, r, d, 0)
  {
  }

  /** The source page of address a, which is mapped, is still what it was. */
  lemma CopiedSource(m0: seq<Page>, m: seq<Page>, roots: set<nat>, o0: map<nat, Place>, o: map<nat, Place>,
                     other0: set<nat>, r: nat, d: nat, k: nat, p: Path)
    requires Copied(m0, m, roots, o0, o, other0, r, d, k) && Forest(m0, roots, o0) && r in roots
    requires IsPath(p, 4) && |p| == 4 && Present(Entry(m0, r, p))
    ensures Entry(m, r, p) == Entry(m0, r, p) && Entry(m, r, p).page < |m0| == |m|
    ensures m[Entry(m, r, p).page] == m0[Entry(m0, r, p).page]
    ensures Node(m, r, p[..3]) != 0 && Node(m, r, p[..3]) < |m| && m[Node(m, r, p[..3])][p[3]] == Entry(m, r, p)
  {
    EntryTidy(m0, roots, o0, r, p);
    OneOwner(m0, roots, o0, r, p, r, p);
  }

  /** ROUNDUP(a, BKSIZE). */
  function RoundUpBlock(a: nat): (b: nat)
    ensures a <= b && b % PGSIZE == 0
  {
    var b := (a + 0x1F_FFFF) / 0x20_0000 * 0x20_0000;
    assert b == PGSIZE * ((a + 0x1F_FFFF) / 0x20_0000 * 512);
    b
  }

  lemma NextPage(a: nat)
    requires a % PGSIZE == 0
    ensures (a + PGSIZE) / PGSIZE == a / PGSIZE + 1 && (a + PGSIZE) % PGSIZE == 0
  {
  }

  lemma NothingCleared(m: seq<Page>, roots: set<nat>, owner: map<nat, Place>, other: set<nat>, r: nat, lo: nat)
    ensures Cleared(m, m, roots, r, lo, lo) && Shrinks(m, m, owner, owner, other)
  {
  }

  lemma NewRootPartition(low: nat, free: seq<nat>, owner: map<nat, Place>, other: set<nat>, d: nat)
    requires Partition(low, free, owner.Keys, other + {d}) && d !in owner && d !in other
    ensures Partition(low, free, owner[d := Place(d, [])].Keys, other)
  {
    assert owner[d := Place(d, [])].Keys == owner.Keys + {d};
  }

  lemma SameTwice(m: seq<Page>, m': seq<Page>, m'': seq<Page>, roots: set<nat>)
    requires SameTranslation(m, m', roots) && SameTranslation(m', m'', roots)
    ensures SameTranslation(m, m'', roots)
  {
  }

  lemma EntriesSame(m: seq<Page>, m': seq<Page>, roots: set<nat>)
    requires forall r, p :: r in roots && IsPath(p, 4) && |p| == 4 ==> Entry(m', r, p) == Entry(m, r, p)
    ensures SameTranslation(m, m', roots)
  {
  }

  lemma AbandonPartition(low: nat, free: seq<nat>, owner: map<nat, Place>, other: set<nat>, d: nat)
    requires Partition(low, free, owner.Keys, other) && d in owner && owner[d].root == d
    ensures Partition(low, [d] + free, (owner - TreeOf(owner, d)).Keys, other + (TreeOf(owner, d) - {d}))
  {
  }

  // ---------- vm_free ----------

  /** The levels whose frames vm_free gives back: the tables it is called on below level 3, and what the entries of
      a level-3 table point to. Level-3 tables themselves stay. */
  predicate FreedAt(level: nat)
  {
    level < 3 || level == 4
  }

  /** What vm_free(table, level) frees, for the table at (r, q). */
  ghost function Freed(owner: map<nat, Place>, r: nat, q: Path, level: nat): set<nat>
  {
    set f | f in owner && owner[f].root == r && q <= owner[f].path && FreedAt(level + |owner[f].path| - |q|)
  }

  /** The part of Freed below the first n entries of the table. */
  ghost function FreedBelow(owner: map<nat, Place>, r: nat, q: Path, level: nat, n: nat): set<nat>
  {
    set f | f in Freed(owner, r, q, level) && |owner[f].path| > |q| && owner[f].path[|q|] < n
  }

  /** The frames at and below (r, q), down to level 4. */
  ghost function Below(owner: map<nat, Place>, r: nat, q: Path): set<nat>
  {
    set f | f in owner && owner[f].root == r && q <= owner[f].path
  }

  lemma {:induction false} PrefixNode(mem: seq<Page>, r: nat, p: Path, k: nat)
    requires k <= |p| && Node(mem, r, p) != 0
    ensures Node(mem, r, p[..k]) != 0
  {
    if k < |p| {
      PrefixNode(mem, r, p[..|p|-1], k);
      assert p[..|p|-1][..k] == p[..k];
    } else {
      assert p[..k] == p;
    }
  }

  /** A missing entry has nothing below it. */
  lemma NothingBelow(mem: seq<Page>, roots: set<nat>, owner: map<nat, Place>, r: nat, q: Path, i: nat)
    requires Forest(mem, roots, owner) && Node(mem, r, q + [i]) == 0
    ensures Below(owner, r, q + [i]) == {}
  {
    forall f | f in owner && owner[f].root == r
      ensures !(q + [i] <= owner[f].path)
    {
      var p := owner[f].path;
      if |q| + 1 <= |p| {
        PrefixNode(mem, r, p, |q| + 1);
        TakePrefix(q + [i], p);
      }
    }
  }

  lemma TakePrefix(q: Path, p: Path)
    requires |q| <= |p|
    ensures q <= p ==> p[..|q|] == q
  {
  }

  /** One more entry adds what is freed below it. */
  lemma FreedNext(owner: map<nat, Place>, r: nat, q: Path, level: nat, i: nat)
    ensures FreedBelow(owner, r, q, level, i + 1)
          == FreedBelow(owner, r, q, level, i) + Freed(owner, r, q + [i], level + 1)
  {
    forall f | f in owner && owner[f].root == r
      ensures q + [i] <= owner[f].path <==> q <= owner[f].path && |owner[f].path| > |q| && owner[f].path[|q|] == i
    {
      if q <= owner[f].path && |owner[f].path| > |q| && owner[f].path[|q|] == i {
        assert owner[f].path[..|q| + 1] == q + [i];
      }
    }
  }

  /** What is below an entry is not freed through the entries before it, and the table itself through none. */
  lemma BelowEntry(mem: seq<Page>, roots: set<nat>, owner: map<nat, Place>, r: nat, q: Path, level: nat, i: nat)
    requires Forest(mem, roots, owner) && r in roots && IsPath(q, 3) && Node(mem, r, q) != 0
    ensures Below(owner, r, q + [i]) <= Below(owner, r, q)
    ensures Below(owner, r, q + [i]) !! FreedBelow(owner, r, q, level, i)
    ensures Node(mem, r, q) in Below(owner, r, q) && Node(mem, r, q) !in FreedBelow(owner, r, q, level, i)
  {
    OneOwner(mem, roots, owner, r, q, r, q);
    forall f | f in Below(owner, r, q + [i])
      ensures q <= owner[f].path && |owner[f].path| > |q| && owner[f].path[|q|] == i
    {
      assert q + [i] <= owner[f].path;
      assert (q + [i])[|q|] == i;
    }
  }

  /** A level-3 table gives back what its entry points to and nothing below that. */
  lemma FreedLeaf(mem: seq<Page>, roots: set<nat>, owner: map<nat, Place>, r: nat, q: Path)
    requires Forest(mem, roots, owner) && r in roots && IsPath(q, 4) && Node(mem, r, q) != 0
    ensures Freed(owner, r, q, 4) == {Node(mem, r, q)} && Node(mem, r, q) in Below(owner, r, q)
  {
    OneOwner(mem, roots, owner, r, q, r, q);
    forall f | f in Freed(owner, r, q, 4)
      ensures f == Node(mem, r, q)
    {
      assert owner[f].path == q;
    }
  }

  /** The entries together give back everything but the table itself. */
  lemma AllFreed(mem: seq<Page>, roots: set<nat>, owner: map<nat, Place>, r: nat, q: Path, level: nat)
    requires Forest(mem, roots, owner) && r in roots && IsPath(q, 3) && Node(mem, r, q) != 0 && level <= 3
    ensures Freed(owner, r, q, level)
         == FreedBelow(owner, r, q, level, ENTRIES) + (if level < 3 then {Node(mem, r, q)} else {})
    ensures FreedBelow(owner, r, q, level, 0) == {}
  {
    OneOwner(mem, roots, owner, r, q, r, q);
    forall f | f in Freed(owner, r, q, level) && |owner[f].path| <= |q|
      ensures f == Node(mem, r, q)
    {
      assert owner[f].path == q;
    }
    hide Forest, Node;
    forall f | f in Freed(owner, r, q, level) && |owner[f].path| > |q|
      ensures owner[f].path[|q|] < ENTRIES
    {
      PathThere(mem, roots, owner, f);
    }
  }

  lemma PathThere(mem: seq<Page>, roots: set<nat>, owner: map<nat, Place>, f: nat)
    requires Forest(mem, roots, owner) && f in owner
    ensures IsPath(owner[f].path, 4)
  {
  }

  lemma NothingFreed(mem: seq<Page>, roots: set<nat>, owner: map<nat, Place>, r: nat, q: Path, i: nat, level: nat)
    requires Forest(mem, roots, owner) && Node(mem, r, q + [i]) == 0
    ensures Freed(owner, r, q + [i], level) == {}
  {
    NothingBelow(mem, roots, owner, r, q, i);
    assert Freed(owner, r, q + [i], level) <= Below(owner, r, q + [i]);
  }

  lemma SameAfterNothing(m: seq<Page>, roots: set<nat>)
    ensures SameTranslation(m, m, roots)
  {
  }

  /** The frames of a retired tree are handed out, and in no tree. */
  lemma RetirePartition(low: nat, free: seq<nat>, owner: map<nat, Place>, other: set<nat>, r: nat)
    requires Partition(low, free, owner.Keys, other)
    ensures Partition(low, free, (owner - TreeOf(owner, r)).Keys, other + TreeOf(owner, r))
    ensures other !! TreeOf(owner, r)
  {
  }

  /** Which frames of a tree come back depends only on their depth: starting at level 1 the tables two indices down and
      the user pages never do. */
  lemma FreedOfTree(owner: map<nat, Place>, r: nat, level: nat)
    requires level <= 3
    ensures Freed(owner, r, [], level) == set f | f in TreeOf(owner, r) && FreedAt(level + |owner[f].path|)
  {
  }

  lemma LeakedFromLevelOne(mem: seq<Page>, roots: set<nat>, owner: map<nat, Place>, r: nat, p: Path)
    requires Forest(mem, roots, owner) && r in roots && IsPath(p, 4) && Node(mem, r, p) != 0
    ensures Node(mem, r, p) in Freed(owner, r, [], 1) <==> |p| !in {2, 4}
    ensures Node(mem, r, p) in Freed(owner, r, [], 0) <==> |p| != 3
  {
    OneOwner(mem, roots, owner, r, p, r, p);
  }

  // ---------- How many frames growing takes ----------

  /** In tree r tables have been added at the paths s, and no other table has come or gone anywhere. */
  ghost predicate TablesAdded(mem: seq<Page>, mem': seq<Page>, roots: set<nat>, r: nat, s: set<Path>)
  {
    forall r', q :: r' in roots && IsPath(q, 3) ==>
      (Node(mem', r', q) != 0 <==> Node(mem, r', q) != 0 || (r' == r && q in s))
  }

  lemma NoTables(mem: seq<Page>, mem': seq<Page>, roots: set<nat>, owner: map<nat, Place>, r: nat)
    requires Forest(mem, roots, owner) && SameTables(mem, mem', owner)
    ensures TablesAdded(mem, mem', roots, r, {})
  {
    hide Forest, SameTables, Node;
    forall r', q | r' in roots && IsPath(q, 3)
      ensures Node(mem', r', q) == Node(mem, r', q)
    {
      FrameNode(mem, mem', roots, owner, r', q);
    }
  }

  /** A new table counts; a page does not. */
  lemma OneTable(mem: seq<Page>, roots: set<nat>, owner: map<nat, Place>, r: nat, q: Path, i: nat, w: Word)
    requires CanAttach(mem, roots, owner, r, q, i, w) && Node(mem, r, q) < |mem|
    ensures TablesAdded(mem, SetEntry(mem, Node(mem, r, q), i, w), roots, r, if |q| < 3 then {q + [i]} else {})
  {
    AttachGap(mem, roots, owner, r, q, i, w);
    hide Forest, Node;
    forall r', x | r' in roots && IsPath(x, 3)
      ensures Node(SetEntry(mem, Node(mem, r, q), i, w), r', x)
           == if r' == r && x == q + [i] then w.page else Node(mem, r', x)
    {
      AttachNode(mem, roots, owner, r, q, i, w, r', x);
    }
  }

  lemma NothingAdded(mem: seq<Page>, roots: set<nat>, r: nat)
    ensures TablesAdded(mem, mem, roots, r, {})
  {
    hide Node;
  }

  lemma TablesTwice(m: seq<Page>, m': seq<Page>, m'': seq<Page>, roots: set<nat>, r: nat, s: set<Path>, t: set<Path>)
    requires TablesAdded(m, m', roots, r, s) && TablesAdded(m', m'', roots, r, t)
    ensures TablesAdded(m, m'', roots, r, s + t)
  {
    hide Node;
  }

  /** Of the first k tables on path p, those that tree r lacks. */
  ghost function LackTo(mem: seq<Page>, r: nat, p: Path, k: nat): set<Path>
    requires k <= |p|
  {
    if k == 0 then {} else LackTo(mem, r, p, k - 1) + (if Node(mem, r, p[..k]) == 0 then {p[..k]} else {})
  }

  /** The tables on path p that tree r lacks. */
  ghost function Lacking(mem: seq<Page>, r: nat, p: Path): set<Path>
    requires |p| == 4
  {
    LackTo(mem, r, p, 3)
  }

  /** The tables that tree r lacks for pages lo .. hi. */
  ghost function LackingFor(mem: seq<Page>, r: nat, lo: nat, hi: nat): set<Path>
  {
    if hi <= lo then {} else LackingFor(mem, r, lo, hi - 1) + Lacking(mem, r, PathOf((hi - 1) * PGSIZE))
  }

  /** The frames that it takes to give tree r pages lo .. hi: one for each page and one for each missing table. */
  ghost function Needed(mem: seq<Page>, r: nat, lo: nat, hi: nat): nat
    requires lo <= hi
  {
    hi - lo + |LackingFor(mem, r, lo, hi)|
  }

  lemma {:induction false} LackIn(mem: seq<Page>, r: nat, p: Path, k: nat, q: Path)
    requires k <= |p|
    ensures q in LackTo(mem, r, p, k) <==> 1 <= |q| <= k && q == p[..|q|] && Node(mem, r, q) == 0
    decreases k
  {
    hide Node;
    if k > 0 {
      LackIn(mem, r, p, k - 1, q);
    }
  }

  lemma LackNext(mem: seq<Page>, r: nat, p: Path, k: nat)
    requires 1 <= k <= |p|
    ensures |LackTo(mem, r, p, k)| == |LackTo(mem, r, p, k - 1)| + if Node(mem, r, p[..k]) == 0 then 1 else 0
    ensures p[..k] !in LackTo(mem, r, p, k - 1)
  {
    hide Node;
    LackIn(mem, r, p, k - 1, p[..k]);
  }

  /** From m0, with f0 free frames, walking down path p past k tables has led to m, with f free frames. */
  ghost predicate Walked(m0: seq<Page>, m: seq<Page>, roots: set<nat>, r: nat, p: Path, k: nat, f0: nat, f: nat)
    requires k <= |p|
  {
    TablesAdded(m0, m, roots, r, LackTo(m0, r, p, k)) && f + |LackTo(m0, r, p, k)| == f0
  }

  lemma WalkedNone(m: seq<Page>, roots: set<nat>, r: nat, p: Path, f: nat)
    ensures Walked(m, m, roots, r, p, 0, f, f)
  {
    hide Node;
  }

  lemma WalkedSame(m0: seq<Page>, m: seq<Page>, roots: set<nat>, r: nat, p: Path, k: nat, f0: nat, f: nat)
    requires k < 3 < |p| && IsPath(p, 4) && r in roots && Walked(m0, m, roots, r, p, k, f0, f)
    ensures Node(m, r, p[..k + 1]) == 0 <==> Node(m0, r, p[..k + 1]) == 0
  {
    hide Node, LackTo;
    var q := p[..k + 1];
    LackNext(m0, r, p, k + 1);
    PrefixIs(p, k + 1);
    assert q !in LackTo(m0, r, p, k);
  }

  lemma PrefixIs(p: Path, k: nat)
    requires IsPath(p, 4) && k <= |p| && k <= 3
    ensures IsPath(p[..k], 3)
  {
  }

  lemma WalkedStep(m0: seq<Page>, m: seq<Page>, m': seq<Page>, roots: set<nat>, r: nat, p: Path, k: nat, f0: nat,
                   f: nat, f': nat)
    requires k < 3 < |p| && IsPath(p, 4) && r in roots && Walked(m0, m, roots, r, p, k, f0, f)
    requires TablesAdded(m, m', roots, r, if Node(m, r, p[..k + 1]) == 0 then {p[..k + 1]} else {})
    requires f == f' + if Node(m, r, p[..k + 1]) == 0 then 1 else 0
    ensures Walked(m0, m', roots, r, p, k + 1, f0, f')
  {
    WalkedSame(m0, m, roots, r, p, k, f0, f);
    LackNext(m0, r, p, k + 1);
    var more: set<Path> := if Node(m, r, p[..k + 1]) == 0 then {p[..k + 1]} else {};
    TablesTwice(m0, m, m', roots, r, LackTo(m0, r, p, k), more);
    hide Node, TablesAdded;
  }

  /** A walk that gets stuck lacked more tables than there were free frames. */
  lemma WalkedShort(m0: seq<Page>, m: seq<Page>, roots: set<nat>, r: nat, p: Path, k: nat, f0: nat)
    requires k < 3 < |p| && IsPath(p, 4) && r in roots && Walked(m0, m, roots, r, p, k, f0, 0)
    requires Node(m, r, p[..k + 1]) == 0
    ensures f0 < |LackTo(m0, r, p, 3)|
  {
    WalkedSame(m0, m, roots, r, p, k, f0, 0);
    hide Node, TablesAdded;
    LackNext(m0, r, p, k + 1);
    LackMore(m0, r, p, k + 1, 3);
  }

  lemma {:induction false} LackMore(mem: seq<Page>, r: nat, p: Path, k: nat, n: nat)
    requires k <= n <= |p|
    ensures |LackTo(mem, r, p, k)| <= |LackTo(mem, r, p, n)|
    decreases n
  {
    hide Node;
    if k < n {
      LackMore(mem, r, p, k, n - 1);
      LackNext(mem, r, p, n);
    }
  }

  /** Tables that have been added are no longer lacking. */
  lemma LackingAfter(m: seq<Page>, m': seq<Page>, roots: set<nat>, r: nat, s: set<Path>, p: Path)
    requires TablesAdded(m, m', roots, r, s) && r in roots && IsPath(p, 4) && |p| == 4
    ensures Lacking(m', r, p) == Lacking(m, r, p) - s
  {
    forall q
      ensures q in Lacking(m', r, p) <==> q in Lacking(m, r, p) && q !in s
    {
      LackIn(m, r, p, 3, q);
      LackIn(m', r, p, 3, q);
      assert |q| <= 3 && q == p[..|q|] ==> IsPath(q, 3);
      hide Node, LackTo;
    }
  }

  /** From m0 with f0 free frames, pages lo .. k and the tables for them have been taken, which leaves f. */
  ghost predicate Taken(m0: seq<Page>, m: seq<Page>, roots: set<nat>, r: nat, lo: nat, k: nat, f0: nat, f: nat)
    requires lo <= k
  {
    TablesAdded(m0, m, roots, r, LackingFor(m0, r, lo, k)) && f + Needed(m0, r, lo, k) == f0
  }

  lemma TakenNone(m: seq<Page>, roots: set<nat>, r: nat, lo: nat, f: nat)
    ensures Taken(m, m, roots, r, lo, lo, f, f)
  {
    hide Node;
  }

  /** What page k needs beyond its predecessors is what the tree still lacks when it is their turn. */
  lemma NeededNext(m0: seq<Page>, m: seq<Page>, roots: set<nat>, r: nat, lo: nat, k: nat, f0: nat, f: nat)
    requires lo <= k && r in roots && Taken(m0, m, roots, r, lo, k, f0, f)
    ensures Needed(m0, r, lo, k + 1) == Needed(m0, r, lo, k) + 1 + |Lacking(m, r, PathOf(k * PGSIZE))|
    ensures LackingFor(m0, r, lo, k + 1) == LackingFor(m0, r, lo, k) + Lacking(m, r, PathOf(k * PGSIZE))
  {
    var p := PathOf(k * PGSIZE);
    LackingAfter(m0, m, roots, r, LackingFor(m0, r, lo, k), p);
    hide Node, PathOf, Lacking, TablesAdded;
    var s, t := LackingFor(m0, r, lo, k), Lacking(m, r, p);
    assert s + Lacking(m0, r, p) == s + t && s !! t;
  }

  lemma TakenStep(m0: seq<Page>, m: seq<Page>, m': seq<Page>, roots: set<nat>, r: nat, lo: nat, k: nat, f0: nat,
                  f: nat, f': nat)
    requires lo <= k && r in roots && Taken(m0, m, roots, r, lo, k, f0, f)
    requires TablesAdded(m, m', roots, r, Lacking(m, r, PathOf(k * PGSIZE)))
    requires f == f' + 1 + |Lacking(m, r, PathOf(k * PGSIZE))|
    ensures Taken(m0, m', roots, r, lo, k + 1, f0, f')
  {
    NeededNext(m0, m, roots, r, lo, k, f0, f);
    hide Node, PathOf, Lacking, TablesAdded;
    TablesTwice(m0, m, m', roots, r, LackingFor(m0, r, lo, k), Lacking(m, r, PathOf(k * PGSIZE)));
  }

  /** What no tree at all lacks, root 0 standing for that, is what an empty one does. */
  lemma {:induction false} EmptyLacks(m: seq<Page>, d: nat, m': seq<Page>, n: nat)
    requires NoTablesBelow(m, d)
    ensures LackingFor(m, d, 0, n) == LackingFor(m', 0, 0, n)
    decreases n
  {
    hide Node, PathOf, LackTo, NoTablesBelow;
    if n > 0 {
      EmptyLacks(m, d, m', n - 1);
      var p := PathOf((n - 1) * PGSIZE);
      forall q
        ensures q in Lacking(m, d, p) <==> q in Lacking(m', 0, p)
      {
        LackIn(m, d, p, 3, q);
        LackIn(m', 0, p, 3, q);
        if 1 <= |q| <= 3 && q == p[..|q|] {
          PrefixIs(p, |q|);
          NoTree(m', q);
          assert Node(m, d, q) == 0 by {
            EmptyTree(m, d, q);
          }
        }
      }
    }
  }

  lemma EmptyTree(m: seq<Page>, d: nat, q: Path)
    requires NoTablesBelow(m, d) && IsPath(q, 3) && q != []
    ensures Node(m, d, q) == 0
  {
    hide Node;
  }

  lemma {:induction false} NoTree(m: seq<Page>, q: Path)
    ensures Node(m, 0, q) == 0
    decreases |q|
  {
    if q != [] {
      NoTree(m, q[..|q|-1]);
    }
  }

  /** f free frames are used up before kalloc is called for the last of pages lo .. hi. */
  ghost predicate RunsOut(m: seq<Page>, r: nat, lo: nat, hi: nat, f: nat)
  {
    lo < hi && f <= Needed(m, r, lo, hi - 1)
  }

  ghost predicate Suffices(m: seq<Page>, r: nat, lo: nat, hi: nat, f: nat)
  {
    lo <= hi && Needed(m, r, lo, hi) <= f
  }

  /** More pages need more frames. */
  lemma {:induction false} NeededMore(m: seq<Page>, r: nat, lo: nat, k: nat, n: nat)
    requires lo <= k <= n
    ensures Needed(m, r, lo, k) + (n - k) <= Needed(m, r, lo, n)
    decreases n
  {
    hide Node, PathOf, Lacking;
    if k < n {
      NeededMore(m, r, lo, k, n - 1);
      SubsetSize(LackingFor(m, r, lo, n - 1), LackingFor(m, r, lo, n));
    }
  }

  /** At most three tables to a page. */
  lemma {:induction false} NeededBound(m: seq<Page>, r: nat, lo: nat, n: nat)
    requires lo <= n
    ensures n - lo <= Needed(m, r, lo, n) <= 4 * (n - lo)
    decreases n
  {
    hide Node, PathOf, Lacking;
    if lo < n {
      NeededBound(m, r, lo, n - 1);
      var p := PathOf((n - 1) * PGSIZE);
      LackingBound(m, r, p);
      UnionSize(LackingFor(m, r, lo, n - 1), Lacking(m, r, p));
    }
  }

  lemma LackingBound(m: seq<Page>, r: nat, p: Path)
    requires |p| == 4
    ensures |Lacking(m, r, p)| <= 3
  {
    LackNext(m, r, p, 1);
    LackNext(m, r, p, 2);
    LackNext(m, r, p, 3);
    hide Node;
  }

  lemma UnionSize<T>(a: set<T>, b: set<T>)
    ensures |a + b| <= |a| + |b|
  {
    assert a + b == a + (b - a);
    SubsetSize(b - a, b);
  }

  class Vm {
    var mem: seq<Page>
    var freeList: nat
    const low: nat
    ghost var free: seq<nat>
    ghost var roots: set<nat>
    ghost var owner: map<nat, Place>
    ghost var other: set<nat>

    ghost predicate Valid()
      reads this
    {
      Chain(mem, freeList, free) && Forest(mem, roots, owner) && Partition(low, free, owner.Keys, other)
    }

    /** alloc_init: every frame from the end of the kernel on is free. */
    constructor (low: nat, contents: seq<Page>)
      requires 0 < low <= NFRAMES && |contents| == NFRAMES
      ensures Valid() && this.low == low && roots == {} && owner == map[] && other == {}
      ensures forall f :: f in free <==> low <= f < NFRAMES
    {
      this.low := low;
      mem, freeList := contents, 0;
      free, roots, owner, other := [], {}, map[], {};
      new;
      FreeRange();
    }

    /** free_range. */
    method FreeRange()
      requires 0 < low <= NFRAMES && |mem| == NFRAMES && freeList == 0 && free == []
      modifies this`mem, this`freeList, this`free
      ensures Chain(mem, freeList, free) && |mem| == NFRAMES
      ensures (forall f :: f in free <==> low <= f < NFRAMES) && forall i, j :: 0 <= i < j < |free| ==>
          free[i] != free[j]
    {
      hide Chain;
      EmptyChain(mem);
      var f := low;
      while f < NFRAMES
        invariant low <= f <= NFRAMES && |mem| == NFRAMES && Chain(mem, freeList, free)
        invariant forall x :: x in free <==> low <= x < f
        invariant forall i, j :: 0 <= i < j < |free| ==> free[i] != free[j]
      {
        Kfree(f);
        f := f + 1;
      }
    }

    static lemma EmptyChain(mem: seq<Page>)
      ensures Chain(mem, 0, [])
    {
    }

    /** kalloc: the first free page, zeroed; 0 when there is none. */
    method Kalloc() returns (f: nat)
      requires Valid()
      modifies this
      ensures Valid() && roots == old(roots) && owner == old(owner)
      ensures old(free) == [] ==> f == 0 && mem == old(mem) && free == [] && other == old(other)
      ensures old(free) != [] ==>
        && f == old(free)[0] && free == old(free)[1..] && other == old(other) + {f}
        && 0 < f < NFRAMES && f !in owner && f !in old(other)
        && |mem| == |old(mem)| == NFRAMES && mem == old(mem)[f := ZeroPage()] && mem[f] == ZeroPage()
      ensures OnlyTables(old(mem), mem, roots, owner, owner, old(other))
    {
      f := freeList;
      if f != 0 {
        ghost var mem0, free0 := mem, free;
        assert free0[0] == f;
        assert Chain(mem, FrameOf(mem[f][0]), free[1..]);
        assert f in free0;
        freeList := FrameOf(mem[f][0]);
        mem := mem[f := ZeroPage()];
        free := free[1..];
        other := other + {f};
        ChainFrame(mem0, mem, freeList, free);
        assert forall x :: x in free0 <==> x == f || x in free;
        FrameForest(mem0, mem, roots, owner);
      }
    }

    /** kfree: junk the page and push it on the free list. Only the list is known to be well-formed afterwards;
        the caller accounts for where the frame was before. */
    method Kfree(f: nat)
      requires Chain(mem, freeList, free) && low <= f < NFRAMES && 0 < f && f !in free && |mem| == NFRAMES
      modifies this`mem, this`freeList, this`free
      ensures Chain(mem, freeList, free) && free == [f] + old(free)
      ensures mem == old(mem)[f := FreedPage(old(freeList))]
    {
      ghost var mem0 := mem;
      mem := mem[f := FreedPage(freeList)];
      ChainFrame(mem0, mem, freeList, free);
      assert FrameOf(mem[f][0]) == freeList;
      free := [f] + free;
      freeList := f;
      assert free[1..] == old(free);
    }

    /** One level of pgdir_walk: the table below entry i of table t, allocated if it is missing and alloc is set. */
    method WalkLevel(t: nat, i: nat, alloc: bool, ghost r: nat, ghost q: Path) returns (next: nat)
      requires Valid() && r in roots && IsPath(q, 2) && i < ENTRIES && t != 0 && Node(mem, r, q) == t
      modifies this
      ensures Valid() && roots == old(roots) && other == old(other)
      ensures OnlyTables(old(mem), mem, roots, old(owner), owner, other)
      ensures next == Node(mem, r, q + [i])
      ensures next == 0 ==> free == old(free) && mem == old(mem) && owner == old(owner)
      ensures next == 0 <==> old(Node(mem, r, q + [i])) == 0 && (!alloc || old(free) == [])
      ensures !alloc ==> mem == old(mem) && free == old(free) && owner == old(owner)
      ensures |free| <= |old(free)|
      ensures next != 0 ==> |old(free)| == |free| + if old(Node(mem, r, q + [i])) == 0 then 1 else 0
      ensures next != 0 ==>
          TablesAdded(old(mem), mem, roots, r, if old(Node(mem, r, q + [i])) == 0 then {q + [i]} else {})
    {
      hide Forest, Chain, SameTranslation, SameContents, Keeps, Partition, TablesAdded, Node, Present;
      LevelEntry(mem, roots, owner, t, i, r, q);
      NothingAdded(mem, roots, r);
      if Present(mem[t][i]) {
        SameIsOnlyTables(mem, roots, owner, other);
        next := mem[t][i].page;
      } else if alloc {
        next := NewTable(t, i, r, q);
      } else {
        SameIsOnlyTables(mem, roots, owner, other);
        next := 0;
      }
    }

    static lemma LevelEntry(mem: seq<Page>, roots: set<nat>, owner: map<nat, Place>, t: nat, i: nat, r: nat, q: Path)
      requires Forest(mem, roots, owner) && r in roots && IsPath(q, 2) && i < ENTRIES && t != 0 && Node(mem, r, q) == t
      ensures t < |mem| && Node(mem, r, q + [i]) == if Present(mem[t][i]) then mem[t][i].page else 0
      ensures Present(mem[t][i]) ==> mem[t][i].page != 0
    {
      OneOwner(mem, roots, owner, r, q, r, q);
      assert (q + [i])[..|q|] == q;
    }

    /** pgdir_walk's branch for a missing table: kalloc, and on success hang the page below the entry. */
    method NewTable(t: nat, i: nat, ghost r: nat, ghost q: Path) returns (p: nat)
      requires Valid() && r in roots && IsPath(q, 2) && i < ENTRIES && t != 0 && Node(mem, r, q) == t
      requires t < |mem| && !Present(mem[t][i]) && Node(mem, r, q + [i]) == 0
      modifies this
      ensures Valid() && roots == old(roots) && other == old(other)
      ensures OnlyTables(old(mem), mem, roots, old(owner), owner, other)
      ensures p == Node(mem, r, q + [i]) && (p == 0 <==> old(free) == [])
      ensures p == 0 ==> free == old(free) && mem == old(mem) && owner == old(owner)
      ensures |free| <= |old(free)|
      ensures p != 0 ==> |old(free)| == |free| + 1 && TablesAdded(old(mem), mem, roots, r, {q + [i]})
    {
      hide Forest, Chain, SameTranslation, SameContents, Keeps, Partition, TablesAdded;
      ghost var mem0 := mem;
      p := Kalloc();
      if p != 0 {
        AfterKalloc(mem0, mem, r, q, i, p);
        ghost var mem1, owner1 := mem, owner;
        AddTable(t, i, p, r, q);
        TablesTwice(mem0, mem1, mem, roots, r, {}, {q + [i]});
        assert {} + {q + [i]} == {q + [i]};
        OnlyTablesTransitive(mem0, mem1, mem, roots, owner1, owner1, owner, other);
        assert other == old(other);
      }
    }

    /** The tables are as before kalloc, so the zeroed frame can be attached where an entry was missing. */
    lemma AfterKalloc(mem0: seq<Page>, mem1: seq<Page>, r: nat, q: Path, i: nat, p: nat)
      requires Forest(mem0, roots, owner) && r in roots && IsPath(q, 2) && Node(mem0, r, q) != 0 && i < ENTRIES
      requires Node(mem0, r, q + [i]) == 0
      requires 0 < p < NFRAMES && p !in owner && mem1 == mem0[p := ZeroPage()]
      ensures Node(mem1, r, q) == Node(mem0, r, q)
      ensures CanAttach(mem1, roots, owner, r, q, i, Word(p, {P, TABLE}))
      ensures TablesAdded(mem0, mem1, roots, r, {})
    {
      TablesLeft(mem0, mem1, roots, owner, p);
      hide TablesAdded, Forest, Node, Present, SameTables;
      NoTables(mem0, mem1, roots, owner, r);
      FrameNode(mem0, mem1, roots, owner, r, q);
      FrameNode(mem0, mem1, roots, owner, r, q + [i]);
      FrameForest(mem0, mem1, roots, owner);
      LevelEntry(mem1, roots, owner, Node(mem1, r, q), i, r, q);
      TableBits(p);
    }

    static lemma TablesLeft(mem0: seq<Page>, mem1: seq<Page>, roots: set<nat>, owner: map<nat, Place>, p: nat)
      requires Forest(mem0, roots, owner) && p < NFRAMES && p !in owner && mem1 == mem0[p := ZeroPage()]
      ensures SameTables(mem0, mem1, owner) && |mem0| == |mem1| == NFRAMES && mem1[p] == ZeroPage()
    {
    }

    static lemma TableBits(p: nat)
      ensures Present(Word(p, {P, TABLE}))
    {
    }

    /** *pt = V2P(p) | PTE_TABLE | PTE_P, for a zeroed page p. */
    method AddTable(t: nat, i: nat, p: nat, ghost r: nat, ghost q: Path)
      requires Valid() && CanAttach(mem, roots, owner, r, q, i, Word(p, {P, TABLE})) && |q| < 3 && Node(mem, r, q) == t
      requires p in other
      modifies this`mem, this`owner, this`other
      ensures Valid() && other == old(other) - {p} && Keeps(old(owner), owner)
      ensures Node(mem, r, q + [i]) == p
      ensures SameTranslation(old(mem), mem, roots)
      ensures SameContents(old(mem), mem, old(owner), other)
      ensures TablesAdded(old(mem), mem, roots, r, {q + [i]})
    {
      hide Forest, Chain, SameTranslation, SameContents, Keeps, Partition, TablesAdded;
      ghost var mem0 := mem;
      var w := Word(p, {P, TABLE});
      AttachList(mem, freeList, free, low, roots, owner, r, q, i, w, other);
      OneTable(mem, roots, owner, r, q, i, w);
      AttachSame(mem, roots, owner, r, q, i, w, other - {p});
      AttachForest(mem, roots, owner, r, q, i, w);
      mem := SetEntry(mem, t, i, w);
      owner := owner[p := Place(r, q + [i])];
      other := other - {p};
    }

    /** pgdir_walk: the table holding the last-level entry of va, and the entry's index there. */
    method PgdirWalk(r: nat, va: nat, alloc: bool) returns (ok: bool, t: nat, i: nat)
      requires Valid() && r in roots && va < 0x1_0000_0000_0000_0000
      modifies this
      ensures Valid() && roots == old(roots) && other == old(other)
      ensures OnlyTables(old(mem), mem, roots, old(owner), owner, other)
      ensures !alloc ==> mem == old(mem) && free == old(free) && owner == old(owner)
      ensures ok ==> t == Node(mem, r, PathOf(va)[..3]) && 0 < t < |mem| && i == PathOf(va)[3]
      ensures !ok ==>
          va / 0x1_0000_0000_0000 !in {0, 0xFFFF} || (if alloc then free == [] else Node(mem, r, PathOf(va)[..3]) == 0)
      ensures ok ==> va / 0x1_0000_0000_0000 in {0, 0xFFFF}
      ensures va / 0x1_0000_0000_0000 in {0, 0xFFFF} && alloc ==>
        (ok <==> |old(Lacking(mem, r, PathOf(va)))| <= |old(free)|)
      ensures ok ==> |old(free)| == |free| + |old(Lacking(mem, r, PathOf(va)))|
      ensures ok ==> TablesAdded(old(mem), mem, roots, r, old(Lacking(mem, r, PathOf(va))))
    {
      hide Forest, Chain, OnlyTables, Partition, Node, LackTo, TablesAdded, Walked;
      ghost var free0 := |free|;
      WalkedNone(mem, roots, r, PathOf(va), free0);
      ghost var p, mem0, owner0 := PathOf(va), mem, owner;
      t, i := 0, va / 0x1000 % 512;
      RootNode(r);
      SameIsOnlyTables(mem, roots, owner, other);
      var sign := va / 0x1_0000_0000_0000;
      if sign != 0 && sign != 0xFFFF {
        return false, t, i;
      }
      assert p[..0] == [] && [] + [p[0]] == p[..1] && p[..1] + [p[1]] == p[..2] && p[..2] + [p[2]] == p[..3];
      var t1 := WalkLevel(r, va / 0x80_0000_0000 % 512, alloc, r, []);
      if t1 == 0 {
        WalkedStuck(mem0, mem, roots, r, p, 0, free0, |free|);
        MissingBelow(mem, r, p, 1);
        return false, t, i;
      }
      WalkedStep(mem0, mem0, mem, roots, r, p, 0, free0, free0, |free|);
      ghost var mem1, owner1, free1 := mem, owner, |free|;
      var t2 := WalkLevel(t1, va / 0x4000_0000 % 512, alloc, r, p[..1]);
      OnlyTablesTransitive(mem0, mem1, mem, roots, owner0, owner1, owner, other);
      if t2 == 0 {
        WalkedStuck(mem0, mem, roots, r, p, 1, free0, |free|);
        MissingBelow(mem, r, p, 2);
        return false, t, i;
      }
      WalkedStep(mem0, mem1, mem, roots, r, p, 1, free0, free1, |free|);
      ghost var mem2, owner2, free2 := mem, owner, |free|;
      t := WalkLevel(t2, va / 0x20_0000 % 512, alloc, r, p[..2]);
      OnlyTablesTransitive(mem0, mem2, mem, roots, owner0, owner2, owner, other);
      OneOwner(mem, roots, owner, r, p[..3], r, p[..3]);
      if t == 0 {
        WalkedStuck(mem0, mem, roots, r, p, 2, free0, |free|);
      } else {
        WalkedStep(mem0, mem2, mem, roots, r, p, 2, free0, free2, |free|);
        WalkedAll(mem0, mem, roots, r, p, free0, |free|);
      }
      return t != 0, t, i;
    }

    static lemma WalkedStuck(m0: seq<Page>, m: seq<Page>, roots: set<nat>, r: nat, p: Path, k: nat, f0: nat, f: nat)
      requires k < 3 < |p| == 4 && IsPath(p, 4) && r in roots && Walked(m0, m, roots, r, p, k, f0, f)
      requires Node(m, r, p[..k + 1]) == 0
      ensures f == 0 ==> f0 < |Lacking(m0, r, p)|
    {
      if f == 0 {
        WalkedShort(m0, m, roots, r, p, k, f0);
      }
    }

    static lemma WalkedAll(m0: seq<Page>, m: seq<Page>, roots: set<nat>, r: nat, p: Path, f0: nat, f: nat)
      requires |p| == 4 && Walked(m0, m, roots, r, p, 3, f0, f)
      ensures TablesAdded(m0, m, roots, r, Lacking(m0, r, p)) && f0 == f + |Lacking(m0, r, p)|
    {
    }

    lemma RootNode(r: nat)
      requires Valid() && r in roots
      ensures Node(mem, r, []) == r && r != 0
    {
    }

    /** map_region for a region within one page: walk with allocation, panic on an entry that is present,
        else set it to pa with the permissions. */
    method MapPage(r: nat, va: nat, pa: nat, perm: set<nat>) returns (res: MapResult)
      requires Valid() && r in roots && va < 0x1_0000_0000_0000_0000 && pa in other
      modifies this
      ensures Valid() && roots == old(roots)
      ensures res.Mapped? ==>
          other == old(other) - {pa} && Adds(old(mem), mem, roots, r, PathOf(va), Word(pa, perm + {P, TABLE, AF}))
      ensures !res.Mapped? ==> other == old(other) && SameTranslation(old(mem), mem, roots)
      ensures res.AlreadyMapped? ==> Present(old(Entry(mem, r, PathOf(va))))
      ensures res.NoMemory? ==> free == [] || va / 0x1_0000_0000_0000 !in {0, 0xFFFF}
      ensures Keeps(old(owner), owner) && SameContents(old(mem), mem, old(owner), old(other))
      ensures va / 0x1_0000_0000_0000 in {0, 0xFFFF} ==>
        (res.NoMemory? <==> |old(free)| < |old(Lacking(mem, r, PathOf(va)))|)
      ensures !res.NoMemory? ==> |old(free)| == |free| + |old(Lacking(mem, r, PathOf(va)))|
      ensures !res.NoMemory? ==> TablesAdded(old(mem), mem, roots, r, old(Lacking(mem, r, PathOf(va))))
    {
      hide Forest, Chain, SameTranslation, SameContents, Keeps, Partition, Adds, Lacking, TablesAdded;
      ghost var p, mem0, owner0, other0 := PathOf(va), mem, owner, other;
      var ok, t, i := PgdirWalk(r, va, true);
      if !ok {
        return NoMemory;
      }
      if Present(mem[t][i]) {
        EntryBefore(mem0, mem, roots, r, p);
        return AlreadyMapped;
      }
      ghost var mem1, owner1 := mem, owner;
      SetLeaf(t, i, Word(pa, perm + {P, TABLE, AF}), r, p);
      MapCompose(mem0, mem1, mem, roots, owner0, owner1, owner, other0, r, p, Word(pa, perm + {P, TABLE, AF}));
      TablesTwice(mem0, mem1, mem, roots, r, Lacking(mem0, r, p), {});
      assert Lacking(mem0, r, p) + {} == Lacking(mem0, r, p);
      return Mapped;
    }

    lemma LeafAttach(t: nat, w: Word, r: nat, p: Path)
      requires Valid() && r in roots && IsPath(p, 4) && |p| == 4 && 0 < t < |mem| && t == Node(mem, r, p[..3])
      requires !Present(mem[t][p[3]]) && Present(w) && w.page in other
      ensures CanAttach(mem, roots, owner, r, p[..3], p[3], w) && p[..3] + [p[3]] == p
    {
    }

    /** *pte = w, for a frame that kalloc has handed out. */
    method SetLeaf(t: nat, i: nat, w: Word, ghost r: nat, ghost p: Path)
      requires Valid() && r in roots && IsPath(p, 4) && |p| == 4 && 0 < t < |mem| && t == Node(mem, r, p[..3])
             && i == p[3]
      requires !Present(mem[t][i]) && Present(w) && w.page in other
      modifies this`mem, this`owner, this`other
      ensures Valid() && other == old(other) - {w.page}
      ensures Adds(old(mem), mem, roots, r, p, w) && TablesAdded(old(mem), mem, roots, r, {})
      ensures Keeps(old(owner), owner) && SameContents(old(mem), mem, old(owner), old(other))
    {
      ghost var mem0 := mem;
      LeafAttach(t, w, r, p);
      hide Forest, Chain, SameTranslation, SameContents, Keeps, Partition, Adds, TablesAdded, CanAttach, Node, Present;
      OneTable(mem, roots, owner, r, p[..3], i, w);
      AttachList(mem, freeList, free, low, roots, owner, r, p[..3], i, w, other);
      AttachAdds(mem, roots, owner, r, p, w, other);
      AttachForest(mem, roots, owner, r, p[..3], i, w);
      mem := SetEntry(mem, t, i, w);
      owner := owner[w.page := Place(r, p)];
      other := other - {w.page};
    }

    static lemma EntryHere(m: seq<Page>, r: nat, p: Path)
      requires IsPath(p, 4) && |p| == 4 && 0 < Node(m, r, p[..3]) < |m|
      ensures Entry(m, r, p) == m[Node(m, r, p[..3])][p[3]]
    {
    }

    /** kfree(P2V(PTE_ADDR(*pte))); *pte = 0. */
    method FreeLeaf(t: nat, i: nat, ghost r: nat, ghost p: Path)
      requires Valid() && r in roots && IsPath(p, 4) && |p| == 4 && 0 < t < |mem| && t == Node(mem, r, p[..3])
             && i == p[3]
      requires Present(mem[t][i])
      modifies this
      ensures Valid() && roots == old(roots) && other == old(other)
      ensures Removes(old(mem), mem, roots, r, p) && Shrinks(old(mem), mem, old(owner), owner, other)
      ensures free == [old(Entry(mem, r, p)).page] + old(free)
    {
      hide Forest, Chain, Shrinks, Removes, Partition, Node, Entry, Present;
      ghost var mem0 := mem;
      var f := mem[t][i].page;
      EntryHere(mem, r, p);
      LeafFacts(mem, roots, owner, free, low, other, r, p);
      ghost var free0 := free;
      Kfree(f);
      ghost var mem1 := mem;
      LeafRemoved(mem0, mem1[f], roots, owner, r, p);
      LeafShrinks(mem0, mem1[f], mem1[t][i := ZeroWord], owner, other, f, t);
      ChainFrame(mem1, SetEntry(mem1, t, i, ZeroWord), freeList, free);
      mem := SetEntry(mem, t, i, ZeroWord);
      LeafPartition(low, free0, owner, other, f);
      owner := owner - {f};
    }

    /** deallocuvm's loop body at address a, and the address it goes on with. Where a table is missing it steps
        past the whole region and one page more, which skips nothing because the pages are contiguous from 0. */
    method DeallocPage(r: nat, a: nat, ghost mem0: seq<Page>, ghost owner0: map<nat, Place>, ghost lo: nat,
                       ghost k: nat)
      returns (next: nat)
      requires Valid() && r in roots && a < 0x1_0000_0000 && a % PGSIZE == 0 && lo <= a / PGSIZE
      requires Forest(mem0, roots, owner0) && Contiguous(mem0, r, k)
      requires Cleared(mem0, mem, roots, r, lo, a / PGSIZE) && Shrinks(mem0, mem, owner0, owner, other)
      modifies this
      ensures Valid() && roots == old(roots) && other == old(other)
      ensures a < next && next % PGSIZE == 0
      ensures Cleared(mem0, mem, roots, r, lo, next / PGSIZE) && Shrinks(mem0, mem, owner0, owner, other)
    {
      hide Forest, Chain, Shrinks, Removes, Partition, Cleared, Contiguous, OnlyTables, Node;
      NextPage(a);
      NextPage(RoundUpBlock(a));
      hide PathOf, RoundUpBlock;
      var ok, t, i := PgdirWalk(r, a, false);
      ClearedAt(mem0, mem, roots, r, lo, k, a);
      EntryTidy(mem, roots, owner, r, PathOf(a));
      next := a + PGSIZE;
      if !ok {
        next := RoundUpBlock(a) + PGSIZE;
        ClearedBeyond(mem0, mem, roots, owner0, r, lo, k, a / PGSIZE, next / PGSIZE);
      } else if P in mem[t][i].flags || TABLE in mem[t][i].flags {
        ghost var mem1, owner1 := mem, owner;
        FreeLeaf(t, i, r, PathOf(a));
        ClearedStep(mem0, mem1, mem, roots, r, lo, a);
        ShrinksTransitive(mem0, mem1, mem, owner0, owner1, owner, other);
      } else {
        ClearedBeyond(mem0, mem, roots, owner0, r, lo, k, a / PGSIZE, next / PGSIZE);
      }
    }

    /** deallocuvm: free the user pages from newsz up to oldsz. */
    method DeallocUvm(r: nat, oldsz: nat, newsz: nat, ghost k: nat) returns (res: nat)
      requires Valid() && r in roots && oldsz < 0x1_0000_0000 && Contiguous(mem, r, k) && k <= Pages(oldsz)
      modifies this
      ensures Valid() && roots == old(roots) && other == old(other)
      ensures res == if newsz >= oldsz then oldsz else newsz
      ensures newsz >= oldsz ==> mem == old(mem) && owner == old(owner) && free == old(free)
      ensures newsz < oldsz ==> Cleared(old(mem), mem, roots, r, Pages(newsz), Pages(oldsz))
      ensures newsz < oldsz ==> Shrinks(old(mem), mem, old(owner), owner, other)
    {
      if newsz >= oldsz {
        return oldsz;
      }
      hide Forest, Chain, Shrinks, Partition, Cleared, Contiguous, Node, Entry;
      ghost var mem0, owner0, lo := mem, owner, Pages(newsz);
      var a := (newsz + PGSIZE - 1) / PGSIZE * PGSIZE;
      NothingCleared(mem, roots, owner, other, r, lo);
      while a < oldsz
        invariant Valid() && roots == old(roots) && other == old(other)
        invariant a % PGSIZE == 0 && lo <= a / PGSIZE
        invariant Cleared(mem0, mem, roots, r, lo, a / PGSIZE) && Shrinks(mem0, mem, owner0, owner, other)
        decreases oldsz - a
      {
        a := DeallocPage(r, a, mem0, owner0, lo, k);
      }
      ClearedBeyond(mem0, mem, roots, owner0, r, lo, k, a / PGSIZE, Pages(oldsz));
      return newsz;
    }

    /** allocuvm's loop body: a zeroed page for address a. The result of map_region is ignored; when it has failed,
        the page handed out is lost and memory is exhausted. */
    method AllocPage(r: nat, a: nat, ghost mem0: seq<Page>, ghost owner0: map<nat, Place>, ghost other0: set<nat>,
                     ghost lo: nat, ghost top: nat)
      returns (page: nat, ghost mapped: bool)
      requires Valid() && r in roots && a < UADDR_SZ && lo <= top && other0 <= other
      requires top == a / PGSIZE || free == []
      requires Grown(mem0, mem, roots, owner0, owner, other0, r, lo, top) && Contiguous(mem, r, top)
      modifies this
      ensures Valid() && roots == old(roots) && (page == 0 <==> old(free) == [])
      ensures page == 0 ==> mem == old(mem) && owner == old(owner) && other == old(other) && free == [] && !mapped
      ensures mapped ==> Grown(mem0, mem, roots, owner0, owner, other0, r, lo, top + 1) && other == old(other)
      ensures !mapped ==> Grown(mem0, mem, roots, owner0, owner, other0, r, lo, top) && free == []
      ensures !mapped && page != 0 ==> other == old(other) + {page}
      ensures mapped <==> |old(Lacking(mem, r, PathOf(a)))| < |old(free)|
      ensures mapped ==> |old(free)| == |free| + 1 + |old(Lacking(mem, r, PathOf(a)))|
      ensures mapped ==> TablesAdded(old(mem), mem, roots, r, old(Lacking(mem, r, PathOf(a))))
    {
      hide Forest, Chain, Partition, Grown, Contiguous, SameContents, Keeps, SameTranslation, Adds, Node, Entry,
           TablesAdded, Lacking;
      ghost var mem1, owner1, other1 := mem, owner, other;
      page := Kalloc();
      mapped := false;
      if page != 0 {
        GrownSame(mem0, mem1, mem, roots, owner0, owner1, owner1, other0, other1, r, lo, top);
        ghost var mem2, other2 := mem, other;
        FreshFrame(mem0, mem1, mem, roots, owner0, owner, other0, r, lo, a, page);
        SameLacking(mem1, mem, roots, owner, r, PathOf(a), page);
        var res := MapPage(r, a, page, {USER});
        mapped := res.Mapped?;
        if mapped {
          TablesTwice(mem1, mem2, mem, roots, r, {}, Lacking(mem1, r, PathOf(a)));
          GrownStep(mem0, mem2, mem, roots, owner0, owner1, owner, other0, other2, r, lo, a, page);
        } else {
          GrownSame(mem0, mem2, mem, roots, owner0, owner1, owner, other0, other2, r, lo, top);
        }
      }
    }

    /** A frame outside the trees makes no difference to what they lack. */
    static lemma SameLacking(mem: seq<Page>, mem': seq<Page>, roots: set<nat>, owner: map<nat, Place>, r: nat, p: Path,
                             f: nat)
      requires Forest(mem, roots, owner) && f !in owner && f < |mem| == |mem'| && mem' == mem[f := mem'[f]]
      requires r in roots && IsPath(p, 4) && |p| == 4
      ensures TablesAdded(mem, mem', roots, r, {}) && Lacking(mem', r, p) == Lacking(mem, r, p)
      ensures {} + Lacking(mem, r, p) == Lacking(mem, r, p)
    {
      NoTables(mem, mem', roots, owner, r);
      LackingAfter(mem, mem', roots, r, {}, p);
    }

    lemma FreshFrame(mem0: seq<Page>, mem1: seq<Page>, mem2: seq<Page>, roots: set<nat>, owner0: map<nat, Place>,
                     owner1: map<nat, Place>, other0: set<nat>, r: nat, lo: nat, a: nat, f: nat)
      requires Grown(mem0, mem1, roots, owner0, owner1, other0, r, lo, a / PGSIZE) && Contiguous(mem1, r, a / PGSIZE)
      requires a < UADDR_SZ && r in roots && SameTranslation(mem1, mem2, roots)
      requires f !in owner1
      ensures f !in owner0 && !Present(Entry(mem2, r, PathOf(a)))
    {
      PathRoundTrip(a);
    }

    /** allocuvm's loop: pages from oldsz up to newsz, until memory runs out. */
    method AllocPages(r: nat, oldsz: nat, newsz: nat) returns (ok: bool, ghost top: nat, ghost lost: set<nat>)
      requires Valid() && r in roots && oldsz <= newsz < UADDR_SZ && Contiguous(mem, r, Pages(oldsz))
      modifies this
      ensures Valid() && roots == old(roots) && other == old(other) + lost
      ensures Grown(old(mem), mem, roots, old(owner), owner, old(other), r, Pages(oldsz), top)
      ensures Contiguous(mem, r, top) && Pages(oldsz) <= top <= Pages(newsz)
      ensures !ok ==> oldsz < newsz
      ensures ok ==> top == if lost == {} then Pages(newsz) else Pages(newsz) - 1
      ensures lost != {} || !ok ==> free == []
      ensures ok <==> !old(RunsOut(mem, r, Pages(oldsz), Pages(newsz), |free|))
      ensures ok ==> (lost == {} <==> old(Suffices(mem, r, Pages(oldsz), Pages(newsz), |free|)))
    {
      hide Forest, Chain, Partition, Grown, Contiguous, SameContents, Keeps, SameTranslation, Node, Entry, Needed,
           Taken, Lacking, TablesAdded, PathOf;
      ghost var mem0, owner0, other0, lo, free0 := mem, owner, other, Pages(oldsz), |free|;
      TakenNone(mem, roots, r, lo, free0);
      var a := (oldsz + PGSIZE - 1) / PGSIZE * PGSIZE;
      NothingGrown(mem, roots, owner, other, r, lo);
      lost, top := {}, lo;
      while a < newsz
        invariant Valid() && roots == old(roots) && other == other0 + lost
        invariant a % PGSIZE == 0 && lo <= top <= a / PGSIZE <= Pages(newsz)
        invariant Grown(mem0, mem, roots, owner0, owner, other0, r, lo, top) && Contiguous(mem, r, top)
        invariant if lost == {} then top == a / PGSIZE else top == a / PGSIZE - 1 && free == []
        invariant lost == {} ==> Taken(mem0, mem, roots, r, lo, top, free0, |free|)
        invariant lost != {} ==> Needed(mem0, r, lo, top) < free0 < Needed(mem0, r, lo, top + 1)
        decreases newsz - a
      {
        var page;
        ghost var mapped, mem1, free1, none := false, mem, |free|, lost == {};
        NextIs(mem0, mem, roots, r, lo, a, top, free0, |free|, none);
        page, mapped := AllocPage(r, a, mem0, owner0, other0, lo, top);
        if page == 0 {
          RanOut(mem0, mem1, roots, r, lo, a, newsz, top, free0, none);
          return false, top, lost;
        }
        if mapped {
          TakenStep(mem0, mem1, mem, roots, r, lo, top, free0, free1, |free|);
          top := top + 1;
        } else {
          lost := {page};
        }
        GrownContiguous(mem0, mem, roots, owner0, owner, other0, r, lo, top);
        a := a + PGSIZE;
      }
      if lost == {} {
        TakenAll(mem0, mem, roots, r, lo, top, free0, |free|);
      }
      Lasted(mem0, r, lo, newsz, top, free0, lost == {});
      return true, top, lost;
    }

    static lemma NextIs(m0: seq<Page>, m: seq<Page>, roots: set<nat>, r: nat, lo: nat, a: nat, top: nat, f0: nat,
                        f: nat, none: bool)
      requires lo <= top && a % PGSIZE == 0 && r in roots
      requires none ==> top == a / PGSIZE && Taken(m0, m, roots, r, lo, top, f0, f)
      ensures none ==> top * PGSIZE == a && Needed(m0, r, lo, top) + f == f0
      ensures none ==> Needed(m0, r, lo, top + 1) == Needed(m0, r, lo, top) + 1 + |Lacking(m, r, PathOf(a))|
    {
      hide PathOf, Lacking, Needed;
      if none {
        assert top * PGSIZE == a;
        NeededNext(m0, m, roots, r, lo, top, f0, f);
        TakenAll(m0, m, roots, r, lo, top, f0, f);
      }
    }

    static lemma TakenAll(m0: seq<Page>, m: seq<Page>, roots: set<nat>, r: nat, lo: nat, k: nat, f0: nat, f: nat)
      requires lo <= k && Taken(m0, m, roots, r, lo, k, f0, f)
      ensures f + Needed(m0, r, lo, k) == f0
    {
    }

    /** No page is left for address a, so the frames there were do not even suffice up to the last page. */
    static lemma RanOut(m0: seq<Page>, m: seq<Page>, roots: set<nat>, r: nat, lo: nat, a: nat, newsz: nat, top: nat,
                        f0: nat, none: bool)
      requires lo <= top && a % PGSIZE == 0 && a < newsz && r in roots
      requires if none then top == a / PGSIZE && Taken(m0, m, roots, r, lo, top, f0, 0)
               else top + 1 == a / PGSIZE && f0 < Needed(m0, r, lo, top + 1)
      ensures RunsOut(m0, r, lo, Pages(newsz), f0)
    {
      hide Needed;
      if none {
        TakenAll(m0, m, roots, r, lo, top, f0, 0);
      }
      assert a / PGSIZE < Pages(newsz);
      NeededMore(m0, r, lo, a / PGSIZE, Pages(newsz) - 1);
    }

    static lemma Lasted(m0: seq<Page>, r: nat, lo: nat, newsz: nat, top: nat, f0: nat, all: bool)
      requires lo <= top
      requires if all then top == Pages(newsz) && Needed(m0, r, lo, top) <= f0
               else top + 1 == Pages(newsz) && Needed(m0, r, lo, top) < f0 < Needed(m0, r, lo, top + 1)
      ensures !RunsOut(m0, r, lo, Pages(newsz), f0) && (all <==> Suffices(m0, r, lo, Pages(newsz), f0))
    {
      hide Needed;
      if all && lo < top {
        NeededMore(m0, r, lo, top - 1, top);
      }
    }

    /** allocuvm. It gives back oldsz when asked to shrink and 0 when the size is too large or memory runs out; then
        no translation has changed. Otherwise it returns newsz and the pages up to newsz are mapped, except that when
        the table for the very last page could not be allocated that page is missing and the caller is not told. Which
        of the three it comes to depends on the number of free frames alone. */
    method AllocUvm(r: nat, oldsz: nat, newsz: nat) returns (res: nat, ghost lost: set<nat>)
      requires Valid() && r in roots && oldsz < 0x1_0000_0000 && newsz < 0x1_0000_0000
      requires Contiguous(mem, r, Pages(oldsz))
      modifies this
      ensures Valid() && roots == old(roots) && other == old(other) + lost
      ensures newsz >= UADDR_SZ ==> res == 0 && lost == {} && mem == old(mem) && owner == old(owner)
      ensures newsz < UADDR_SZ && newsz < oldsz ==> res == oldsz && lost == {} && mem == old(mem) && owner == old(owner)
      ensures oldsz <= newsz < UADDR_SZ ==> res in {0, newsz}
      ensures res == 0 ==> SameTranslation(old(mem), mem, roots)
      ensures oldsz <= newsz < UADDR_SZ && res == newsz > 0 ==>
        var top := if lost == {} then Pages(newsz) else Pages(newsz) - 1;
        Grown(old(mem), mem, roots, old(owner), owner, old(other), r, Pages(oldsz), top) && Contiguous(mem, r, top)
      ensures lost != {} && res != 0 ==> free == [] && Pages(oldsz) < Pages(newsz)
      ensures oldsz <= newsz < UADDR_SZ && Pages(oldsz) == Pages(newsz) ==> res == newsz && lost == {}
      ensures oldsz <= newsz < UADDR_SZ && Pages(oldsz) < Pages(newsz) ==>
        && (res == 0 <==> |old(free)| <= old(Needed(mem, r, Pages(oldsz), Pages(newsz) - 1)))
        && (res == newsz && lost == {} <==> old(Needed(mem, r, Pages(oldsz), Pages(newsz))) <= |old(free)|)
    {
      lost := {};
      SameIsOnlyTables(mem, roots, owner, other);
      if newsz >= UADDR_SZ {
        return 0, {};
      }
      if newsz < oldsz {
        return oldsz, {};
      }
      hide Valid, Contiguous, SameTranslation, Grown, Needed, Pages, LackingFor, RunsOut, Suffices;
      PagesOrdered(oldsz, newsz);
      FrameCounts(mem, r, Pages(oldsz), Pages(newsz), |free|);
      res, lost := Grow(r, oldsz, newsz);
    }

    static lemma FrameCounts(m: seq<Page>, r: nat, lo: nat, hi: nat, f: nat)
      requires lo <= hi
      ensures lo == hi ==> !RunsOut(m, r, lo, hi, f) && Suffices(m, r, lo, hi, f)
      ensures lo < hi ==>
        && (RunsOut(m, r, lo, hi, f) <==> f <= Needed(m, r, lo, hi - 1))
        && (Suffices(m, r, lo, hi, f) <==> Needed(m, r, lo, hi) <= f)
        && Needed(m, r, lo, hi - 1) < Needed(m, r, lo, hi)
    {
      hide PathOf, Lacking, Node;
      if lo < hi {
        NeededMore(m, r, lo, hi - 1, hi);
      }
    }

    /** allocuvm for a size that is not refused: its loop, and the rolling back when that fails. */
    method Grow(r: nat, oldsz: nat, newsz: nat) returns (res: nat, ghost lost: set<nat>)
      requires Valid() && r in roots && oldsz <= newsz < UADDR_SZ && Contiguous(mem, r, Pages(oldsz))
      modifies this
      ensures Valid() && roots == old(roots) && other == old(other) + lost && res in {0, newsz}
      ensures res == 0 ==> SameTranslation(old(mem), mem, roots)
      ensures res == newsz > 0 ==>
        var top := if lost == {} then Pages(newsz) else Pages(newsz) - 1;
        Grown(old(mem), mem, roots, old(owner), owner, old(other), r, Pages(oldsz), top) && Contiguous(mem, r, top)
      ensures lost != {} && res != 0 ==> free == [] && Pages(oldsz) < Pages(newsz)
      ensures newsz > 0 ==> (res == 0 <==> old(RunsOut(mem, r, Pages(oldsz), Pages(newsz), |free|)))
      ensures res != 0 || newsz == 0 ==> (lost == {} <==> old(Suffices(mem, r, Pages(oldsz), Pages(newsz), |free|)))
    {
      PagesOrdered(oldsz, newsz);
      hide Forest, Chain, Partition, Grown, Contiguous, SameContents, Keeps, SameTranslation, Shrinks, Cleared, Node,
           Entry, RunsOut, Suffices, Pages;
      ghost var mem0, owner0, other0 := mem, owner, other;
      var ok;
      ghost var top;
      ok, top, lost := AllocPages(r, oldsz, newsz);
      if !ok {
        ghost var mem1, owner1 := mem, owner;
        var back := DeallocUvm(r, newsz, oldsz, top);
        GrownThenCleared(mem0, mem1, mem, roots, owner0, owner1, other0, r, Pages(oldsz), top, Pages(newsz));
        return 0, lost;
      }
      if newsz == 0 {
        NothingNew(mem0, mem, roots, owner0, owner, other0, r);
      }
      return newsz, lost;
    }

    static lemma PagesOrdered(oldsz: nat, newsz: nat)
      requires oldsz <= newsz
      ensures Pages(oldsz) <= Pages(newsz) && Pages(0) == 0
    {
    }

    /** pgdir_init: a new, empty page table; 0 stands for the panic when there is no memory. */
    method PgdirInit() returns (d: nat)
      requires Valid()
      modifies this
      ensures Valid() && other == old(other) && (d == 0 <==> old(free) == [])
      ensures d == 0 ==> roots == old(roots) && mem == old(mem) && owner == old(owner) && free == []
      ensures d != 0 ==> d !in old(roots) && roots == old(roots) + {d}
      ensures d != 0 ==> forall p :: IsPath(p, 4) && |p| == 4 ==> Entry(mem, d, p) == ZeroWord
      ensures d != 0 ==> NoTablesBelow(mem, d) && |old(free)| == |free| + 1
      ensures OnlyTables(old(mem), mem, old(roots), old(owner), owner, old(other))
    {
      hide Forest, Chain, Partition, SameTranslation, SameContents, Entry, Node, NoTablesBelow;
      d := Kalloc();
      if d != 0 {
        NewRoot(mem, roots, owner, d);
        NewRootPartition(low, free, owner, old(other), d);
        owner := owner[d := Place(d, [])];
        roots := roots + {d};
        other := other - {d};
        assert other == old(other);
      }
    }

    /** memmove(mem, P2V(pa), PGSIZE) into a frame that kalloc has handed out. */
    method CopyPage(f: nat, pa: nat)
      requires Valid() && f in other && pa < |mem|
      modifies this`mem
      ensures Valid() && |mem| == |old(mem)| && f < |mem| && mem == old(mem)[f := old(mem)[pa]]
    {
      ghost var mem0 := mem;
      mem := mem[f := mem[pa]];
      ChainFrame(mem0, mem, freeList, free);
      FrameForest(mem0, mem, roots, owner);
    }

    /** copyuvm's loop body: copy the page at address a of tree r, which is mapped, to the same address of tree d.
        false stands for the jump to bad when memory runs out. */
    method CopyUvmPage(r: nat, d: nat, a: nat, ghost mem0: seq<Page>, ghost roots0: set<nat>,
                       ghost owner0: map<nat, Place>, ghost other0: set<nat>)
      returns (ok: bool)
      requires Valid() && roots == roots0 + {d} && d !in roots0 && r in roots0 && a < 0x1_0000_0000 && other0 <= other
      requires Forest(mem0, roots0, owner0) && Present(Entry(mem0, r, PathOf(a)))
      requires Copied(mem0, mem, roots0, owner0, owner, other0, r, d, a / PGSIZE)
      modifies this
      ensures Valid() && roots == old(roots) && other0 <= other
      ensures ok ==> Copied(mem0, mem, roots0, owner0, owner, other0, r, d, a / PGSIZE + 1) && other == old(other)
      ensures OnlyTables(mem0, mem, roots0, owner0, owner, other0)
      ensures !ok ==> free == []
      ensures ok <==> |old(Lacking(mem, d, PathOf(a)))| < |old(free)|
      ensures ok ==> |old(free)| == |free| + 1 + |old(Lacking(mem, d, PathOf(a)))|
      ensures ok ==> TablesAdded(old(mem), mem, roots, d, old(Lacking(mem, d, PathOf(a))))
    {
      hide Forest, Chain, Partition, SameTranslation, SameContents, Keeps, OnlyTables, Adds, Copied, Node, Entry,
           Lacking, TablesAdded;
      CopiedOnlyTables(mem0, mem, roots0, owner0, owner, other0, r, d, a / PGSIZE);
      var found, t, i := PgdirWalk(r, a, false);
      CopiedSource(mem0, mem, roots0, owner0, owner, other0, r, d, a / PGSIZE, PathOf(a));
      var pa, ap := mem[t][i].page, mem[t][i].flags * {USER, RO};
      ghost var mem1, owner1, other1 := mem, owner, other;
      var f := Kalloc();
      if f == 0 {
        return false;
      }
      FreshForCopy(mem0, mem1, mem, roots0, owner0, owner, other0, r, d, a, f);
      CopiedSource(mem0, mem, roots0, owner0, owner, other0, r, d, a / PGSIZE, PathOf(a));
      ghost var mem2 := mem;
      CopyPage(f, pa);
      CopiedSame(mem0, mem2, mem, roots0, owner0, owner, other0, r, d, a / PGSIZE, f);
      ghost var mem3, owner3, other3 := mem, owner, other;
      SameLacking(mem1, mem, roots, owner, d, PathOf(a), f);
      var res := MapPage(d, a, f, ap);
      if !res.Mapped? {
        NotMapped(mem0, mem3, mem, roots0, owner0, owner3, owner, other0, other3, r, d, a, res.AlreadyMapped?);
        return false;
      }
      CopiedStep(mem0, mem3, mem, roots0, owner0, owner3, owner, other0, other3, r, d, a, f,
                 Word(f, ap + {P, TABLE, AF}));
      CopiedOnlyTables(mem0, mem, roots0, owner0, owner, other0, r, d, a / PGSIZE + 1);
      TablesTwice(mem1, mem3, mem, roots, d, {}, Lacking(mem1, d, PathOf(a)));
      assert other == other1;
      return true;
    }

    lemma CopiedOnlyTables(m0: seq<Page>, m: seq<Page>, roots0: set<nat>, o0: map<nat, Place>, o: map<nat, Place>,
                           other0: set<nat>, r: nat, d: nat, k: nat)
      requires Copied(m0, m, roots0, o0, o, other0, r, d, k)
      ensures OnlyTables(m0, m, roots0, o0, o, other0)
    {
    }

    /** A frame from kalloc is new to everyone, and its being zeroed does not matter to the copy. */
    lemma FreshForCopy(m0: seq<Page>, m: seq<Page>, m': seq<Page>, roots0: set<nat>, o0: map<nat, Place>,
                       o: map<nat, Place>, other0: set<nat>, r: nat, d: nat, a: nat, f: nat)
      requires Copied(m0, m, roots0, o0, o, other0, r, d, a / PGSIZE) && Forest(m, roots0 + {d}, o)
      requires f < |m| && f !in o && f !in other0 && m' == m[f := ZeroPage()]
      ensures f !in o0 && Copied(m0, m', roots0, o0, o, other0, r, d, a / PGSIZE)
    {
      CopiedSame(m0, m, m', roots0, o0, o, other0, r, d, a / PGSIZE, f);
    }

    /** map_region did not succeed: the page was not mapped before, so memory has run out. */
    lemma NotMapped(m0: seq<Page>, m: seq<Page>, m': seq<Page>, roots0: set<nat>, o0: map<nat, Place>,
                    o: map<nat, Place>, o': map<nat, Place>, other0: set<nat>, other: set<nat>, r: nat, d: nat, a: nat,
                    already: bool)
      requires Copied(m0, m, roots0, o0, o, other0, r, d, a / PGSIZE) && other0 <= other && a < 0x1_0000_0000_0000
      requires SameTranslation(m, m', roots0 + {d}) && Keeps(o, o') && SameContents(m, m', o, other)
      requires already ==> Present(Entry(m, d, PathOf(a)))
      ensures OnlyTables(m0, m', roots0, o0, o', other0) && !already
    {
      PathRoundTrip(a);
    }

    /** copyuvm: a new tree with a copy of every page below sz. When memory runs out it gives up: the source is as it
        was, but of what it had allocated only the top-level table is freed. It runs out exactly if there are no more
        free frames than the pages and all the tables on their paths take, since one is needed for the top-level table
        too. */
    method CopyUvm(r: nat, sz: nat) returns (d: nat)
      requires Valid() && r in roots && sz < 0x1_0000_0000 && Contiguous(mem, r, Pages(sz))
      modifies this
      ensures Valid()
      ensures d != 0 ==> d !in old(roots) && roots == old(roots) + {d} && other == old(other)
      ensures d != 0 ==> Copied(old(mem), mem, old(roots), old(owner), owner, old(other), r, d, Pages(sz))
      ensures d == 0 ==> roots == old(roots) && SameTranslation(old(mem), mem, roots) && |free| <= 1
      ensures d == 0 ==> SameContents(old(mem), mem, old(owner), old(other))
      ensures d == 0 <==> |old(free)| <= old(Needed(mem, 0, 0, Pages(sz)))
    {
      hide Forest, Chain, Partition, SameTranslation, SameContents, Keeps, OnlyTables, Copied, Contiguous, Node, Entry,
           Needed, Taken, Lacking, TablesAdded, PathOf, NoTablesBelow, Pages;
      ghost var mem0, roots0, owner0, other0 := mem, roots, owner, other;
      d := PgdirInit();
      if d == 0 {
        SameAfter(mem0, mem, roots0, owner0, owner, other0);
        return;
      }
      CopiedStart(mem0, mem, roots0, owner0, owner, other0, r, d);
      ghost var m1, f1 := mem, |free|;
      TakenNone(mem, roots, d, 0, f1);
      EmptyNeeds(m1, d, mem0, Pages(sz));
      var a := 0;
      while a < sz
        invariant Valid() && roots == roots0 + {d} && other == other0
        invariant Taken(m1, mem, roots, d, 0, a / PGSIZE, f1, |free|)
        invariant a % PGSIZE == 0 && a / PGSIZE <= Pages(sz)
        invariant Copied(mem0, mem, roots0, owner0, owner, other0, r, d, a / PGSIZE)
      {
        MappedBelow(mem0, r, sz, a);
        ghost var mem2, free2 := mem, |free|;
        NextIs(m1, mem, roots, d, 0, a, a / PGSIZE, f1, free2, true);
        var ok := CopyUvmPage(r, d, a, mem0, roots0, owner0, other0);
        if !ok {
          NeededMore(m1, d, 0, a / PGSIZE + 1, Pages(sz));
          SameAfter(mem0, mem, roots0, owner0, owner, other0);
          ghost var mem1, owner1 := mem, owner;
          Abandon(d);
          assert roots == roots0;
          AbandonedContents(mem0, mem1, mem, roots0, owner0, owner1, other0, d);
          SameTwice(mem0, mem1, mem, roots);
          return 0;
        }
        TakenStep(m1, mem2, mem, roots, d, 0, a / PGSIZE, f1, free2, |free|);
        NextPage(a);
        a := a + PGSIZE;
      }
      TakenAll(m1, mem, roots, d, 0, a / PGSIZE, f1, |free|);
      AllCopied(sz, a);
    }

    static lemma EmptyNeeds(m: seq<Page>, d: nat, m': seq<Page>, n: nat)
      requires NoTablesBelow(m, d)
      ensures Needed(m, d, 0, n) == Needed(m', 0, 0, n)
    {
      EmptyLacks(m, d, m', n);
    }

    static lemma AllCopied(sz: nat, a: nat)
      requires sz <= a && a % PGSIZE == 0 && a / PGSIZE <= Pages(sz)
      ensures a / PGSIZE == Pages(sz)
    {
    }

    lemma SameAfter(m0: seq<Page>, m: seq<Page>, roots0: set<nat>, o0: map<nat, Place>, o: map<nat, Place>,
                    other0: set<nat>)
      requires OnlyTables(m0, m, roots0, o0, o, other0)
      ensures SameTranslation(m0, m, roots0) && SameContents(m0, m, o0, other0)
    {
    }

    /** Neither a page nor a frame outside the trees is the top-level table given back. */
    lemma AbandonedContents(m0: seq<Page>, m: seq<Page>, m': seq<Page>, roots0: set<nat>, o0: map<nat, Place>,
                            o: map<nat, Place>, other0: set<nat>, d: nat)
      requires OnlyTables(m0, m, roots0, o0, o, other0) && d in o && o[d] == Place(d, []) && d !in other0
      requires d < |m| == |m'| && m' == m[d := m'[d]]
      ensures SameContents(m0, m', o0, other0)
    {
      hide SameTranslation;
    }

    lemma MappedBelow(m: seq<Page>, r: nat, sz: nat, a: nat)
      requires Contiguous(m, r, Pages(sz)) && a < sz < 0x1_0000_0000 && a % PGSIZE == 0
      ensures Present(Entry(m, r, PathOf(a))) && a / PGSIZE + 1 <= Pages(sz)
    {
      PathRoundTrip(a);
    }

    /** bad: kfree(d). The rest of the new tree is reachable from nowhere and not free. */
    method Abandon(d: nat)
      requires Valid() && d in roots
      modifies this
      ensures Valid() && roots == old(roots) - {d} && free == [d] + old(free)
      ensures SameTranslation(old(mem), mem, roots)
      ensures d in old(owner) && old(owner)[d] == Place(d, []) && d !in old(other)
      ensures d < |mem| == |old(mem)| && mem == old(mem)[d := mem[d]]
    {
      hide Chain, SameTranslation, Entry;
      ghost var mem0, free0, owner0 := mem, free, owner;
      OneOwner(mem, roots, owner, d, [], d, []);
      assert d in owner && owner[d] == Place(d, []);
      DropRoot(mem, roots, owner, d);
      Kfree(d);
      owner := owner - TreeOf(owner, d);
      other := other + (TreeOf(owner0, d) - {d});
      roots := roots - {d};
      FrameForest(mem0, mem, roots, owner);
      AbandonPartition(low, free0, owner0, old(other), d);
      EntriesSame(mem0, mem, roots);
    }

    /** kfree of a frame that is in no tree. */
    method Release(f: nat)
      requires Valid() && f in other
      modifies this
      ensures Valid() && roots == old(roots) && owner == old(owner) && free == [f] + old(free)
            && other == old(other) - {f}
      ensures |mem| == |old(mem)| == NFRAMES && forall x :: 0 <= x < NFRAMES && x != f ==> mem[x] == old(mem)[x]
      ensures SameTranslation(old(mem), mem, roots)
    {
      hide SameTranslation;
      ghost var mem0, free0 := mem, free;
      Kfree(f);
      other := other - {f};
      FrameForest(mem0, mem, roots, owner);
      EntriesSame(mem0, mem, roots);
    }

    /** The frames of tree r at and below q that vm_free may touch: allocated, in no tree, unchanged since m0. */
    ghost predicate Detached(m0: seq<Page>, owner0: map<nat, Place>, r: nat, q: Path)
      reads this
    {
      |m0| == |mem| && forall f :: f in Below(owner0, r, q) ==> f in other && f < |m0| && mem[f] == m0[f]
    }

    /** vm_free's loop body for entry i. */
    method FreeEntry(pgdir: nat, i: nat, level: nat, ghost m0: seq<Page>, ghost roots0: set<nat>,
                     ghost owner0: map<nat, Place>, ghost r: nat, ghost q: Path)
      requires Valid() && level <= 3 && |q| <= level && IsPath(q, 3) && i < ENTRIES && 0 < pgdir < |mem|
      requires Forest(m0, roots0, owner0) && r in roots0 && Node(m0, r, q) == pgdir < |m0| && mem[pgdir] == m0[pgdir]
      requires Detached(m0, owner0, r, q + [i])
      modifies this
      ensures Valid() && roots == old(roots) && owner == old(owner)
      ensures other == old(other) - Freed(owner0, r, q + [i], level + 1)
      ensures forall f :: f in free <==> f in old(free) || f in Freed(owner0, r, q + [i], level + 1)
      ensures |mem| == |old(mem)|
      ensures forall f :: 0 <= f < |mem| && f !in Freed(owner0, r, q + [i], level + 1) ==> mem[f] == old(mem)[f]
      ensures SameTranslation(old(mem), mem, roots)
      decreases 3 - level, 0
    {
      hide Forest, Chain, Partition, SameTranslation, Freed, FreedBelow, Below;
      SameAfterNothing(mem, roots);
      assert (q + [i])[..|q|] == q && IsPath(q + [i], 4);
      var pte := mem[pgdir][i];
      OneOwner(m0, roots0, owner0, r, q + [i], r, q + [i]);
      if P in pte.flags {
        PresentNode(m0, roots0, owner0, r, q, i);
        if level < 3 {
          VmFree(pte.page, level + 1, m0, roots0, owner0, r, q + [i]);
        } else {
          FreedLeaf(m0, roots0, owner0, r, q + [i]);
          Release(pte.page);
        }
      } else {
        NothingFreed(m0, roots0, owner0, r, q, i, level + 1);
      }
    }

    lemma PresentNode(m0: seq<Page>, roots0: set<nat>, owner0: map<nat, Place>, r: nat, q: Path, i: nat)
      requires Forest(m0, roots0, owner0) && r in roots0 && IsPath(q, 3) && i < ENTRIES
      requires 0 < Node(m0, r, q) < |m0| && Present(m0[Node(m0, r, q)][i])
      ensures Node(m0, r, q + [i]) == m0[Node(m0, r, q)][i].page != 0
    {
      OneOwner(m0, roots0, owner0, r, q, r, q);
      assert (q + [i])[..|q|] == q;
    }

    /** vm_free(pgdir, level) for the table at (r, q) of the forest m0, whose tree has been taken out of roots:
        it frees exactly Freed, each frame once, and touches nothing else. */
    method VmFree(pgdir: nat, level: nat, ghost m0: seq<Page>, ghost roots0: set<nat>, ghost owner0: map<nat, Place>,
                  ghost r: nat, ghost q: Path)
      requires Valid() && level <= 3 && |q| <= level && IsPath(q, 3) && pgdir != 0
      requires Forest(m0, roots0, owner0) && r in roots0 && Node(m0, r, q) == pgdir && Detached(m0, owner0, r, q)
      modifies this
      ensures Valid() && roots == old(roots) && owner == old(owner)
      ensures other == old(other) - Freed(owner0, r, q, level)
      ensures forall f :: f in free <==> f in old(free) || f in Freed(owner0, r, q, level)
      ensures |mem| == |old(mem)| && forall f :: 0 <= f < |mem| && f !in Freed(owner0, r, q, level) ==>
          mem[f] == old(mem)[f]
      ensures SameTranslation(old(mem), mem, roots)
      decreases 3 - level, 1
    {
      hide Forest, Chain, Partition, SameTranslation, Node, Freed, FreedBelow, Below;
      ghost var mem1, free1, other1 := mem, free, other;
      SameAfterNothing(mem, roots);
      OneOwner(m0, roots0, owner0, r, q, r, q);
      AllFreed(m0, roots0, owner0, r, q, level);
      var i := 0;
      while i < ENTRIES
        invariant i <= ENTRIES && Valid() && roots == old(roots) && owner == old(owner)
        invariant other == other1 - FreedBelow(owner0, r, q, level, i)
        invariant forall f :: f in free <==> f in free1 || f in FreedBelow(owner0, r, q, level, i)
        invariant |mem| == |mem1|
        invariant forall f :: 0 <= f < |mem| && f !in FreedBelow(owner0, r, q, level, i) ==> mem[f] == mem1[f]
        invariant SameTranslation(mem1, mem, roots)
      {
        ghost var mem2 := mem;
        BelowEntry(m0, roots0, owner0, r, q, level, i);
        FreeEntry(pgdir, i, level, m0, roots0, owner0, r, q);
        SameTwice(mem1, mem2, mem, roots);
        FreedNext(owner0, r, q, level, i);
        i := i + 1;
      }
      BelowEntry(m0, roots0, owner0, r, q, level, ENTRIES);
      if level < 3 {
        ghost var mem2 := mem;
        Release(pgdir);
        SameTwice(mem1, mem2, mem, roots);
      }
    }

    /** vm_free(r, level) as wait and execve call it, for a whole tree that is no longer used. Everything it does not
        free stays allocated and belongs to no tree. */
    method FreeTree(r: nat, level: nat)
      requires Valid() && r in roots && level <= 3
      modifies this
      ensures Valid() && roots == old(roots) - {r} && owner == old(owner) - TreeOf(old(owner), r)
      ensures forall f :: f in free <==> f in old(free) || f in Freed(old(owner), r, [], level)
      ensures other == old(other) + (TreeOf(old(owner), r) - Freed(old(owner), r, [], level))
      ensures |mem| == |old(mem)| && forall f :: 0 <= f < |mem| && f !in Freed(old(owner), r, [], level) ==>
          mem[f] == old(mem)[f]
      ensures SameTranslation(old(mem), mem, roots)
    {
      hide Chain, SameTranslation, Freed;
      ghost var roots0, owner0, other0 := roots, owner, other;
      OneOwner(mem, roots, owner, r, [], r, []);
      DropRoot(mem, roots, owner, r);
      RetirePartition(low, free, owner, other, r);
      owner := owner - TreeOf(owner, r);
      other := other + TreeOf(owner0, r);
      roots := roots - {r};
      ghost var other1 := other;
      assert Below(owner0, r, []) == TreeOf(owner0, r);
      hide Forest;
      VmFree(r, level, mem, roots0, owner0, r, []);
      FreedOfTree(owner0, r, level);
      assert other == other1 - Freed(owner0, r, [], level);
    }
  }
}
