/** Physical memory in pages, and the page allocator with its free list threaded through the free pages. */
module Memory {

  const ENTRIES: nat := 512
  /** PHYSTOP in pages. */
  const NFRAMES: nat := 0x3F000
  /** KERNBASE in pages. */
  const KERNBASE: nat := 0xF_FFF0_0000_0000

  /** A 64-bit word, cut where PTE_ADDR and PTE_FLAGS cut it: a page number and the set bits among the low twelve. */
  datatype Word = Word(page: nat, flags: set<nat>)

  type Page = s: seq<Word> | |s| == ENTRIES witness seq(ENTRIES, _ => Word(0, {}))

  const ZeroWord: Word := Word(0, {})
  function ZeroPage(): Page
  {
    seq(ENTRIES, _ => ZeroWord)
  }

  /** A word of bytes 1, the junk kfree fills a page with. */
  const JunkWord: Word := Word(0x1010_1010_1010, {0, 8})

  /** A kernel pointer to the start of frame f; frame 0 stands for the null pointer. */
  function Pointer(f: nat): Word
  {
    if f == 0 then ZeroWord else Word(KERNBASE + f, {})
  }

  function FrameOf(w: Word): nat
  {
    if w == ZeroWord || w.page < KERNBASE then 0 else w.page - KERNBASE
  }

  /** A freed page: junk, with the pointer to the next free page in its first word. */
  function FreedPage(next: nat): Page
  {
    seq(ENTRIES, i => if i == 0 then Pointer(next) else JunkWord)
  }

  /** head points to free[0], whose first word points to free[1], and so on to null. */
  ghost predicate Chain(mem: seq<Page>, head: nat, free: seq<nat>)
    decreases free
  {
    if free == [] then head == 0
    else head == free[0] && 0 < head < |mem| && Chain(mem, FrameOf(mem[head][0]), free[1..])
  }

  lemma {:induction false} ChainFrame(mem: seq<Page>, mem': seq<Page>, head: nat, free: seq<nat>)
    requires Chain(mem, head, free) && |mem| == |mem'|
    requires forall f :: f in free && f < |mem| ==> mem'[f] == mem[f]
    ensures Chain(mem', head, free)
    decreases free
  {
    if free != [] {
      assert free[0] in free;
      ChainFrame(mem, mem', FrameOf(mem[head][0]), free[1..]);
    }
  }

  /** Every frame from low on is in exactly one of the three places. */
  ghost predicate Partition(low: nat, free: seq<nat>, used: set<nat>, other: set<nat>)
  {
    && 0 < low
    && (forall i, j :: 0 <= i < j < |free| ==> free[i] != free[j])
    && (forall f :: f in free ==> f !in used && f !in other)
    && used !! other
    && (forall f :: low <= f < NFRAMES <==> f in free || f in used || f in other)
  }
}
