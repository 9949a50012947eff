/** Path names: skipelem walks over exactly the non-empty pieces between slashes. */
module Paths {
  import opened Bytes
  import opened Dirents

  const SLASH: Byte := 47

  /** The pieces between slashes, empty ones included. */
  function Split(path: seq<Byte>): (r: seq<seq<Byte>>)
    ensures |r| > 0
  {
    if path == [] then [[]] else
      var rest := Split(path[1..]);
      if path[0] == SLASH then [[]] + rest else [[path[0]] + rest[0]] + rest[1..]
  }

  function NonEmpty(ps: seq<seq<Byte>>): seq<seq<Byte>>
  {
    if ps == [] then [] else if ps[0] == [] then NonEmpty(ps[1..]) else [ps[0]] + NonEmpty(ps[1..])
  }

  /** The names in a path. */
  function Names(path: seq<Byte>): seq<seq<Byte>>
  {
    NonEmpty(Split(path))
  }

  /** A path is a string: no NUL inside. */
  ghost predicate IsString(path: seq<Byte>)
  {
    forall k :: 0 <= k < |path| ==> path[k] != 0
  }

  lemma SlashSkipped(path: seq<Byte>)
    requires path != [] && path[0] == SLASH
    ensures Names(path) == Names(path[1..])
  {
    assert ([[]] + Split(path[1..]))[1..] == Split(path[1..]);
  }

  lemma {:induction false} PieceFirst(path: seq<Byte>, k: nat)
    requires k <= |path| && (forall j :: 0 <= j < k ==> path[j] != SLASH) && (k < |path| ==> path[k] == SLASH)
    ensures Split(path)[0] == path[..k]
    ensures Split(path)[1..] == if k < |path| then Split(path[k + 1..]) else []
  {
    if k > 0 {
      PieceFirst(path[1..], k - 1);
      assert path[..k] == [path[0]] + path[1..][..k - 1];
    } else if path != [] {
      assert ([[]] + Split(path[1..]))[1..] == Split(path[1..]);
    }
  }

  /** A maximal run without a slash is the first name; the rest of the path has the others. */
  lemma NameFirst(path: seq<Byte>, k: nat)
    requires 0 < k <= |path| && (forall j :: 0 <= j < k ==> path[j] != SLASH) && (k < |path| ==> path[k] == SLASH)
    ensures Names(path) == [path[..k]] + Names(path[k..])
  {
    PieceFirst(path, k);
    assert Split(path) == [Split(path)[0]] + Split(path)[1..];
    if k < |path| {
      SlashSkipped(path[k..]);
      assert path[k..][1..] == path[k + 1..];
    } else {
      assert path[k..] == [];
    }
  }

  /** The first of two loops over slashes in skipelem. */
  method SkipSlashes(path: seq<Byte>, p: nat) returns (q: nat)
    requires p <= |path|
    ensures p <= q <= |path| && (q < |path| ==> path[q] != SLASH) && Names(path[q..]) == Names(path[p..])
  {
    q := p;
    while q < |path| && path[q] == SLASH
      invariant p <= q <= |path| && Names(path[q..]) == Names(path[p..])
    {
      SlashSkipped(path[q..]);
      assert path[q..][1..] == path[q + 1..];
      q := q + 1;
    }
  }

  /** skipelem from position p: the next name goes, cut to DIRSIZ, into the buffer; the position after it and the
      slashes that follow is returned. found is false where the source returns a null pointer. */
  method Skipelem(path: seq<Byte>, p: nat, name: array<Byte>) returns (found: bool, next: nat)
    requires p <= |path| && IsString(path) && name.Length == DIRSIZ
    modifies name
    ensures p <= next <= |path|
    ensures !found ==> Names(path[p..]) == [] && name[..] == old(name[..])
    ensures found ==>
      && p < next && (next < |path| ==> path[next] != SLASH)
      && var names := Names(path[p..]);
         names != [] && Cut(name[..]) == Cut(names[0]) && names[1..] == Names(path[next..])
  {
    var s := SkipSlashes(path, p);
    if s == |path| {
      assert path[s..] == [];
      return false, s;
    }
    var e := s;
    while e < |path| && path[e] != SLASH
      invariant s <= e <= |path| && forall j :: s <= j < e ==> path[j] != SLASH
    {
      e := e + 1;
    }
    var len := e - s;
    NameFirst(path[s..], len);
    assert path[s..][..len] == path[s..e] && path[s..][len..] == path[e..];
    var n := if len >= DIRSIZ then DIRSIZ else len;
    var i := 0;
    while i < n
      invariant i <= n && name[..i] == path[s..s + i]
    {
      name[i] := path[s + i];
      i := i + 1;
    }
    if len < DIRSIZ {
      name[len] := 0;
    }
    NameCut(path, s, e, name[..]);
    next := SkipSlashes(path, e);
    found := true;
  }

  /** The buffer reads as the piece: of a long one its first DIRSIZ bytes, of a short one all, ended by a NUL. */
  lemma NameCut(path: seq<Byte>, s: nat, e: nat, name: seq<Byte>)
    requires s <= e <= |path| && IsString(path) && |name| == DIRSIZ
    requires var n := if e - s >= DIRSIZ then DIRSIZ else e - s;
      name[..n] == path[s..s + n] && (n < DIRSIZ ==> name[n] == 0)
    ensures Cut(name) == Cut(path[s..e])
  {
    var n := if e - s >= DIRSIZ then DIRSIZ else e - s;
    forall j | 0 <= j < n
      ensures name[j] == path[s + j] != 0 && path[s..e][j] == path[s + j]
    {
      assert name[..n][j] == path[s..s + n][j];
    }
    PrefixIs(name, DIRSIZ, n);
    PrefixIs(path[s..e], DIRSIZ, n);
    assert path[s..e][..n] == path[s..s + n];
  }
}
