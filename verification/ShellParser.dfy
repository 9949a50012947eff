/** The shell's parser over its input buffer, and the pass that ends every word with a NUL in place. */
module ShellParser {
  import opened ShellSyntax

  // ---------- What a parse records ----------

  ghost function SpanSet(c: Cmd<Span>): set<Span>
  {
    match c
    case Exec(argv) => set w | w in argv
    case Redir(sub, file, out) => SpanSet(sub) + {file}
    case Pipe(l, r) => SpanSet(l) + SpanSet(r)
    case List(l, r) => SpanSet(l) + SpanSet(r)
    case Back(sub) => SpanSet(sub)
  }

  /** A word of the text: word characters, and none after them. */
  ghost predicate WordSpan(s: string, w: Span)
  {
    w.q < w.eq <= |s| && (forall k :: w.q <= k < w.eq ==> WordChar(s[k])) && !WordChar(At(s, w.eq))
  }

  /** The words of c are words of the text between lo and hi. */
  ghost predicate Good(s: string, c: Cmd<Span>, lo: nat, hi: nat)
  {
    forall w :: w in SpanSet(c) ==> lo <= w.q && w.eq <= hi && WordSpan(s, w)
  }

  predicate Apart(v: Span, w: Span)
  {
    v.eq <= w.q || w.eq <= v.q
  }

  /** No two words recorded in c overlap. */
  ghost predicate Disjoint(c: Cmd<Span>)
  {
    match c
    case Exec(argv) => forall j, k :: 0 <= j < k < |argv| ==> Apart(argv[j], argv[k])
    case Redir(sub, file, out) => Disjoint(sub) && forall w :: w in SpanSet(sub) ==> Apart(w, file)
    case Pipe(l, r) => Disjoint(l) && Disjoint(r) && forall v, w :: v in SpanSet(l) && w in SpanSet(r) ==> Apart(v, w)
    case List(l, r) => Disjoint(l) && Disjoint(r) && forall v, w :: v in SpanSet(l) && w in SpanSet(r) ==> Apart(v, w)
    case Back(sub) => Disjoint(sub)
  }

  /** The text has no NUL inside: it is as long as strlen says. */
  ghost predicate NoNul(s: string)
  {
    forall k :: 0 <= k < |s| ==> s[k] != NUL
  }

  /** A word token is a word of the text, past the position it was read from. */
  lemma TokenIsWord(s: string, i: nat)
    requires i <= |s| && GetToken(s, i).ret == 'a'
    ensures var t := GetToken(s, i); i <= t.q && t.eq <= t.next && WordSpan(s, Span(t.q, t.eq))
  {
    SkipEnds(s, i);
    WordEndStops(s, Skip(s, i));
  }

  lemma {:induction false} AddArgSpans(c: Cmd<Span>, w: Span)
    requires c.Exec? || c.Redir?
    ensures SpanSet(AddArg(c, w)) <= SpanSet(c) + {w}
  {
    if c.Redir? && (c.cmd.Exec? || c.cmd.Redir?) {
      AddArgSpans(c.cmd, w);
    }
  }

  lemma {:induction false} AddArgDisjoint(c: Cmd<Span>, w: Span)
    requires Disjoint(c) && forall v :: v in SpanSet(c) ==> Apart(v, w)
    ensures Disjoint(AddArg(c, w))
  {
    if c.Exec? {
      var argv := c.argv + [w];
      forall j, k | 0 <= j < k < |argv|
        ensures Apart(argv[j], argv[k])
      {
        assert c.argv[j] in SpanSet(c);
      }
    } else if c.Redir? {
      AddArgDisjoint(c.cmd, w);
      assert c.file in SpanSet(c);
      if c.cmd.Exec? || c.cmd.Redir? {
        AddArgSpans(c.cmd, w);
      }
    }
  }

  /** Adding a word read at i to what was read before i. */
  lemma AddWordGood(s: string, c: Cmd<Span>, lo: nat, i: nat, w: Span, hi: nat)
    requires Good(s, c, lo, i) && Disjoint(c) && lo <= i <= w.q && w.eq <= hi && WordSpan(s, w)
    ensures Good(s, AddArg(c, w), lo, hi) && Disjoint(AddArg(c, w))
    ensures Good(s, Redir(c, w, true), lo, hi) && Disjoint(Redir(c, w, true))
  {
    AddArgDisjoint(c, w);
    if c.Exec? || c.Redir? {
      AddArgSpans(c, w);
    }
  }

  lemma {:induction false} RedirsGood(s: string, c: Cmd<Span>, lo: nat, i: nat)
    requires i <= |s| && lo <= i && Good(s, c, lo, i) && Disjoint(c)
    ensures var r := ParseRedirs(s, c, i); r.Ok? ==> Good(s, r.cmd, lo, r.pos) && Disjoint(r.cmd)
    decreases |s| - i
  {
    hide Good, Disjoint, GetToken;
    if Peek(s, i, {'<', '>'}) {
      var op := GetToken(s, i);
      var file := GetToken(s, op.next);
      if file.ret == 'a' {
        var w := Span(file.q, file.eq);
        TokenIsWord(s, op.next);
        AddWordGood(s, c, lo, i, w, file.next);
        var c' := Redir(c, w, op.ret != '<');
        RedirKind(s, c, w, op.ret != '<', lo, file.next);
        RedirsGood(s, c', lo, file.next);
      }
    } else {
      Wider(s, c, lo, i, Skip(s, i));
    }
  }

  lemma RedirKind(s: string, c: Cmd<Span>, w: Span, out: bool, lo: nat, hi: nat)
    requires Good(s, Redir(c, w, true), lo, hi) && Disjoint(Redir(c, w, true))
    ensures Good(s, Redir(c, w, out), lo, hi) && Disjoint(Redir(c, w, out))
  {
  }

  lemma Wider(s: string, c: Cmd<Span>, lo: nat, hi: nat, hi': nat)
    requires Good(s, c, lo, hi) && hi <= hi'
    ensures Good(s, c, lo, hi')
  {
  }

  lemma {:induction false} ArgsGood(s: string, c: Cmd<Span>, lo: nat, i: nat, argc: nat)
    requires i <= |s| && lo <= i && Good(s, c, lo, i) && Disjoint(c)
    ensures var r := ParseArgs(s, c, i, argc); r.Ok? ==> Good(s, r.cmd, lo, r.pos) && Disjoint(r.cmd)
    decreases |s| - i
  {
    hide Good, Disjoint, GetToken, ParseRedirs;
    if Peek(s, i, {'|', ')', '&', ';'}) {
      Wider(s, c, lo, i, Skip(s, i));
    } else {
      var t := GetToken(s, i);
      Wider(s, c, lo, i, t.next);
      if t.ret == 'a' && argc + 1 < MAXARGS {
        var c' := AddArg(c, Span(t.q, t.eq));
        TokenIsWord(s, i);
        AddWordGood(s, c, lo, i, Span(t.q, t.eq), t.next);
        RedirsGood(s, c', lo, t.next);
        var r := ParseRedirs(s, c', t.next);
        if r.Ok? {
          ArgsGood(s, r.cmd, lo, r.pos, argc + 1);
        }
      }
    }
  }

  lemma {:induction false} BlockGood(s: string, i: nat)
    requires i <= |s|
    ensures var r := ParseBlock(s, i); r.Ok? ==> Good(s, r.cmd, i, r.pos) && Disjoint(r.cmd)
    decreases |s| - i, 1
  {
    hide Good, Disjoint, GetToken, ParseRedirs, ParseLine;
    if Peek(s, i, {'('}) {
      NotNul(s, i, {'('});
      var next := GetToken(s, i).next;
      LineGood(s, next);
      var r := ParseLine(s, next);
      if r.Ok? && Peek(s, r.pos, {')'}) {
        Earlier(s, r.cmd, next, i, r.pos);
        Wider(s, r.cmd, i, r.pos, GetToken(s, r.pos).next);
        RedirsGood(s, r.cmd, i, GetToken(s, r.pos).next);
      }
    }
  }

  lemma NotNul(s: string, i: nat, toks: set<char>)
    requires i <= |s| && Peek(s, i, toks)
    ensures i < GetToken(s, i).next
  {
  }

  lemma Earlier(s: string, c: Cmd<Span>, lo: nat, lo': nat, hi: nat)
    requires Good(s, c, lo, hi) && lo' <= lo
    ensures Good(s, c, lo', hi)
  {
  }

  lemma {:induction false} ExecGood(s: string, i: nat)
    requires i <= |s|
    ensures var r := ParseExec(s, i); r.Ok? ==> Good(s, r.cmd, i, r.pos) && Disjoint(r.cmd)
    decreases |s| - i, 2
  {
    if Peek(s, i, {'('}) {
      BlockGood(s, i);
    } else {
      RedirsGood(s, Exec([]), i, i);
      hide Good, Disjoint, ParseRedirs, ParseArgs;
      var r := ParseRedirs(s, Exec([]), i);
      if r.Ok? {
        ArgsGood(s, r.cmd, i, r.pos, 0);
      }
    }
  }

  /** Two commands read one after the other. */
  lemma BothGood(s: string, c: Cmd<Span>, d: Cmd<Span>, lo: nat, p: nat, q: nat, hi: nat)
    requires Good(s, c, lo, p) && Good(s, d, q, hi) && Disjoint(c) && Disjoint(d) && lo <= p <= q <= hi
    ensures Good(s, Pipe(c, d), lo, hi) && Disjoint(Pipe(c, d)) && Good(s, List(c, d), lo, hi) && Disjoint(List(c, d))
  {
    hide WordSpan;
  }

  lemma {:induction false} PipeGood(s: string, i: nat)
    requires i <= |s|
    ensures var r := ParsePipe(s, i); r.Ok? ==> Good(s, r.cmd, i, r.pos) && Disjoint(r.cmd)
    decreases |s| - i, 3
  {
    hide Good, Disjoint, ParseExec, GetToken;
    ExecGood(s, i);
    var r := ParseExec(s, i);
    if r.Ok? {
      if Peek(s, r.pos, {'|'}) {
        NotNul(s, r.pos, {'|'});
        var next := GetToken(s, r.pos).next;
        PipeGood(s, next);
        var e := ParsePipe(s, next);
        if e.Ok? {
          BothGood(s, r.cmd, e.cmd, i, r.pos, next, e.pos);
        }
      } else {
        Wider(s, r.cmd, i, r.pos, Skip(s, r.pos));
      }
    }
  }

  lemma {:induction false} BacksGood(s: string, c: Cmd<Span>, lo: nat, i: nat)
    requires i <= |s| && lo <= i && Good(s, c, lo, i) && Disjoint(c)
    ensures var r := ParseBacks(s, c, i); r.Ok? ==> Good(s, r.cmd, lo, r.pos) && Disjoint(r.cmd)
    decreases |s| - i, 4
  {
    BackSame(s, c, lo, i);
    hide Good, Disjoint, GetToken, ParseLine;
    var next := GetToken(s, i).next;
    if Peek(s, i, {'&'}) {
      NotNul(s, i, {'&'});
      Wider(s, Back(c), lo, i, next);
      BacksGood(s, Back(c), lo, next);
    } else if Peek(s, i, {';'}) {
      NotNul(s, i, {';'});
      LineGood(s, next);
      var r := ParseLine(s, next);
      if r.Ok? {
        BothGood(s, c, r.cmd, lo, i, next, r.pos);
      }
    } else {
      Wider(s, c, lo, i, Skip(s, i));
    }
  }

  lemma BackSame(s: string, c: Cmd<Span>, lo: nat, hi: nat)
    requires Good(s, c, lo, hi) && Disjoint(c)
    ensures Good(s, Back(c), lo, hi) && Disjoint(Back(c))
  {
  }

  /** Whatever the text, the words that a successful parse records are words of the text and do not overlap. */
  lemma {:induction false} LineGood(s: string, i: nat)
    requires i <= |s|
    ensures var r := ParseLine(s, i); r.Ok? ==> Good(s, r.cmd, i, r.pos) && Disjoint(r.cmd)
    decreases |s| - i, 5
  {
    hide Good, Disjoint, ParsePipe, ParseBacks;
    PipeGood(s, i);
    var r := ParsePipe(s, i);
    if r.Ok? {
      BacksGood(s, r.cmd, i, r.pos);
    }
  }

  // ---------- NUL termination ----------

  ghost function Ends(c: Cmd<Span>): set<nat>
  {
    set w | w in SpanSet(c) :: w.eq
  }

  /** The C string at q. */
  function CString(b: string, q: nat): string
    decreases |b| - q
  {
    if q >= |b| || b[q] == NUL then "" else [b[q]] + CString(b, q + 1)
  }

  lemma {:induction false} CStringIs(b: string, q: nat, eq: nat)
    requires q <= eq < |b| && b[eq] == NUL && forall k :: q <= k < eq ==> b[k] != NUL
    ensures CString(b, q) == b[q..eq]
    decreases eq - q
  {
    if q < eq {
      CStringIs(b, q + 1, eq);
      assert b[q..eq] == [b[q]] + b[q + 1..eq];
    }
  }

  /** The buffer b holds the text s with the words of c ended. */
  ghost predicate Terminated(s: string, c: Cmd<Span>, b: string)
  {
    |b| > |s| && forall k :: 0 <= k <= |s| ==> b[k] == if k in Ends(c) then NUL else At(s, k)
  }

  /** Ending the words damages none of them: each reads as what it was, because every byte overwritten lies outside
      all. */
  lemma WordsSurvive(s: string, c: Cmd<Span>, b: string, w: Span)
    requires Good(s, c, 0, |s|) && Terminated(s, c, b) && w in SpanSet(c)
    ensures CString(b, w.q) == Text(s, w)
    ensures forall k :: w.q <= k < w.eq ==> k !in Ends(c)
  {
    forall v | v in SpanSet(c)
      ensures !(w.q <= v.eq < w.eq)
    {
      assert WordSpan(s, v) && WordSpan(s, w);
      assert w.q <= v.eq < w.eq ==> WordChar(At(s, v.eq));
    }
    assert w.eq in Ends(c);
    CStringIs(b, w.q, w.eq);
    assert b[w.q..w.eq] == s[w.q..w.eq];
  }

  function Strings(b: string, ws: seq<Span>): (r: seq<string>)
    ensures |r| == |ws|
  {
    if ws == [] then [] else Strings(b, ws[..|ws|-1]) + [CString(b, ws[|ws|-1].q)]
  }

  /** The command as runcmd finds it in the buffer. */
  function Reads(b: string, c: Cmd<Span>): Cmd<string>
  {
    match c
    case Exec(argv) => Exec(Strings(b, argv))
    case Redir(sub, file, out) => Redir(Reads(b, sub), CString(b, file.q), out)
    case Pipe(l, r) => Pipe(Reads(b, l), Reads(b, r))
    case List(l, r) => List(Reads(b, l), Reads(b, r))
    case Back(sub) => Back(Reads(b, sub))
  }

  lemma {:induction false} StringsAreTexts(s: string, c: Cmd<Span>, b: string, ws: seq<Span>)
    requires Good(s, c, 0, |s|) && Terminated(s, c, b) && forall w :: w in ws ==> w in SpanSet(c)
    ensures Strings(b, ws) == Texts(s, ws)
  {
    if ws != [] {
      WordsSurvive(s, c, b, ws[|ws|-1]);
      StringsAreTexts(s, c, b, ws[..|ws|-1]);
    }
  }

  /** What runcmd reads in the terminated buffer is what was parsed in the text. */
  lemma {:induction false} ReadsAreWords(s: string, c: Cmd<Span>, b: string, d: Cmd<Span>)
    requires Good(s, c, 0, |s|) && Terminated(s, c, b) && SpanSet(d) <= SpanSet(c)
    ensures Reads(b, d) == Words(s, d)
    decreases d
  {
    hide Good, Terminated;
    match d
    case Exec(argv) => StringsAreTexts(s, c, b, argv);
    case Redir(sub, file, out) =>
      WordsSurvive(s, c, b, file);
      ReadsAreWords(s, c, b, sub);
    case Pipe(l, r) =>
      ReadsAreWords(s, c, b, l);
      ReadsAreWords(s, c, b, r);
    case List(l, r) =>
      ReadsAreWords(s, c, b, l);
      ReadsAreWords(s, c, b, r);
    case Back(sub) => ReadsAreWords(s, c, b, sub);
  }

  // ---------- The parser ----------

  /** buf holds a text of es characters and its NUL. */
  ghost predicate Holds(buf: array<char>, es: nat)
    reads buf
  {
    es < buf.Length && buf[es] == NUL && NoNul(buf[..es])
  }

  method GetTok(buf: array<char>, ps: nat, es: nat) returns (ret: char, q: nat, eq: nat, next: nat)
    requires Holds(buf, es) && ps <= es
    ensures Token(ret, q, eq, next) == GetToken(buf[..es], ps)
    ensures ps <= next <= es && (ret != NUL ==> ps < next)
  {
    ghost var text := buf[..es];
    var s := SkipBlanks(buf, ps, es);
    q := s;
    ret := buf[s];
    assert ret == At(text, q);
    if ret == NUL {
    } else if ret == '>' {
      s := s + 1;
      assert buf[s] == At(text, s);
      if buf[s] == '>' {
        ret := '+';
        s := s + 1;
      }
    } else if Symbol(ret) {
      s := s + 1;
    } else {
      SkipEnds(text, ps);
      ret := 'a';
      while s < es && !White(buf[s]) && !Symbol(buf[s])
        invariant q <= s <= es && WordEnd(text, q) == WordEnd(text, s)
      {
        assert WordChar(text[s]);
        s := s + 1;
      }
    }
    eq := s;
    next := SkipBlanks(buf, s, es);
  }

  /** while (s < es && strchr(whitespace, *s)) s++. */
  method SkipBlanks(buf: array<char>, ps: nat, es: nat) returns (s: nat)
    requires es < buf.Length && ps <= es
    ensures s == Skip(buf[..es], ps)
  {
    s := ps;
    while s < es && White(buf[s])
      invariant ps <= s <= es && Skip(buf[..es], ps) == Skip(buf[..es], s)
    {
      s := s + 1;
    }
  }

  /** peek, with the characters of toks as a set. */
  method PeekAt(buf: array<char>, ps: nat, es: nat, toks: set<char>) returns (found: bool, s: nat)
    requires Holds(buf, es) && ps <= es
    ensures found == Peek(buf[..es], ps, toks) && s == Skip(buf[..es], ps)
  {
    s := SkipBlanks(buf, ps, es);
    found := buf[s] != NUL && buf[s] in toks;
  }

  /** Redirections too are the same with the blanks before them skipped. */
  lemma SkipSame(s: string, i: nat, c: Cmd<Span>)
    requires i <= |s|
    ensures Skip(s, Skip(s, i)) == Skip(s, i) && GetToken(s, Skip(s, i)) == GetToken(s, i)
    ensures forall toks :: Peek(s, Skip(s, i), toks) == Peek(s, i, toks)
    ensures ParseRedirs(s, c, Skip(s, i)) == ParseRedirs(s, c, i)
  {
    SkipTwice(s, i);
  }

  method ParseRedirections(buf: array<char>, cmd: Cmd<Span>, ps: nat, es: nat) returns (r: Parse)
    requires Holds(buf, es) && ps <= es
    ensures r == ParseRedirs(buf[..es], cmd, ps)
  {
    ghost var text := buf[..es];
    var c, p := cmd, ps;
    var found;
    SkipSame(text, p, c);
    found, p := PeekAt(buf, p, es, {'<', '>'});
    while found
      invariant ps <= p <= es && Skip(text, p) == p && found == Peek(text, p, {'<', '>'})
      invariant ParseRedirs(text, c, p) == ParseRedirs(text, cmd, ps)
      decreases es - p
    {
      var tok, q, eq, next := GetTok(buf, p, es);
      NotNul(text, p, {'<', '>'});
      var file;
      file, q, eq, next := GetTok(buf, next, es);
      if file != 'a' {
        return Panic;
      }
      c, p := Redir(c, Span(q, eq), tok != '<'), next;
      SkipSame(text, p, c);
      found, p := PeekAt(buf, p, es, {'<', '>'});
    }
    return Ok(c, p);
  }

  /** parseexec's loop. */
  method ParseArguments(buf: array<char>, cmd: Cmd<Span>, ps: nat, es: nat) returns (r: Parse)
    requires Holds(buf, es) && ps <= es
    ensures r == ParseArgs(buf[..es], cmd, ps, 0)
  {
    hide ParseRedirs, GetToken, Peek;
    ghost var text := buf[..es];
    var c, p, argc := cmd, ps, 0;
    var stop;
    ArgsSkip(text, c, p, 0);
    stop, p := PeekAt(buf, p, es, {'|', ')', '&', ';'});
    while !stop
      invariant ps <= p <= es && Skip(text, p) == p && stop == Peek(text, p, {'|', ')', '&', ';'})
      invariant ParseArgs(text, c, p, argc) == ParseArgs(text, cmd, ps, 0)
      decreases es - p
    {
      var tok, q, eq, next := GetTok(buf, p, es);
      if tok == NUL {
        return Ok(c, next);
      }
      if tok != 'a' {
        return Panic;
      }
      argc := argc + 1;
      if argc >= MAXARGS {
        return Panic;
      }
      r := ParseRedirections(buf, AddArg(c, Span(q, eq)), next, es);
      if r.Panic? {
        return;
      }
      c, p := r.cmd, r.pos;
      ArgsSkip(text, c, p, argc);
      stop, p := PeekAt(buf, p, es, {'|', ')', '&', ';'});
    }
    return Ok(c, p);
  }

  lemma ArgsSkip(s: string, c: Cmd<Span>, i: nat, argc: nat)
    requires i <= |s|
    ensures Skip(s, Skip(s, i)) == Skip(s, i) && ParseArgs(s, c, Skip(s, i), argc) == ParseArgs(s, c, i, argc)
    ensures forall toks :: Peek(s, Skip(s, i), toks) == Peek(s, i, toks)
  {
    SkipSame(s, i, c);
  }

  method ParseBlockAt(buf: array<char>, ps: nat, es: nat) returns (r: Parse)
    requires Holds(buf, es) && ps <= es
    ensures r == ParseBlock(buf[..es], ps)
    decreases es - ps, 1
  {
    hide ParseLine, ParseRedirs, GetToken, Peek;
    ghost var text := buf[..es];
    SkipSame(text, ps, Exec([]));
    var found, p := PeekAt(buf, ps, es, {'('});
    if !found {
      return Panic;
    }
    var tok, q, eq;
    NotNul(text, p, {'('});
    tok, q, eq, p := GetTok(buf, p, es);
    r := ParseLineAt(buf, p, es);
    if r.Panic? {
      return;
    }
    var c := r.cmd;
    SkipSame(text, r.pos, c);
    found, p := PeekAt(buf, r.pos, es, {')'});
    if !found {
      return Panic;
    }
    tok, q, eq, p := GetTok(buf, p, es);
    r := ParseRedirections(buf, c, p, es);
  }

  method ParseExecAt(buf: array<char>, ps: nat, es: nat) returns (r: Parse)
    requires Holds(buf, es) && ps <= es
    ensures r == ParseExec(buf[..es], ps)
    decreases es - ps, 2
  {
    hide ParseLine, ParseRedirs, GetToken, Peek, ParseBlock, ParseArgs;
    ghost var text := buf[..es];
    var found, p := PeekAt(buf, ps, es, {'('});
    SkipSame(text, ps, Exec([]));
    if found {
      BlockSkip(text, ps);
      r := ParseBlockAt(buf, p, es);
      return;
    }
    r := ParseRedirections(buf, Exec([]), p, es);
    if r.Ok? {
      r := ParseArguments(buf, r.cmd, r.pos, es);
    }
  }

  lemma BlockSkip(s: string, i: nat)
    requires i <= |s|
    ensures ParseBlock(s, Skip(s, i)) == ParseBlock(s, i)
  {
    SkipSame(s, i, Exec([]));
    hide GetToken, Peek, ParseLine;
  }

  method ParsePipeAt(buf: array<char>, ps: nat, es: nat) returns (r: Parse)
    requires Holds(buf, es) && ps <= es
    ensures r == ParsePipe(buf[..es], ps)
    decreases es - ps, 3
  {
    hide ParseExec, GetToken, Peek;
    ghost var text := buf[..es];
    r := ParseExecAt(buf, ps, es);
    if r.Panic? {
      return;
    }
    var c := r.cmd;
    SkipSame(text, r.pos, c);
    var found, p := PeekAt(buf, r.pos, es, {'|'});
    if !found {
      return Ok(c, p);
    }
    NotNul(text, p, {'|'});
    var tok, q, eq;
    tok, q, eq, p := GetTok(buf, p, es);
    r := ParsePipeAt(buf, p, es);
    if r.Ok? {
      r := Ok(Pipe(c, r.cmd), r.pos);
    }
  }

  method ParseLineAt(buf: array<char>, ps: nat, es: nat) returns (r: Parse)
    requires Holds(buf, es) && ps <= es
    ensures r == ParseLine(buf[..es], ps)
    decreases es - ps, 4
  {
    hide ParsePipe, GetToken, Peek;
    ghost var text := buf[..es];
    r := ParsePipeAt(buf, ps, es);
    if r.Panic? {
      return;
    }
    var c, p := r.cmd, r.pos;
    ghost var r0 := r;
    SkipSame(text, p, c);
    var found;
    BacksSkip(text, c, p);
    found, p := PeekAt(buf, p, es, {'&'});
    while found
      invariant ps <= p <= es && Skip(text, p) == p && found == Peek(text, p, {'&'})
      invariant ParseBacks(text, c, p) == ParseBacks(text, r0.cmd, r0.pos)
      decreases es - p
    {
      NotNul(text, p, {'&'});
      var tok, q, eq;
      tok, q, eq, p := GetTok(buf, p, es);
      c := Back(c);
      SkipSame(text, p, c);
      BacksSkip(text, c, p);
      found, p := PeekAt(buf, p, es, {'&'});
    }
    found, p := PeekAt(buf, p, es, {';'});
    if !found {
      return Ok(c, p);
    }
    NotNul(text, p, {';'});
    var tok, q, eq;
    tok, q, eq, p := GetTok(buf, p, es);
    r := ParseLineAt(buf, p, es);
    if r.Ok? {
      r := Ok(List(c, r.cmd), r.pos);
    }
  }

  lemma BacksSkip(s: string, c: Cmd<Span>, i: nat)
    requires i <= |s|
    ensures ParseBacks(s, c, Skip(s, i)) == ParseBacks(s, c, i)
  {
    SkipSame(s, i, c);
    hide GetToken, Peek;
  }

  /** nulterminate: end every word of c. */
  method NulTerminate(buf: array<char>, c: Cmd<Span>)
    requires forall w :: w in SpanSet(c) ==> w.eq < buf.Length
    modifies buf
    ensures forall k :: 0 <= k < buf.Length ==> buf[k] == if k in Ends(c) then NUL else old(buf[k])
    decreases c
  {
    match c
    case Exec(argv) =>
      var i := 0;
      while i < |argv|
        invariant i <= |argv|
        invariant forall k :: 0 <= k < buf.Length ==> buf[k] == if EndsIn(argv[..i], k) then NUL else old(buf[k])
      {
        assert argv[i] in SpanSet(c);
        EndsInNext(argv, i);
        buf[argv[i].eq] := NUL;
        i := i + 1;
      }
      assert argv[..i] == argv;
      EndsOfExec(argv);
    case Redir(sub, file, out) =>
      EndsParts(c, sub);
      NulTerminate(buf, sub);
      buf[file.eq] := NUL;
    case Pipe(l, r) =>
      EndsPair(l, r);
      NulTerminate(buf, l);
      NulTerminate(buf, r);
    case List(l, r) =>
      EndsPair(l, r);
      NulTerminate(buf, l);
      NulTerminate(buf, r);
    case Back(sub) =>
      NulTerminate(buf, sub);
  }

  ghost predicate EndsIn(ws: seq<Span>, k: nat)
  {
    exists w :: w in ws && w.eq == k
  }

  lemma EndsInNext(ws: seq<Span>, i: nat)
    requires i < |ws|
    ensures forall k :: EndsIn(ws[..i + 1], k) <==> EndsIn(ws[..i], k) || k == ws[i].eq
  {
    assert ws[..i + 1] == ws[..i] + [ws[i]];
  }

  lemma EndsOfExec(argv: seq<Span>)
    ensures forall k :: k in Ends(Exec(argv)) <==> EndsIn(argv, k)
  {
  }

  lemma EndsParts(c: Cmd<Span>, sub: Cmd<Span>)
    requires c.Redir? && c.cmd == sub
    ensures Ends(c) == Ends(sub) + {c.file.eq} && SpanSet(sub) <= SpanSet(c) && c.file in SpanSet(c)
  {
    assert c.file in SpanSet(c);
  }

  lemma EndsPair(l: Cmd<Span>, r: Cmd<Span>)
    ensures Ends(Pipe(l, r)) == Ends(l) + Ends(r) && Ends(List(l, r)) == Ends(l) + Ends(r)
  {
  }

  /** parsecmd: the parse of the text up to the first NUL, with every word ended in place. What runcmd then reads in the
      buffer is the parsed command with its words as they were. */
  method ParseCommand(buf: array<char>) returns (r: Parse)
    requires exists k :: 0 <= k < buf.Length && buf[k] == NUL
    modifies buf
    ensures var s := UpToNul(old(buf[..])); r == ParseCmd(s) && (r.Ok? ==> Reads(buf[..], r.cmd) == Words(s, r.cmd))
  {
    var es := 0;
    while buf[es] != NUL
      invariant es < buf.Length && forall k :: 0 <= k < es ==> buf[k] != NUL
      decreases buf.Length - es
    {
      es := es + 1;
    }
    ghost var text := buf[..es];
    UpToNulIs(buf[..], es);
    assert buf[..][..es] == text;
    r := ParseLineAt(buf, 0, es);
    if r.Panic? {
      return;
    }
    LineGood(text, 0);
    Wider(text, r.cmd, 0, r.pos, es);
    var found, s := PeekAt(buf, r.pos, es, {});
    if s != es {
      return Panic;
    }
    assert forall w :: w in SpanSet(r.cmd) ==> w.eq <= es;
    ghost var before := buf[..];
    NulTerminate(buf, r.cmd);
    assert Terminated(text, r.cmd, buf[..]);
    ReadsAreWords(text, r.cmd, buf[..], r.cmd);
    r := Ok(r.cmd, es);
  }

  function UpToNul(b: string): string
  {
    CString(b, 0)
  }

  lemma UpToNulIs(b: string, es: nat)
    requires es < |b| && b[es] == NUL && forall k :: 0 <= k < es ==> b[k] != NUL
    ensures UpToNul(b) == b[..es]
  {
    CStringIs(b, 0, es);
  }
}
