/** The shell's grammar, what its recursive-descent parser computes as a function on text, and that the parser accepts
    exactly the grammar and gives its meaning. */
module ShellSyntax {

  const NUL: char := '\0'
  const MAXARGS: nat := 10

  /** A command over words of type W: spans of the input while parsing, strings in their meaning. */
  datatype Cmd<W> =
    | Exec(argv: seq<W>)
    | Redir(cmd: Cmd<W>, file: W, out: bool)
    | Pipe(left: Cmd<W>, right: Cmd<W>)
    | List(left: Cmd<W>, right: Cmd<W>)
    | Back(cmd: Cmd<W>)

  /** A word of the input, from q up to eq. */
  datatype Span = Span(q: nat, eq: nat)

  datatype Token = Token(ret: char, q: nat, eq: nat, next: nat)

  datatype Parse = Ok(cmd: Cmd<Span>, pos: nat) | Panic

  predicate White(c: char)
  {
    c == ' ' || c == '\t' || c == '\r' || c == '\n' || c == '\U{B}'
  }

  predicate Symbol(c: char)
  {
    c == '<' || c == '|' || c == '>' || c == '&' || c == ';' || c == '(' || c == ')'
  }

  /** What a word consists of. */
  predicate WordChar(c: char)
  {
    c != NUL && !White(c) && !Symbol(c)
  }

  /** *(s + i), where the string ends in a NUL. */
  function At(s: string, i: nat): char
  {
    if i < |s| then s[i] else NUL
  }

  function Skip(s: string, i: nat): (r: nat)
    requires i <= |s|
    ensures i <= r <= |s|
    decreases |s| - i
  {
    if i < |s| && White(s[i]) then Skip(s, i + 1) else i
  }

  function WordEnd(s: string, i: nat): (r: nat)
    requires i <= |s|
    ensures i <= r <= |s|
    decreases |s| - i
  {
    if i < |s| && WordChar(s[i]) then WordEnd(s, i + 1) else i
  }

  /** A blank-free position is where skipping ends; a word ends where its characters do. */
  lemma {:induction false} WordEndIs(s: string, i: nat, j: nat)
    requires i <= j <= |s| && (forall k :: i <= k < j ==> WordChar(s[k])) && (j < |s| ==> !WordChar(s[j]))
    ensures WordEnd(s, i) == j
    decreases j - i
  {
    if i < j {
      WordEndIs(s, i + 1, j);
    }
  }

  lemma {:induction false} SkipEnds(s: string, i: nat)
    requires i <= |s|
    ensures Skip(s, i) < |s| ==> !White(s[Skip(s, i)])
    decreases |s| - i
  {
    if i < |s| && White(s[i]) {
      SkipEnds(s, i + 1);
    }
  }

  /** gettoken at position i. */
  function GetToken(s: string, i: nat): (t: Token)
    requires i <= |s|
    ensures i <= t.q <= t.eq <= t.next <= |s|
    ensures t.ret != NUL ==> i < t.next
  {
    SkipEnds(s, i);
    var q := Skip(s, i);
    var c := At(s, q);
    if c == NUL then Token(NUL, q, q, q)
    else if c == '>' then
      if At(s, q + 1) == '>' then Token('+', q, q + 2, Skip(s, q + 2)) else Token('>', q, q + 1, Skip(s, q + 1))
    else if Symbol(c) then Token(c, q, q + 1, Skip(s, q + 1))
    else Token('a', q, WordEnd(s, q), Skip(s, WordEnd(s, q)))
  }

  /** peek: is the next character one of toks? */
  predicate Peek(s: string, i: nat, toks: set<char>)
    requires i <= |s|
  {
    At(s, Skip(s, i)) != NUL && At(s, Skip(s, i)) in toks
  }

  /** The argument goes to the command that the redirections surround. */
  function AddArg<W>(c: Cmd<W>, w: W): Cmd<W>
  {
    match c
    case Exec(argv) => Exec(argv + [w])
    case Redir(sub, file, out) => Redir(AddArg(sub, w), file, out)
    case _ => c
  }

  function ParseRedirs(s: string, c: Cmd<Span>, i: nat): (r: Parse)
    requires i <= |s|
    ensures r.Ok? ==> i <= r.pos <= |s|
    decreases |s| - i, 0
  {
    if Peek(s, i, {'<', '>'}) then
      var op := GetToken(s, i);
      var file := GetToken(s, op.next);
      if file.ret != 'a' then Panic
      else ParseRedirs(s, Redir(c, Span(file.q, file.eq), op.ret != '<'), file.next)
    else Ok(c, Skip(s, i))
  }

  /** parseexec's loop over the arguments. */
  function ParseArgs(s: string, c: Cmd<Span>, i: nat, argc: nat): (r: Parse)
    requires i <= |s|
    ensures r.Ok? ==> i <= r.pos <= |s|
    decreases |s| - i, 0
  {
    if Peek(s, i, {'|', ')', '&', ';'}) then Ok(c, Skip(s, i))
    else
      var t := GetToken(s, i);
      if t.ret == NUL then Ok(c, t.next)
      else if t.ret != 'a' || argc + 1 >= MAXARGS then Panic
      else
        match ParseRedirs(s, AddArg(c, Span(t.q, t.eq)), t.next)
        case Panic => Panic
        case Ok(c', p) => ParseArgs(s, c', p, argc + 1)
  }

  function ParseBlock(s: string, i: nat): (r: Parse)
    requires i <= |s|
    ensures r.Ok? ==> i <= r.pos <= |s|
    decreases |s| - i, 1
  {
    if !Peek(s, i, {'('}) then Panic
    else
      match ParseLine(s, GetToken(s, i).next)
      case Panic => Panic
      case Ok(c, p) => if !Peek(s, p, {')'}) then Panic else ParseRedirs(s, c, GetToken(s, p).next)
  }

  function ParseExec(s: string, i: nat): (r: Parse)
    requires i <= |s|
    ensures r.Ok? ==> i <= r.pos <= |s|
    decreases |s| - i, 2
  {
    if Peek(s, i, {'('}) then ParseBlock(s, i)
    else
      match ParseRedirs(s, Exec([]), i)
      case Panic => Panic
      case Ok(c, p) => ParseArgs(s, c, p, 0)
  }

  function ParsePipe(s: string, i: nat): (r: Parse)
    requires i <= |s|
    ensures r.Ok? ==> i <= r.pos <= |s|
    decreases |s| - i, 3
  {
    match ParseExec(s, i)
    case Panic => Panic
    case Ok(c, p) =>
      if Peek(s, p, {'|'}) then
        match ParsePipe(s, GetToken(s, p).next)
        case Panic => Panic
        case Ok(d, e) => Ok(Pipe(c, d), e)
      else Ok(c, Skip(s, p))
  }

  /** parseline after its first command: any number of &, then perhaps ; and the rest. */
  function ParseBacks(s: string, c: Cmd<Span>, i: nat): (r: Parse)
    requires i <= |s|
    ensures r.Ok? ==> i <= r.pos <= |s|
    decreases |s| - i, 4
  {
    if Peek(s, i, {'&'}) then ParseBacks(s, Back(c), GetToken(s, i).next)
    else if Peek(s, i, {';'}) then
      match ParseLine(s, GetToken(s, i).next)
      case Panic => Panic
      case Ok(d, e) => Ok(List(c, d), e)
    else Ok(c, Skip(s, i))
  }

  function ParseLine(s: string, i: nat): (r: Parse)
    requires i <= |s|
    ensures r.Ok? ==> i <= r.pos <= |s|
    decreases |s| - i, 5
  {
    match ParsePipe(s, i)
    case Panic => Panic
    case Ok(c, p) => ParseBacks(s, c, p)
  }

  /** parsecmd before it terminates the words. */
  function ParseCmd(s: string): Parse
  {
    match ParseLine(s, 0)
    case Panic => Panic
    case Ok(c, p) => if Skip(s, p) != |s| then Panic else Ok(c, |s|)
  }

  // ---------- Words and printing ----------

  function Text(s: string, w: Span): string
  {
    if w.q <= w.eq <= |s| then s[w.q..w.eq] else ""
  }

  function Texts(s: string, ws: seq<Span>): (r: seq<string>)
    ensures |r| == |ws|
  {
    if ws == [] then [] else Texts(s, ws[..|ws|-1]) + [Text(s, ws[|ws|-1])]
  }

  /** The command with its words spelled out. */
  function Words(s: string, c: Cmd<Span>): Cmd<string>
  {
    match c
    case Exec(argv) => Exec(Texts(s, argv))
    case Redir(sub, file, out) => Redir(Words(s, sub), Text(s, file), out)
    case Pipe(l, r) => Pipe(Words(s, l), Words(s, r))
    case List(l, r) => List(Words(s, l), Words(s, r))
    case Back(sub) => Back(Words(s, sub))
  }

  predicate LegalWord(w: string)
  {
    w != "" && forall k :: 0 <= k < |w| ==> WordChar(w[k])
  }

  /** Words that can be written down, and no more arguments than a command takes. */
  predicate Legal(t: Cmd<string>)
  {
    match t
    case Exec(argv) => |argv| < MAXARGS && forall k :: 0 <= k < |argv| ==> LegalWord(argv[k])
    case Redir(sub, file, out) => Legal(sub) && LegalWord(file)
    case Pipe(l, r) => Legal(l) && Legal(r)
    case List(l, r) => Legal(l) && Legal(r)
    case Back(sub) => Legal(sub)
  }

  // ---------- What gettoken and peek see ----------

  /** gettoken, character by character: it skips blanks, takes one symbol, a double >, or all that is neither blank nor
      symbol, and skips blanks again. */
  lemma TokenExact(s: string, i: nat)
    requires i <= |s|
    ensures var t, blanks := GetToken(s, i), {' ', '\t', '\r', '\n', '\U{B}'};
      var symbols := {'<', '|', '>', '&', ';', '(', ')'};
      && (forall k :: i <= k < t.q ==> s[k] in blanks) && (t.q < |s| ==> s[t.q] !in blanks)
      && (forall k :: t.eq <= k < t.next ==> s[k] in blanks) && (t.ret != NUL && t.next < |s| ==> s[t.next] !in blanks)
      && (t.q == |s| || s[t.q] == '\0' ==> t.ret == '\0' && t.eq == t.q)
      && (t.q < |s| && s[t.q] in symbols ==>
            if s[t.q] == '>' && t.q + 1 < |s| && s[t.q + 1] == '>' then t.ret == '+' && t.eq == t.q + 2
            else t.ret == s[t.q] && t.eq == t.q + 1)
      && (t.q < |s| && s[t.q] != '\0' && s[t.q] !in symbols ==>
            && t.ret == 'a' && t.q < t.eq
            && (forall k :: t.q <= k < t.eq ==> s[k] != '\0' && s[k] !in blanks && s[k] !in symbols)
            && (t.eq < |s| ==> s[t.eq] == '\0' || s[t.eq] in blanks || s[t.eq] in symbols))
  {
    SkipExact(s, i);
    var q := Skip(s, i);
    if q < |s| && WordChar(s[q]) {
      WordEndStops(s, q);
      SkipExact(s, WordEnd(s, q));
    } else if q < |s| && s[q] != NUL {
      SkipExact(s, q + 1);
      if At(s, q + 1) == '>' {
        SkipExact(s, q + 2);
      }
    }
  }

  lemma {:induction false} SkipExact(s: string, i: nat)
    requires i <= |s|
    ensures forall k :: i <= k < Skip(s, i) ==> White(s[k])
    ensures (Skip(s, i) < |s| ==> !White(s[Skip(s, i)])) && Skip(s, Skip(s, i)) == Skip(s, i)
    decreases |s| - i
  {
    if i < |s| && White(s[i]) {
      SkipExact(s, i + 1);
    }
  }

  lemma {:induction false} WordEndStops(s: string, i: nat)
    requires i <= |s|
    ensures forall k :: i <= k < WordEnd(s, i) ==> WordChar(s[k])
    ensures !WordChar(At(s, WordEnd(s, i)))
    decreases |s| - i
  {
    if i < |s| && WordChar(s[i]) {
      WordEndStops(s, i + 1);
    }
  }

  /** Having moved past blanks makes no difference to what is found next; and a token leaves none behind. */
  lemma SkipTwice(s: string, i: nat)
    requires i <= |s|
    ensures Skip(s, Skip(s, i)) == Skip(s, i) && GetToken(s, Skip(s, i)) == GetToken(s, i)
    ensures forall toks :: Peek(s, Skip(s, i), toks) == Peek(s, i, toks)
    ensures GetToken(s, i).ret == NUL ==> GetToken(s, i).next == Skip(s, i)
    ensures GetToken(s, i).ret != NUL ==> Skip(s, GetToken(s, i).next) == GetToken(s, i).next
  {
    SkipExact(s, i);
    var q := Skip(s, i);
    if At(s, q) != NUL {
      var double := At(s, q) == '>' && At(s, q + 1) == '>';
      SkipExact(s, if WordChar(At(s, q)) then WordEnd(s, q) else if double then q + 2 else q + 1);
    }
  }

  /** peek for symbols looks at the token that gettoken will take; for a double > it sees the first. */
  lemma PeekIs(s: string, i: nat, toks: set<char>)
    requires i <= |s| && toks <= {'<', '|', '>', '&', ';', '(', ')'}
    ensures Peek(s, i, toks) <==> GetToken(s, i).ret in toks || (GetToken(s, i).ret == '+' && '>' in toks)
  {
  }

  // ---------- The grammar ----------

  datatype Tok = Sym(c: char) | Word(w: string)

  function TokenText(s: string, t: Token): Tok
    requires t.q <= t.eq <= |s|
  {
    if t.ret == 'a' then Word(s[t.q..t.eq]) else Sym(t.ret)
  }

  /** From position i the text has exactly these tokens, up to position j and the blanks before it. */
  predicate Spells(s: string, i: nat, toks: seq<Tok>, j: nat)
    decreases |toks|
  {
    i <= |s| &&
    if toks == [] then j == Skip(s, i)
    else
      var t := GetToken(s, i);
      t.ret != NUL && TokenText(s, t) == toks[0] && Spells(s, t.next, toks[1..], j)
  }

  /** <, > or, for >>, + and a file. */
  datatype Redirection = Redirection(op: char, file: string)

  datatype Item = Arg(word: string) | Into(r: Redirection)

  /** Words and redirections in any order, or a line in parentheses and then redirections. */
  datatype Command = Simple(items: seq<Item>) | Block(line: Line, redirs: seq<Redirection>)

  /** Commands with | between them. */
  datatype Pipeline = Last(c: Command) | Piped(c: Command, rest: Pipeline)

  /** A pipeline with any number of & after it, and then perhaps ; and another line. */
  datatype Line = End(p: Pipeline, backs: nat) | Then(p: Pipeline, backs: nat, rest: Line)

  function ItemToks(items: seq<Item>): seq<Tok>
  {
    if items == [] then []
    else (if items[0].Arg? then [Word(items[0].word)] else RedirToks([items[0].r])) + ItemToks(items[1..])
  }

  function RedirToks(rs: seq<Redirection>): seq<Tok>
  {
    if rs == [] then [] else [Sym(rs[0].op), Word(rs[0].file)] + RedirToks(rs[1..])
  }

  function CommandToks(c: Command): seq<Tok>
    decreases c, 1
  {
    match c
    case Simple(items) => ItemToks(items)
    case Block(line, redirs) => [Sym('(')] + (LineToks(line) + ([Sym(')')] + RedirToks(redirs)))
  }

  function PipelineToks(p: Pipeline): seq<Tok>
  {
    match p
    case Last(c) => CommandToks(c)
    case Piped(c, rest) => CommandToks(c) + ([Sym('|')] + PipelineToks(rest))
  }

  function BackToks(n: nat): seq<Tok>
  {
    if n == 0 then [] else [Sym('&')] + BackToks(n - 1)
  }

  function LineToks(l: Line): seq<Tok>
  {
    match l
    case End(p, n) => PipelineToks(p) + BackToks(n)
    case Then(p, n, rest) => PipelineToks(p) + (BackToks(n) + ([Sym(';')] + LineToks(rest)))
  }

  function WordsOf(items: seq<Item>): seq<string>
  {
    if items == [] then []
    else (if items[0].Arg? then [items[0].word] else []) + WordsOf(items[1..])
  }

  function RedirsOf(items: seq<Item>): seq<Redirection>
  {
    if items == [] then []
    else (if items[0].Arg? then [] else [items[0].r]) + RedirsOf(items[1..])
  }

  predicate IsRedir(op: char)
  {
    op == '<' || op == '>' || op == '+'
  }

  predicate LegalRedirs(rs: seq<Redirection>)
  {
    forall k :: 0 <= k < |rs| ==> IsRedir(rs[k].op)
  }

  /** At most nine words to a command. */
  predicate LegalCommand(c: Command)
  {
    match c
    case Simple(items) => |WordsOf(items)| <= 9 && LegalRedirs(RedirsOf(items))
    case Block(line, redirs) => LegalLine(line) && LegalRedirs(redirs)
  }

  predicate LegalPipeline(p: Pipeline)
  {
    LegalCommand(p.c) && (p.Piped? ==> LegalPipeline(p.rest))
  }

  predicate LegalLine(l: Line)
  {
    LegalPipeline(l.p) && (l.Then? ==> LegalLine(l.rest))
  }

  /** A command inside these redirections, the first of them innermost. */
  function Wrap(c: Cmd<string>, rs: seq<Redirection>): Cmd<string>
  {
    if rs == [] then c
    else Redir(Wrap(c, rs[..|rs|-1]), rs[|rs|-1].file, rs[|rs|-1].op != '<')
  }

  function CommandMeans(c: Command): Cmd<string>
  {
    match c
    case Simple(items) => Wrap(Exec(WordsOf(items)), RedirsOf(items))
    case Block(line, redirs) => Wrap(LineMeans(line), redirs)
  }

  function PipelineMeans(p: Pipeline): Cmd<string>
  {
    match p
    case Last(c) => CommandMeans(c)
    case Piped(c, rest) => Pipe(CommandMeans(c), PipelineMeans(rest))
  }

  function InBack(c: Cmd<string>, n: nat): Cmd<string>
  {
    if n == 0 then c else Back(InBack(c, n - 1))
  }

  function LineMeans(l: Line): Cmd<string>
  {
    match l
    case End(p, n) => InBack(PipelineMeans(p), n)
    case Then(p, n, rest) => List(InBack(PipelineMeans(p), n), LineMeans(rest))
  }

  // ---------- Token sequences ----------

  lemma {:induction false} SpellsSplit(s: string, i: nat, a: seq<Tok>, b: seq<Tok>, j: nat) returns (m: nat)
    requires Spells(s, i, a + b, j)
    ensures Spells(s, i, a, m) && Spells(s, m, b, j) && m <= |s| && i <= |s| && Skip(s, m) == m
    decreases |a|
  {
    SkipTwice(s, i);
    if a == [] {
      assert a + b == b;
      m := Skip(s, i);
      SpellsSkipped(s, i, b, j);
    } else {
      assert (a + b)[0] == a[0] && (a + b)[1..] == a[1..] + b;
      m := SpellsSplit(s, GetToken(s, i).next, a[1..], b, j);
    }
  }

  lemma SpellsSkipped(s: string, i: nat, toks: seq<Tok>, j: nat)
    requires i <= |s|
    ensures Spells(s, i, toks, j) <==> Spells(s, Skip(s, i), toks, j)
  {
    SkipTwice(s, i);
  }

  lemma {:induction false} SpellsJoin(s: string, i: nat, a: seq<Tok>, m: nat, b: seq<Tok>, j: nat)
    requires Spells(s, i, a, m) && Spells(s, m, b, j)
    ensures Spells(s, i, a + b, j)
    decreases |a|
  {
    hide GetToken;
    if a == [] {
      assert a + b == b;
      SpellsSkipped(s, i, b, j);
    } else {
      assert (a + b)[0] == a[0] && (a + b)[1..] == a[1..] + b;
      SpellsJoin(s, GetToken(s, i).next, a[1..], m, b, j);
    }
  }

  /** A single symbol. */
  lemma SpellsOne(s: string, i: nat, c: char, j: nat)
    requires i <= |s| && c != 'a'
    ensures Spells(s, i, [Sym(c)], j) <==> GetToken(s, i).ret == c && c != NUL && j == GetToken(s, i).next
  {
    SkipTwice(s, i);
    assert [Sym(c)][1..] == [];
  }

  /** What comes next. */
  predicate Follows(s: string, j: nat, rets: set<char>)
  {
    j <= |s| && GetToken(s, j).ret in rets
  }

  // ---------- Words and redirections ----------

  /** parseexec after its start: redirections, and then the loop over the arguments. */
  function ParseRest(s: string, c: Cmd<Span>, i: nat, argc: nat): Parse
    requires i <= |s|
  {
    match ParseRedirs(s, c, i)
    case Panic => Panic
    case Ok(c', p) => ParseArgs(s, c', p, argc)
  }

  lemma RedirsIs(s: string, c: Cmd<Span>, i: nat)
    requires i <= |s|
    ensures var t := GetToken(s, i);
      ParseRedirs(s, c, i) ==
        if !IsRedir(t.ret) then Ok(c, Skip(s, i))
        else
          var f := GetToken(s, t.next);
          if f.ret != 'a' then Panic else ParseRedirs(s, Redir(c, Span(f.q, f.eq), t.ret != '<'), f.next)
  {
    PeekIs(s, i, {'<', '>'});
    hide GetToken, Peek;
  }

  lemma ArgsIs(s: string, c: Cmd<Span>, i: nat, argc: nat)
    requires i <= |s|
    ensures var t := GetToken(s, i);
      ParseArgs(s, c, i, argc) ==
        if t.ret in {'|', ')', '&', ';', NUL} then Ok(c, Skip(s, i))
        else if t.ret != 'a' || argc + 1 >= MAXARGS then Panic
        else ParseRest(s, AddArg(c, Span(t.q, t.eq)), t.next, argc + 1)
  {
    PeekIs(s, i, {'|', ')', '&', ';'});
    SkipTwice(s, i);
    hide GetToken, Peek, Skip, AddArg, ParseRedirs;
  }

  lemma ArgsSkipped(s: string, c: Cmd<Span>, i: nat, argc: nat)
    requires i <= |s|
    ensures ParseArgs(s, c, Skip(s, i), argc) == ParseArgs(s, c, i, argc)
  {
    ArgsIs(s, c, i, argc);
    ArgsIs(s, c, Skip(s, i), argc);
    SkipTwice(s, i);
    hide GetToken, Peek, Skip, AddArg, ParseRest, ParseArgs;
  }

  lemma RestIs(s: string, c: Cmd<Span>, i: nat, argc: nat)
    requires i <= |s|
    ensures var t := GetToken(s, i);
      ParseRest(s, c, i, argc) ==
        if IsRedir(t.ret) then
          var f := GetToken(s, t.next);
          if f.ret != 'a' then Panic else ParseRest(s, Redir(c, Span(f.q, f.eq), t.ret != '<'), f.next, argc)
        else if t.ret in {'|', ')', '&', ';', NUL} then Ok(c, Skip(s, i))
        else if t.ret != 'a' || argc + 1 >= MAXARGS then Panic
        else ParseRest(s, AddArg(c, Span(t.q, t.eq)), t.next, argc + 1)
  {
    RedirsIs(s, c, i);
    ArgsSkipped(s, c, i, argc);
    ArgsIs(s, c, i, argc);
    hide GetToken, Peek, Skip, AddArg, ParseRedirs, ParseArgs;
  }

  /** An argument joins the words, whatever redirections surround them. */
  lemma {:induction false} ArgAdded(s: string, c: Cmd<Span>, ws: seq<string>, rs: seq<Redirection>, w: Span)
    requires Words(s, c) == Wrap(Exec(ws), rs)
    ensures Words(s, AddArg(c, w)) == Wrap(Exec(ws + [Text(s, w)]), rs)
    decreases |rs|
  {
    if rs == [] {
      var c' := AddArg(c, w);
      assert c'.argv[..|c'.argv|-1] == c.argv;
    } else {
      ArgAdded(s, c.cmd, ws, rs[..|rs|-1], w);
    }
  }

  lemma RedirAdded(s: string, c: Cmd<Span>, m: Cmd<string>, rs: seq<Redirection>, op: char, f: Span)
    requires Words(s, c) == Wrap(m, rs)
    ensures Words(s, Redir(c, f, op != '<')) == Wrap(m, rs + [Redirection(op, Text(s, f))])
  {
    var rs' := rs + [Redirection(op, Text(s, f))];
    assert rs'[..|rs'|-1] == rs;
  }

  /** The tokens of a redirection. */
  lemma RedirSpells(s: string, i: nat, r: Redirection, rest: seq<Tok>, j: nat)
    requires i <= |s| && IsRedir(r.op)
    ensures Spells(s, i, [Sym(r.op), Word(r.file)] + rest, j) <==>
      (var t := GetToken(s, i);
       var f := GetToken(s, t.next);
       t.ret == r.op && f.ret == 'a' && s[f.q..f.eq] == r.file && Spells(s, f.next, rest, j))
  {
    hide GetToken;
    var toks := [Sym(r.op), Word(r.file)] + rest;
    assert toks[1..] == [Word(r.file)] + rest && toks[1..][1..] == rest;
  }

  lemma WordSpells(s: string, i: nat, w: string, rest: seq<Tok>, j: nat)
    requires i <= |s|
    ensures Spells(s, i, [Word(w)] + rest, j) <==>
      (var t := GetToken(s, i); t.ret == 'a' && s[t.q..t.eq] == w && Spells(s, t.next, rest, j))
  {
    hide GetToken;
    var toks := [Word(w)] + rest;
    assert toks[1..] == rest;
  }

  lemma {:induction false} RedirsParse(s: string, c: Cmd<Span>, i: nat, m: Cmd<string>, done: seq<Redirection>,
                                       rs: seq<Redirection>, j: nat) returns (c': Cmd<Span>)
    requires Words(s, c) == Wrap(m, done) && Spells(s, i, RedirToks(rs), j) && LegalRedirs(rs) && i <= |s|
    requires j <= |s| && !IsRedir(GetToken(s, j).ret)
    ensures ParseRedirs(s, c, i) == Ok(c', j) && Words(s, c') == Wrap(m, done + rs)
    decreases |rs|
  {
    RedirsIs(s, c, i);
    NoneLeft(s, i, j);
    hide GetToken, Skip, Spells, ParseRedirs, Words, Wrap, RedirToks, LegalRedirs, IsRedir;
    if rs == [] {
      RedirsNone(done);
      c' := c;
    } else {
      var r, rest := rs[0], rs[1..];
      assert rs == [r] + rest;
      RedirsStep(r, rest, done);
      RedirSpells(s, i, r, RedirToks(rest), j);
      var t := GetToken(s, i);
      var f := GetToken(s, t.next);
      RedirAdded(s, c, m, done, t.ret, Span(f.q, f.eq));
      c' := RedirsParse(s, Redir(c, Span(f.q, f.eq), t.ret != '<'), f.next, m, done + [r], rest, j);
    }
  }

  /** No tokens reach up to the next character. */
  lemma NoneLeft(s: string, i: nat, j: nat)
    requires i <= |s|
    ensures Spells(s, i, [], j) <==> j == Skip(s, i)
    ensures j == Skip(s, i) ==> GetToken(s, j) == GetToken(s, i)
  {
    SkipTwice(s, i);
  }

  lemma RedirsNone(done: seq<Redirection>)
    ensures RedirToks([]) == [] && LegalRedirs([]) && done + [] == done
  {
  }

  lemma RedirsStep(r: Redirection, rest: seq<Redirection>, done: seq<Redirection>)
    ensures RedirToks([r] + rest) == [Sym(r.op), Word(r.file)] + RedirToks(rest)
    ensures done + ([r] + rest) == done + [r] + rest
    ensures LegalRedirs([r] + rest) <==> IsRedir(r.op) && LegalRedirs(rest)
  {
    hide IsRedir;
    var rs := [r] + rest;
    assert rs[0] == r && rs[1..] == rest && forall k :: 0 <= k < |rest| ==> rest[k] == rs[k + 1];
  }

  lemma {:induction false} RedirsSound(s: string, c: Cmd<Span>, i: nat, m: Cmd<string>,
                                       done: seq<Redirection>) returns (rs: seq<Redirection>)
    requires i <= |s| && Words(s, c) == Wrap(m, done) && ParseRedirs(s, c, i).Ok?
    ensures var r := ParseRedirs(s, c, i);
      && LegalRedirs(rs) && Spells(s, i, RedirToks(rs), r.pos) && Words(s, r.cmd) == Wrap(m, done + rs)
    decreases |s| - i
  {
    RedirsIs(s, c, i);
    NoneLeft(s, i, Skip(s, i));
    hide GetToken, Skip, Spells, ParseRedirs, Words, Wrap, RedirToks, LegalRedirs, IsRedir;
    var t := GetToken(s, i);
    if IsRedir(t.ret) {
      var f := GetToken(s, t.next);
      RedirAdded(s, c, m, done, t.ret, Span(f.q, f.eq));
      var r := Redirection(t.ret, s[f.q..f.eq]);
      var rest := RedirsSound(s, Redir(c, Span(f.q, f.eq), t.ret != '<'), f.next, m, done + [r]);
      rs := [r] + rest;
      RedirsStep(r, rest, done);
      RedirSpells(s, i, r, RedirToks(rest), ParseRedirs(s, c, i).pos);
    } else {
      rs := [];
      RedirsNone(done);
    }
  }

  /** Any words and redirections, in any order: the words become the arguments in order, inside the redirections in
      order. */
  lemma {:induction false} ItemsParse(s: string, c: Cmd<Span>, i: nat, ws: seq<string>, rs: seq<Redirection>,
                                      items: seq<Item>, j: nat) returns (c': Cmd<Span>)
    requires Words(s, c) == Wrap(Exec(ws), rs) && Spells(s, i, ItemToks(items), j) && LegalRedirs(RedirsOf(items))
    requires |ws| + |WordsOf(items)| < MAXARGS && i <= |s| && Follows(s, j, {'|', ')', '&', ';', NUL})
    ensures ParseRest(s, c, i, |ws|) == Ok(c', j)
    ensures Words(s, c') == Wrap(Exec(ws + WordsOf(items)), rs + RedirsOf(items))
    decreases |items|
  {
    hide GetToken, Skip, Spells, Follows, ParseRest, Words, Wrap, AddArg, ItemToks, WordsOf, RedirsOf, LegalRedirs,
         IsRedir;
    if items == [] {
      ItemsNone(ws, rs);
      RestEnds(s, c, i, |ws|, j);
      c' := c;
    } else {
      var item, rest := items[0], items[1..];
      assert items == [item] + rest;
      ItemsStep(item, rest, ws, rs);
      var t := GetToken(s, i);
      match item
      case Arg(w) =>
        WordSpells(s, i, w, ItemToks(rest), j);
        TakeWord(s, c, i, ws, rs);
        c' := ItemsParse(s, AddArg(c, Span(t.q, t.eq)), t.next, ws + [w], rs, rest, j);
      case Into(r) =>
        RedirSpells(s, i, r, ItemToks(rest), j);
        TakeRedir(s, c, i, ws, rs);
        var f := GetToken(s, t.next);
        c' := ItemsParse(s, Redir(c, Span(f.q, f.eq), t.ret != '<'), f.next, ws, rs + [r], rest, j);
    }
  }

  lemma NotRedir(c: char)
    ensures c in {'|', ')', '&', ';', NUL} ==> !IsRedir(c)
  {
  }

  lemma RestEnds(s: string, c: Cmd<Span>, i: nat, argc: nat, j: nat)
    requires i <= |s| && Spells(s, i, [], j) && Follows(s, j, {'|', ')', '&', ';', NUL})
    ensures ParseRest(s, c, i, argc) == Ok(c, j)
  {
    NoneLeft(s, i, j);
    RestIs(s, c, i, argc);
    hide GetToken, Skip, ParseRest;
  }

  /** What an argument loop that succeeds finds. */
  lemma RestCases(s: string, c: Cmd<Span>, i: nat, argc: nat)
    requires i <= |s| && ParseRest(s, c, i, argc).Ok?
    ensures var t := GetToken(s, i);
      if IsRedir(t.ret) then GetToken(s, t.next).ret == 'a'
      else if t.ret == 'a' then argc + 1 < MAXARGS
      else ParseRest(s, c, i, argc) == Ok(c, Skip(s, i)) && Spells(s, i, [], Skip(s, i))
  {
    RestIs(s, c, i, argc);
    NoneLeft(s, i, Skip(s, i));
    hide GetToken, Skip, ParseRest, IsRedir;
  }

  lemma TakeWord(s: string, c: Cmd<Span>, i: nat, ws: seq<string>, rs: seq<Redirection>)
    requires i <= |s| && GetToken(s, i).ret == 'a' && |ws| + 1 < MAXARGS && Words(s, c) == Wrap(Exec(ws), rs)
    ensures var t := GetToken(s, i);
      var d := AddArg(c, Span(t.q, t.eq));
      && ParseRest(s, c, i, |ws|) == ParseRest(s, d, t.next, |ws| + 1)
      && Words(s, d) == Wrap(Exec(ws + [s[t.q..t.eq]]), rs)
  {
    hide GetToken, Skip, ParseRest, AddArg, Words, Wrap;
    var t := GetToken(s, i);
    RestWord(s, c, i, |ws|);
    ArgAdded(s, c, ws, rs, Span(t.q, t.eq));
    assert Text(s, Span(t.q, t.eq)) == s[t.q..t.eq];
  }

  lemma RestWord(s: string, c: Cmd<Span>, i: nat, argc: nat)
    requires i <= |s| && GetToken(s, i).ret == 'a' && argc + 1 < MAXARGS
    ensures var t := GetToken(s, i);
      ParseRest(s, c, i, argc) == ParseRest(s, AddArg(c, Span(t.q, t.eq)), t.next, argc + 1)
  {
    hide GetToken, Skip, ParseRest, AddArg;
    RestIs(s, c, i, argc);
  }

  lemma TakeRedir(s: string, c: Cmd<Span>, i: nat, ws: seq<string>, rs: seq<Redirection>)
    requires i <= |s| && IsRedir(GetToken(s, i).ret) && GetToken(s, GetToken(s, i).next).ret == 'a'
    requires Words(s, c) == Wrap(Exec(ws), rs)
    ensures var t := GetToken(s, i);
      var f := GetToken(s, t.next);
      var d := Redir(c, Span(f.q, f.eq), t.ret != '<');
      && ParseRest(s, c, i, |ws|) == ParseRest(s, d, f.next, |ws|)
      && Words(s, d) == Wrap(Exec(ws), rs + [Redirection(t.ret, s[f.q..f.eq])])
  {
    hide GetToken, Skip, ParseRest, IsRedir, Words, Wrap;
    var t := GetToken(s, i);
    var f := GetToken(s, t.next);
    RestIs(s, c, i, |ws|);
    RedirAdded(s, c, Exec(ws), rs, t.ret, Span(f.q, f.eq));
  }

  lemma ItemsNone(ws: seq<string>, rs: seq<Redirection>)
    ensures ItemToks([]) == [] && ws + WordsOf([]) == ws && rs + RedirsOf([]) == rs && LegalRedirs(RedirsOf([]))
    ensures WordsOf([]) == []
  {
  }

  lemma ItemsStep(item: Item, rest: seq<Item>, ws: seq<string>, rs: seq<Redirection>)
    ensures item.Arg? ==>
        && ItemToks([item] + rest) == [Word(item.word)] + ItemToks(rest)
        && ws + WordsOf([item] + rest) == ws + [item.word] + WordsOf(rest) && RedirsOf([item] + rest) == RedirsOf(rest)
        && |WordsOf([item] + rest)| == 1 + |WordsOf(rest)|
    ensures item.Into? ==>
        && ItemToks([item] + rest) == [Sym(item.r.op), Word(item.r.file)] + ItemToks(rest)
        && rs + RedirsOf([item] + rest) == rs + [item.r] + RedirsOf(rest) && WordsOf([item] + rest) == WordsOf(rest)
        && (LegalRedirs(RedirsOf([item] + rest)) <==> IsRedir(item.r.op) && LegalRedirs(RedirsOf(rest)))
  {
    hide IsRedir, LegalRedirs;
    var items := [item] + rest;
    assert items[0] == item && items[1..] == rest;
    if item.Into? {
      RedirsStep(item.r, [], []);
      assert [item.r] + [] == [item.r];
      assert [Sym(item.r.op), Word(item.r.file)] + RedirToks([]) == [Sym(item.r.op), Word(item.r.file)];
      RedirsStep(item.r, RedirsOf(rest), rs);
    }
  }

  lemma {:induction false} ItemsSound(s: string, c: Cmd<Span>, i: nat, ws: seq<string>,
                                      rs: seq<Redirection>) returns (items: seq<Item>)
    requires i <= |s| && Words(s, c) == Wrap(Exec(ws), rs) && |ws| < MAXARGS && ParseRest(s, c, i, |ws|).Ok?
    ensures Gathered(s, i, ws, rs, items, ParseRest(s, c, i, |ws|))
    decreases |s| - i
  {
    RestCases(s, c, i, |ws|);
    hide GetToken, Skip, Spells, ParseRest, Words, Wrap, AddArg, IsRedir, Gathered;
    var t, r := GetToken(s, i), ParseRest(s, c, i, |ws|);
    if IsRedir(t.ret) {
      var f := GetToken(s, t.next);
      var x := Redirection(t.ret, s[f.q..f.eq]);
      TakeRedir(s, c, i, ws, rs);
      var rest := ItemsSound(s, Redir(c, Span(f.q, f.eq), t.ret != '<'), f.next, ws, rs + [x]);
      items := [Into(x)] + rest;
      RedirGathered(s, i, ws, rs, rest, r);
    } else if t.ret == 'a' {
      var w := s[t.q..t.eq];
      TakeWord(s, c, i, ws, rs);
      var rest := ItemsSound(s, AddArg(c, Span(t.q, t.eq)), t.next, ws + [w], rs);
      items := [Arg(w)] + rest;
      WordGathered(s, i, ws, rs, rest, r);
    } else {
      items := [];
      NoneGathered(s, c, i, ws, rs);
    }
  }

  /** The command r stands for these words and redirections after those already taken. */
  predicate Gathered(s: string, i: nat, ws: seq<string>, rs: seq<Redirection>, items: seq<Item>, r: Parse)
  {
    && r.Ok? && LegalRedirs(RedirsOf(items)) && |ws| + |WordsOf(items)| < MAXARGS
    && Spells(s, i, ItemToks(items), r.pos)
    && Words(s, r.cmd) == Wrap(Exec(ws + WordsOf(items)), rs + RedirsOf(items))
  }

  lemma WordGathered(s: string, i: nat, ws: seq<string>, rs: seq<Redirection>, rest: seq<Item>, r: Parse)
    requires i <= |s| && GetToken(s, i).ret == 'a'
    requires var t := GetToken(s, i); Gathered(s, t.next, ws + [s[t.q..t.eq]], rs, rest, r)
    ensures var t := GetToken(s, i); Gathered(s, i, ws, rs, [Arg(s[t.q..t.eq])] + rest, r)
  {
    hide GetToken, Skip, Spells, Words, Wrap, ItemToks, WordsOf, RedirsOf, LegalRedirs;
    var w := s[GetToken(s, i).q..GetToken(s, i).eq];
    ItemsStep(Arg(w), rest, ws, rs);
    WordSpells(s, i, w, ItemToks(rest), r.pos);
  }

  lemma RedirGathered(s: string, i: nat, ws: seq<string>, rs: seq<Redirection>, rest: seq<Item>, r: Parse)
    requires i <= |s| && IsRedir(GetToken(s, i).ret) && GetToken(s, GetToken(s, i).next).ret == 'a'
    requires var t := GetToken(s, i);
      var f := GetToken(s, t.next);
      Gathered(s, f.next, ws, rs + [Redirection(t.ret, s[f.q..f.eq])], rest, r)
    ensures var t := GetToken(s, i);
      var f := GetToken(s, t.next);
      Gathered(s, i, ws, rs, [Into(Redirection(t.ret, s[f.q..f.eq]))] + rest, r)
  {
    hide GetToken, Skip, Spells, Words, Wrap, ItemToks, WordsOf, RedirsOf, LegalRedirs, IsRedir;
    var t := GetToken(s, i);
    var f := GetToken(s, t.next);
    var x := Redirection(t.ret, s[f.q..f.eq]);
    ItemsStep(Into(x), rest, ws, rs);
    RedirSpells(s, i, x, ItemToks(rest), r.pos);
  }

  lemma NoneGathered(s: string, c: Cmd<Span>, i: nat, ws: seq<string>, rs: seq<Redirection>)
    requires i <= |s| && |ws| < MAXARGS && Words(s, c) == Wrap(Exec(ws), rs) && Spells(s, i, [], Skip(s, i))
    ensures Gathered(s, i, ws, rs, [], Ok(c, Skip(s, i)))
  {
    hide GetToken, Skip, Spells, Words, Wrap;
    ItemsNone(ws, rs);
  }

  // ---------- Commands, pipelines and lines ----------

  lemma ExecIs(s: string, i: nat)
    requires i <= |s|
    ensures ParseExec(s, i) ==
      if GetToken(s, i).ret != '(' then ParseRest(s, Exec([]), i, 0)
      else
        var r := ParseLine(s, GetToken(s, i).next);
        if r.Panic? || GetToken(s, r.pos).ret != ')' then Panic
        else ParseRedirs(s, r.cmd, GetToken(s, r.pos).next)
  {
    PeekIs(s, i, {'('});
    var r := ParseLine(s, GetToken(s, i).next);
    if r.Ok? {
      PeekIs(s, r.pos, {')'});
    }
    hide GetToken, Peek, ParseLine, ParseRedirs, ParseArgs;
  }

  lemma PipeIs(s: string, i: nat)
    requires i <= |s|
    ensures ParsePipe(s, i) ==
      var r := ParseExec(s, i);
      if r.Panic? then Panic
      else if GetToken(s, r.pos).ret != '|' then Ok(r.cmd, Skip(s, r.pos))
      else
        var e := ParsePipe(s, GetToken(s, r.pos).next);
        if e.Panic? then Panic else Ok(Pipe(r.cmd, e.cmd), e.pos)
  {
    var r := ParseExec(s, i);
    if r.Ok? {
      PeekIs(s, r.pos, {'|'});
    }
    hide GetToken, Peek, ParseExec;
  }

  lemma BacksIs(s: string, c: Cmd<Span>, i: nat)
    requires i <= |s|
    ensures var t := GetToken(s, i);
      ParseBacks(s, c, i) ==
        if t.ret == '&' then ParseBacks(s, Back(c), t.next)
        else if t.ret != ';' then Ok(c, Skip(s, i))
        else
          var e := ParseLine(s, t.next);
          if e.Panic? then Panic else Ok(List(c, e.cmd), e.pos)
  {
    PeekIs(s, i, {'&'});
    PeekIs(s, i, {';'});
    hide GetToken, Peek, ParseLine;
  }

  lemma FirstTok(s: string, i: nat, items: seq<Item>, j: nat)
    requires Spells(s, i, ItemToks(items), j) && Follows(s, j, {'|', ')', '&', ';', NUL})
    requires LegalRedirs(RedirsOf(items))
    ensures i <= |s| && GetToken(s, i).ret != '('
  {
    SkipTwice(s, i);
    hide GetToken, Skip;
    if items != [] && items[0].Into? {
      RedirsStep(items[0].r, [], []);
      assert RedirsOf(items)[0] == items[0].r;
      assert ItemToks(items)[0] == Sym(items[0].r.op);
    }
  }

  lemma {:induction false} CommandParses(s: string, i: nat, c: Command, j: nat) returns (d: Cmd<Span>)
    requires LegalCommand(c) && Spells(s, i, CommandToks(c), j) && Follows(s, j, {'|', ')', '&', ';', NUL})
    ensures i <= |s| && ParseExec(s, i) == Ok(d, j) && Words(s, d) == CommandMeans(c)
    decreases c, 1
  {
    hide GetToken, Skip, ParseExec, ParseRest, ParseRedirs, ParseLine, Words, Wrap, ItemToks, RedirToks, LineToks,
         LegalLine, LineMeans, Spells, WordsOf, RedirsOf, LegalRedirs, IsRedir;
    match c
    case Simple(items) =>
      d := SimpleParses(s, i, items, j);
    case Block(line, redirs) =>
      var m, k, l := BlockSpells(s, i, LineToks(line), RedirToks(redirs), j);
      ExecIs(s, i);
      var e := LineParses(s, m, line, k);
      WrapNone(LineMeans(line));
      NotRedir(GetToken(s, j).ret);
      d := RedirsParse(s, e, l, LineMeans(line), [], redirs, j);
      assert [] + redirs == redirs;
  }

  lemma SimpleParses(s: string, i: nat, items: seq<Item>, j: nat) returns (d: Cmd<Span>)
    requires |WordsOf(items)| < MAXARGS && LegalRedirs(RedirsOf(items))
    requires Spells(s, i, ItemToks(items), j) && Follows(s, j, {'|', ')', '&', ';', NUL})
    ensures i <= |s| && ParseExec(s, i) == Ok(d, j) && Words(s, d) == Wrap(Exec(WordsOf(items)), RedirsOf(items))
  {
    hide GetToken, Skip, ParseExec, ParseRest, ParseLine, Words, Wrap, ItemToks, Spells, Follows, WordsOf, RedirsOf,
         LegalRedirs;
    FirstTok(s, i, items, j);
    ExecSimple(s, i);
    NoWords(s);
    d := ItemsParse(s, Exec([]), i, [], [], items, j);
    NothingFirst(WordsOf(items));
    NothingFirst(RedirsOf(items));
  }

  lemma ExecSimple(s: string, i: nat)
    requires i <= |s| && GetToken(s, i).ret != '('
    ensures ParseExec(s, i) == ParseRest(s, Exec([]), i, 0)
  {
    ExecIs(s, i);
    hide GetToken, ParseExec, ParseRest, ParseLine, ParseRedirs;
  }

  lemma NothingFirst<T>(xs: seq<T>)
    ensures [] + xs == xs
  {
  }

  /** Where the parts of a line in parentheses are. */
  lemma BlockSpells(s: string, i: nat, line: seq<Tok>, redirs: seq<Tok>, j: nat) returns (m: nat, k: nat, l: nat)
    requires Spells(s, i, [Sym('(')] + (line + ([Sym(')')] + redirs)), j)
    ensures i <= |s| && GetToken(s, i).ret == '(' && m == GetToken(s, i).next && Spells(s, m, line, k) && k <= |s|
    ensures GetToken(s, k).ret == ')' && l == GetToken(s, k).next && Spells(s, l, redirs, j)
  {
    hide GetToken, Skip, Spells;
    m := SpellsSplit(s, i, [Sym('(')], line + ([Sym(')')] + redirs), j);
    SpellsOne(s, i, '(', m);
    k := SpellsSplit(s, m, line, [Sym(')')] + redirs, j);
    l := SpellsSplit(s, k, [Sym(')')], redirs, j);
    SpellsOne(s, k, ')', l);
  }

  lemma NoWords(s: string)
    ensures Words(s, Exec([])) == Wrap(Exec([]), [])
  {
  }

  lemma WrapNone(m: Cmd<string>)
    ensures Wrap(m, []) == m
  {
  }

  lemma {:induction false} PipelineParses(s: string, i: nat, p: Pipeline, j: nat) returns (d: Cmd<Span>)
    requires LegalPipeline(p) && Spells(s, i, PipelineToks(p), j) && Follows(s, j, {')', '&', ';', NUL})
    ensures i <= |s| && ParsePipe(s, i) == Ok(d, j) && Words(s, d) == PipelineMeans(p)
    decreases p
  {
    hide GetToken, Skip, ParseExec, ParsePipe, CommandToks, Spells, LegalCommand, CommandMeans;
    match p
    case Last(c) =>
      d := CommandParses(s, i, c, j);
      PipeIs(s, i);
      SpellsEnd(s, i, CommandToks(c), j);
    case Piped(c, rest) =>
      var m := SpellsSplit(s, i, CommandToks(c), [Sym('|')] + PipelineToks(rest), j);
      var k := SpellsSplit(s, m, [Sym('|')], PipelineToks(rest), j);
      SpellsOne(s, m, '|', k);
      var a := CommandParses(s, i, c, m);
      PipeIs(s, i);
      var b := PipelineParses(s, k, rest, j);
      d := Pipe(a, b);
  }

  /** A token sequence ends where no blank is left. */
  lemma {:induction false} SpellsEnd(s: string, i: nat, toks: seq<Tok>, j: nat)
    requires Spells(s, i, toks, j)
    ensures i <= |s| && j <= |s| && Skip(s, j) == j
    decreases |toks|
  {
    SkipTwice(s, i);
    if toks != [] {
      SpellsEnd(s, GetToken(s, i).next, toks[1..], j);
    }
  }

  /** The & after a pipeline. */
  lemma {:induction false} BacksParse(s: string, c: Cmd<Span>, i: nat, n: nat, j: nat) returns (d: Cmd<Span>)
    requires i <= |s| && Spells(s, i, BackToks(n), j)
    ensures j <= |s| && ParseBacks(s, c, i) == ParseBacks(s, d, j) && Words(s, d) == InBack(Words(s, c), n)
    decreases n
  {
    SpellsEnd(s, i, BackToks(n), j);
    hide GetToken, Skip, ParseBacks, Spells, BackToks;
    if n == 0 {
      assert BackToks(0) == [];
      NoneLeft(s, i, j);
      BacksSkipped(s, c, i);
      d := c;
    } else {
      BackFirst(s, i, n, j);
      BacksIs(s, c, i);
      d := BacksParse(s, Back(c), GetToken(s, i).next, n - 1, j);
      InBackOut(Words(s, c), n - 1);
    }
  }

  lemma BackFirst(s: string, i: nat, n: nat, j: nat)
    requires n > 0 && Spells(s, i, BackToks(n), j)
    ensures i <= |s| && GetToken(s, i).ret == '&' && Spells(s, GetToken(s, i).next, BackToks(n - 1), j)
  {
    hide GetToken;
    assert BackToks(n)[1..] == BackToks(n - 1);
  }

  lemma {:induction false} InBackOut(m: Cmd<string>, n: nat)
    ensures InBack(Back(m), n) == Back(InBack(m, n))
  {
    if n > 0 {
      InBackOut(m, n - 1);
    }
  }

  lemma BacksSkipped(s: string, c: Cmd<Span>, i: nat)
    requires i <= |s|
    ensures ParseBacks(s, c, Skip(s, i)) == ParseBacks(s, c, i)
  {
    BacksIs(s, c, i);
    BacksIs(s, c, Skip(s, i));
    SkipTwice(s, i);
    hide GetToken, Skip, ParseBacks, ParseLine;
  }

  lemma LineIs(s: string, i: nat)
    requires i <= |s|
    ensures ParseLine(s, i) ==
      var r := ParsePipe(s, i);
      if r.Panic? then Panic else ParseBacks(s, r.cmd, r.pos)
  {
    hide ParsePipe, ParseBacks;
  }

  /** Any line of the grammar, at any place where the end or a closing parenthesis follows, is parsed into its
      meaning. */
  lemma {:induction false} LineParses(s: string, i: nat, l: Line, j: nat) returns (d: Cmd<Span>)
    requires LegalLine(l) && Spells(s, i, LineToks(l), j) && Follows(s, j, {')', NUL})
    ensures i <= |s| && ParseLine(s, i) == Ok(d, j) && Words(s, d) == LineMeans(l)
    decreases l
  {
    hide GetToken, Skip, ParsePipe, ParseLine, ParseBacks, PipelineToks, Spells, LegalPipeline, PipelineMeans, BackToks;
    SpellsEnd(s, i, LineToks(l), j);
    LineIs(s, i);
    match l
    case End(p, n) =>
      var m := SpellsSplit(s, i, PipelineToks(p), BackToks(n), j);
      BackFollows(s, m, n, j);
      var c := PipelineParses(s, i, p, m);
      d := BacksParse(s, c, m, n, j);
      BacksIs(s, d, j);
    case Then(p, n, rest) =>
      var m := SpellsSplit(s, i, PipelineToks(p), BackToks(n) + ([Sym(';')] + LineToks(rest)), j);
      var k := SpellsSplit(s, m, BackToks(n), [Sym(';')] + LineToks(rest), j);
      var x := SpellsSplit(s, k, [Sym(';')], LineToks(rest), j);
      SpellsOne(s, k, ';', x);
      BackFollows(s, m, n, k);
      var c := PipelineParses(s, i, p, m);
      var b := BacksParse(s, c, m, n, k);
      BacksIs(s, b, k);
      var e := LineParses(s, x, rest, j);
      d := List(b, e);
  }

  lemma BackFollows(s: string, m: nat, n: nat, k: nat)
    requires m <= |s| && Skip(s, m) == m && Spells(s, m, BackToks(n), k) && Follows(s, k, {')', ';', NUL})
    ensures Follows(s, m, {')', '&', ';', NUL})
  {
    hide GetToken, Skip;
    if n > 0 {
      assert BackToks(n)[0] == Sym('&');
    }
  }

  // The other way round: whatever the parser accepts is in the grammar.

  lemma {:induction false} CommandSound(s: string, i: nat) returns (c: Command)
    requires i <= |s| && ParseExec(s, i).Ok?
    ensures var r := ParseExec(s, i);
      LegalCommand(c) && Spells(s, i, CommandToks(c), r.pos) && Words(s, r.cmd) == CommandMeans(c)
    decreases |s| - i, 1
  {
    ExecIs(s, i);
    hide GetToken, Skip, ParseExec, ParseRest, ParseRedirs, ParseLine, Words, Wrap, ItemToks, RedirToks, LineToks,
         LegalLine, LineMeans, Spells, WordsOf, RedirsOf;
    var r := ParseExec(s, i);
    var t := GetToken(s, i);
    if t.ret != '(' {
      NoWords(s);
      var items := ItemsSound(s, Exec([]), i, [], []);
      assert [] + WordsOf(items) == WordsOf(items) && [] + RedirsOf(items) == RedirsOf(items);
      c := Simple(items);
    } else {
      var line := LineSound(s, t.next);
      var e := ParseLine(s, t.next);
      var u := GetToken(s, e.pos);
      WrapNone(LineMeans(line));
      var rs := RedirsSound(s, e.cmd, u.next, LineMeans(line), []);
      assert [] + rs == rs;
      SpellsOne(s, i, '(', t.next);
      SpellsOne(s, e.pos, ')', u.next);
      SpellsJoin(s, e.pos, [Sym(')')], u.next, RedirToks(rs), r.pos);
      SpellsJoin(s, t.next, LineToks(line), e.pos, [Sym(')')] + RedirToks(rs), r.pos);
      SpellsJoin(s, i, [Sym('(')], t.next, LineToks(line) + ([Sym(')')] + RedirToks(rs)), r.pos);
      c := Block(line, rs);
    }
  }

  lemma {:induction false} PipelineSound(s: string, i: nat) returns (p: Pipeline)
    requires i <= |s| && ParsePipe(s, i).Ok?
    ensures var r := ParsePipe(s, i);
      LegalPipeline(p) && Spells(s, i, PipelineToks(p), r.pos) && Words(s, r.cmd) == PipelineMeans(p)
    decreases |s| - i, 2
  {
    PipeIs(s, i);
    hide GetToken, Skip, ParseExec, ParsePipe, CommandToks, Spells, LegalCommand, CommandMeans;
    var r := ParseExec(s, i);
    var c := CommandSound(s, i);
    SpellsEnd(s, i, CommandToks(c), r.pos);
    var t := GetToken(s, r.pos);
    if t.ret != '|' {
      p := Last(c);
    } else {
      var rest := PipelineSound(s, t.next);
      SpellsOne(s, r.pos, '|', t.next);
      var end := ParsePipe(s, i).pos;
      SpellsJoin(s, r.pos, [Sym('|')], t.next, PipelineToks(rest), end);
      SpellsJoin(s, i, CommandToks(c), r.pos, [Sym('|')] + PipelineToks(rest), end);
      p := Piped(c, rest);
    }
  }

  /** What is left of a line when its pipeline has n times been put in the background. */
  lemma {:induction false} BacksSound(s: string, c: Cmd<Span>, i: nat, p: Pipeline, n: nat,
                                      start: nat) returns (l: Line)
    requires i <= |s| && Skip(s, i) == i && ParseBacks(s, c, i).Ok? && start <= |s| && start <= i
    requires LegalPipeline(p) && Words(s, c) == InBack(PipelineMeans(p), n)
    requires Spells(s, start, PipelineToks(p) + BackToks(n), i)
    ensures var r := ParseBacks(s, c, i);
      LegalLine(l) && Spells(s, start, LineToks(l), r.pos) && Words(s, r.cmd) == LineMeans(l)
    decreases |s| - i, 3
  {
    BacksIs(s, c, i);
    SkipTwice(s, i);
    BackWords(s, c);
    hide GetToken, Skip, ParseBacks, ParseLine, PipelineToks, BackToks, LineToks, Spells, LegalLine, LegalPipeline,
         PipelineMeans, LineMeans, InBack, Words;
    var t := GetToken(s, i);
    if t.ret == '&' {
      SpellsOne(s, i, '&', t.next);
      SpellsJoin(s, start, PipelineToks(p) + BackToks(n), i, [Sym('&')], t.next);
      OneMoreBack(p, n);
      l := BacksSound(s, Back(c), t.next, p, n + 1, start);
    } else if t.ret == ';' {
      var rest := LineSound(s, t.next);
      var end := ParseLine(s, t.next).pos;
      SpellsOne(s, i, ';', t.next);
      SpellsJoin(s, i, [Sym(';')], t.next, LineToks(rest), end);
      SpellsJoin(s, start, PipelineToks(p) + BackToks(n), i, [Sym(';')] + LineToks(rest), end);
      LineEnds(p, n, rest);
      l := Then(p, n, rest);
    } else {
      LineEnds(p, n, End(p, n));
      l := End(p, n);
    }
  }

  lemma BackWords(s: string, c: Cmd<Span>)
    ensures Words(s, Back(c)) == Back(Words(s, c))
    ensures forall d :: Words(s, List(c, d)) == List(Words(s, c), Words(s, d))
  {
  }

  lemma OneMoreBack(p: Pipeline, n: nat)
    ensures PipelineToks(p) + BackToks(n) + [Sym('&')] == PipelineToks(p) + BackToks(n + 1)
    ensures InBack(PipelineMeans(p), n + 1) == Back(InBack(PipelineMeans(p), n))
  {
    BackMore(n);
    hide PipelineToks, PipelineMeans;
  }

  lemma LineEnds(p: Pipeline, n: nat, rest: Line)
    requires LegalPipeline(p)
    ensures LineToks(End(p, n)) == PipelineToks(p) + BackToks(n) && LegalLine(End(p, n))
    ensures LineToks(Then(p, n, rest)) == PipelineToks(p) + BackToks(n) + ([Sym(';')] + LineToks(rest))
    ensures LegalLine(Then(p, n, rest)) == LegalLine(rest) && LineMeans(End(p, n)) == InBack(PipelineMeans(p), n)
    ensures LineMeans(Then(p, n, rest)) == List(InBack(PipelineMeans(p), n), LineMeans(rest))
  {
    hide PipelineToks, BackToks, LegalPipeline, PipelineMeans;
  }

  lemma {:induction false} BackMore(n: nat)
    ensures BackToks(n) + [Sym('&')] == BackToks(n + 1)
  {
    if n > 0 {
      BackMore(n - 1);
      assert BackToks(n) + [Sym('&')] == [Sym('&')] + (BackToks(n - 1) + [Sym('&')]);
    }
  }

  lemma {:induction false} LineSound(s: string, i: nat) returns (l: Line)
    requires i <= |s| && ParseLine(s, i).Ok?
    ensures var r := ParseLine(s, i);
      LegalLine(l) && Spells(s, i, LineToks(l), r.pos) && Words(s, r.cmd) == LineMeans(l)
    decreases |s| - i, 4
  {
    LineIs(s, i);
    hide GetToken, Skip, ParsePipe, ParseBacks, ParseLine, Spells, PipelineToks, LegalPipeline, PipelineMeans;
    var r := ParsePipe(s, i);
    var p := PipelineSound(s, i);
    SpellsEnd(s, i, PipelineToks(p), r.pos);
    assert PipelineToks(p) + BackToks(0) == PipelineToks(p);
    l := BacksSound(s, r.cmd, r.pos, p, 0, i);
  }

  /** The parser accepts exactly the texts whose tokens are a line of the grammar, with whatever blanks between them,
      and makes of them what the line means. */
  lemma ParseExact(s: string)
    ensures ParseCmd(s).Ok? <==> exists l :: LegalLine(l) && Spells(s, 0, LineToks(l), |s|)
    ensures forall l :: LegalLine(l) && Spells(s, 0, LineToks(l), |s|) ==>
        ParseCmd(s).Ok? && Words(s, ParseCmd(s).cmd) == LineMeans(l)
  {
    hide ParseLine, LegalLine, LineToks, LineMeans, Words, Spells;
    forall l | LegalLine(l) && Spells(s, 0, LineToks(l), |s|)
      ensures ParseCmd(s).Ok? && Words(s, ParseCmd(s).cmd) == LineMeans(l)
    {
      var d := LineParses(s, 0, l, |s|);
    }
    if ParseCmd(s).Ok? {
      var l := LineSound(s, 0);
      SpellsEnd(s, 0, LineToks(l), ParseLine(s, 0).pos);
      assert Spells(s, 0, LineToks(l), |s|);
    }
  }

  // ---------- Printing ----------

  /** The tokens as text: a blank after every word. */
  function Show(toks: seq<Tok>): string
  {
    if toks == [] then ""
    else ShowTok(toks[0]) + Show(toks[1..])
  }

  function ShowTok(t: Tok): string
  {
    match t
    case Sym(c) => if c == '+' then ">>" else [c]
    case Word(w) => w + " "
  }

  predicate Showable(t: Tok)
  {
    match t
    case Sym(c) => c == '+' || Symbol(c)
    case Word(w) => LegalWord(w)
  }

  /** No > runs into the next one. */
  predicate Printable(toks: seq<Tok>)
  {
    && (forall k :: 0 <= k < |toks| ==> Showable(toks[k]))
    && forall k :: 0 <= k < |toks| - 1 && toks[k] == Sym('>') ==> toks[k + 1].Word?
  }

  lemma ShowStart(toks: seq<Tok>)
    requires Printable(toks) && toks != []
    ensures Show(toks) != "" && !White(Show(toks)[0]) && Show(toks)[0] != NUL
    ensures toks[0].Word? ==> WordChar(Show(toks)[0])
  {
    assert Showable(toks[0]);
  }

  lemma PrintableRest(toks: seq<Tok>)
    requires Printable(toks) && toks != []
    ensures Showable(toks[0]) && Printable(toks[1..])
    ensures toks[0] == Sym('>') && toks[1..] != [] ==> toks[1].Word?
  {
    hide Showable;
    var rest := toks[1..];
    assert forall k :: 0 <= k < |rest| ==> rest[k] == toks[k + 1];
  }

  /** Text printed from tokens reads back as those tokens. */
  lemma {:induction false} ShowSpells(s: string, i: nat, toks: seq<Tok>)
    requires Printable(toks) && i <= |s| && s[i..] == Show(toks)
    ensures Spells(s, i, toks, |s|)
    decreases |toks|
  {
    if toks == [] {
      assert |s| == i;
    } else {
      hide Printable, Show, GetToken, Spells;
      ShowFirst(s, i, toks);
      ShowSpells(s, GetToken(s, i).next, toks[1..]);
      SpellsFirst(s, i, toks, |s|);
    }
  }

  lemma ShowFirst(s: string, i: nat, toks: seq<Tok>)
    requires Printable(toks) && toks != [] && i <= |s| && s[i..] == Show(toks)
    ensures var t := GetToken(s, i);
      t.ret != NUL && TokenText(s, t) == toks[0] && s[t.next..] == Show(toks[1..]) && Printable(toks[1..])
  {
    PrintableRest(toks);
    ShowSplit(s, i, toks);
    hide Printable, Show, ShowTok, Showable, GetToken;
    var n, rest := i + |ShowTok(toks[0])|, toks[1..];
    if rest != [] {
      ShowStart(rest);
      assert s[n] == s[n..][0];
      ShowToken(s, i, toks[0], s[n], false);
    } else {
      ShowToken(s, i, toks[0], ' ', true);
    }
  }

  lemma SpellsFirst(s: string, i: nat, toks: seq<Tok>, j: nat)
    requires toks != [] && i <= |s|
    ensures var t := GetToken(s, i);
      t.ret != NUL && TokenText(s, t) == toks[0] && Spells(s, t.next, toks[1..], j) ==> Spells(s, i, toks, j)
  {
    hide GetToken;
  }

  lemma ShowSplit(s: string, i: nat, toks: seq<Tok>)
    requires toks != [] && i <= |s| && s[i..] == Show(toks)
    ensures var n := i + |ShowTok(toks[0])|;
      && n <= |s| && s[i..n] == ShowTok(toks[0]) && s[n..] == Show(toks[1..]) && (toks[1..] == [] ==> n == |s|)
  {
    ShowIs(toks);
    hide Show, ShowTok;
    TwoParts(s, i, ShowTok(toks[0]), Show(toks[1..]));
    NothingShown();
  }

  lemma ShowIs(toks: seq<Tok>)
    requires toks != []
    ensures Show(toks) == ShowTok(toks[0]) + Show(toks[1..])
  {
  }

  lemma NothingShown()
    ensures Show([]) == ""
  {
  }

  lemma TwoParts(s: string, i: nat, a: string, b: string)
    requires i <= |s| && s[i..] == a + b
    ensures i + |a| <= |s| && s[i..i + |a|] == a && s[i + |a|..] == b
  {
    var n := |a|;
    assert |s[i..]| == n + |b|;
    assert s[i..i + n] == s[i..][..n];
    assert s[i + n..] == s[i..][n..];
  }

  /** A printed token, with c or nothing after it, is the next one. */
  lemma ShowToken(s: string, i: nat, t: Tok, c: char, last: bool)
    requires Showable(t) && (last || (!White(c) && c != NUL && (t == Sym('>') ==> WordChar(c))))
    requires var n := i + |ShowTok(t)|;
      n <= |s| && s[i..n] == ShowTok(t) && (last ==> n == |s|) && (!last ==> n < |s| && s[n] == c)
    ensures var u := GetToken(s, i); u.ret != NUL && TokenText(s, u) == t && u.next == i + |ShowTok(t)|
  {
    var n := i + |ShowTok(t)|;
    assert Skip(s, n) == n;
    match t
    case Word(w) =>
      ShownWord(s, i, w);
    case Sym(x) =>
      assert s[i] == ShowTok(t)[0];
      if x == '+' {
        assert s[i + 1] == ShowTok(t)[1];
      }
      hide WordEnd;
  }

  lemma ShownWord(s: string, i: nat, w: string)
    requires LegalWord(w) && i + |w| + 1 <= |s| && s[i..i + |w| + 1] == w + " "
    requires Skip(s, i + |w| + 1) == i + |w| + 1
    ensures GetToken(s, i) == Token('a', i, i + |w|, i + |w| + 1) && s[i..i + |w|] == w
  {
    forall k | i <= k < i + |w|
      ensures s[k] == w[k - i] && WordChar(s[k])
    {
      assert s[k] == (w + " ")[k - i];
      hide WordChar;
    }
    assert s[i + |w|] == (w + " ")[|w|];
    WordEndIs(s, i, i + |w|);
  }

  /** A command tree with every subcommand in parentheses. */
  function LineOf(t: Cmd<string>): Line
  {
    match t
    case Exec(argv) => End(Last(Simple(Args(argv))), 0)
    case Redir(sub, file, out) => End(Last(Block(LineOf(sub), [Redirection(if out then '>' else '<', file)])), 0)
    case Pipe(l, r) => End(Piped(Block(LineOf(l), []), Last(Block(LineOf(r), []))), 0)
    case List(l, r) => Then(Last(Block(LineOf(l), [])), 0, End(Last(Block(LineOf(r), [])), 0))
    case Back(sub) => End(Last(Block(LineOf(sub), [])), 1)
  }

  function Args(argv: seq<string>): seq<Item>
  {
    if argv == [] then [] else [Arg(argv[0])] + Args(argv[1..])
  }

  function Print(t: Cmd<string>): string
  {
    Show(LineToks(LineOf(t)))
  }

  /** What can be printed with anything after it. */
  predicate Fine(toks: seq<Tok>)
  {
    Printable(toks) && (toks != [] ==> toks[|toks| - 1] != Sym('>'))
  }

  lemma FineJoin(a: seq<Tok>, b: seq<Tok>)
    requires Fine(a) && Fine(b)
    ensures Fine(a + b)
  {
    hide Showable;
  }

  predicate LegalItem(item: Item)
  {
    match item
    case Arg(w) => LegalWord(w)
    case Into(r) => IsRedir(r.op) && LegalWord(r.file)
  }

  lemma {:induction false} ItemsFine(items: seq<Item>)
    requires forall k :: 0 <= k < |items| ==> LegalItem(items[k])
    ensures Fine(ItemToks(items)) && LegalRedirs(RedirsOf(items))
  {
    hide LegalWord, Fine, LegalRedirs, IsRedir;
    if items == [] {
      ItemsNone([], []);
      NothingFine();
    } else {
      var item, rest := items[0], items[1..];
      assert items == [item] + rest;
      ItemsFine(rest);
      ItemsStep(item, rest, [], []);
      ItemFine(item);
      FineJoin(if item.Arg? then [Word(item.word)] else [Sym(item.r.op), Word(item.r.file)], ItemToks(rest));
    }
  }

  lemma ItemFine(item: Item)
    requires LegalItem(item)
    ensures Fine(if item.Arg? then [Word(item.word)] else [Sym(item.r.op), Word(item.r.file)])
  {
    hide LegalWord;
  }

  lemma NothingFine()
    ensures Fine([])
  {
  }

  lemma {:induction false} ArgsAre(argv: seq<string>)
    requires forall k :: 0 <= k < |argv| ==> LegalWord(argv[k])
    ensures WordsOf(Args(argv)) == argv && RedirsOf(Args(argv)) == []
    ensures forall k :: 0 <= k < |Args(argv)| ==> LegalItem(Args(argv)[k])
  {
    hide LegalWord;
    if argv != [] {
      ArgsAre(argv[1..]);
      assert Args(argv)[1..] == Args(argv[1..]);
    }
  }

  lemma FineIn(toks: seq<Tok>, more: seq<Tok>)
    requires Fine(toks) && Fine(more)
    ensures Fine([Sym('(')] + (toks + ([Sym(')')] + more)))
  {
    assert Fine([Sym('(')]) && Fine([Sym(')')]);
    hide Fine;
    FineJoin([Sym(')')], more);
    FineJoin(toks, [Sym(')')] + more);
    FineJoin([Sym('(')], toks + ([Sym(')')] + more));
  }

  /** A line in parentheses stands for itself. */
  lemma BlockIs(l: Line)
    requires LegalLine(l) && Fine(LineToks(l))
    ensures LegalCommand(Block(l, [])) && CommandMeans(Block(l, [])) == LineMeans(l)
    ensures Fine(CommandToks(Block(l, [])))
  {
    assert Fine([]) && RedirToks([]) == [];
    hide LegalLine, LineMeans, LineToks, Fine;
    FineIn(LineToks(l), []);
  }

  lemma LastIs(c: Command, n: nat)
    requires LegalCommand(c) && Fine(CommandToks(c)) && n <= 1
    ensures var l := End(Last(c), n);
      LegalLine(l) && Fine(LineToks(l)) && LineMeans(l) == if n == 0 then CommandMeans(c) else Back(CommandMeans(c))
  {
    assert BackToks(n) == (if n == 0 then [] else [Sym('&')] + BackToks(n - 1)) && (n > 0 ==> BackToks(n - 1) == []);
    assert Fine(BackToks(n)) && InBack(CommandMeans(c), 0) == CommandMeans(c);
    hide LegalCommand, CommandMeans, CommandToks, Fine, BackToks;
    FineJoin(CommandToks(c), BackToks(n));
  }

  lemma PipeIsFine(c: Command, d: Command)
    requires LegalCommand(c) && LegalCommand(d) && Fine(CommandToks(c)) && Fine(CommandToks(d))
    ensures var l := End(Piped(c, Last(d)), 0);
      LegalLine(l) && Fine(LineToks(l)) && LineMeans(l) == Pipe(CommandMeans(c), CommandMeans(d))
  {
    assert Fine([Sym('|')]);
    hide LegalCommand, CommandMeans, CommandToks, Fine;
    var a, b := CommandToks(c), CommandToks(d);
    FineJoin([Sym('|')], b);
    FineJoin(a, [Sym('|')] + b);
    assert BackToks(0) == [] && a + ([Sym('|')] + b) + [] == a + ([Sym('|')] + b);
    assert LegalPipeline(Last(d)) && PipelineToks(Last(d)) == b && PipelineMeans(Last(d)) == CommandMeans(d);
  }

  lemma ListIsFine(c: Command, d: Command)
    requires LegalCommand(c) && LegalCommand(d) && Fine(CommandToks(c)) && Fine(CommandToks(d))
    ensures var l := Then(Last(c), 0, End(Last(d), 0));
      LegalLine(l) && Fine(LineToks(l)) && LineMeans(l) == List(CommandMeans(c), CommandMeans(d))
  {
    LastIs(d, 0);
    OnlyCommand(c);
    LineEnds(Last(c), 0, End(Last(d), 0));
    assert Fine([Sym(';')]);
    hide LegalCommand, CommandMeans, CommandToks, Fine, LineToks, LineMeans, LegalLine, PipelineToks, PipelineMeans,
         LegalPipeline, BackToks, InBack;
    var b := LineToks(End(Last(d), 0));
    FineJoin([Sym(';')], b);
    FineJoin(CommandToks(c), [Sym(';')] + b);
  }

  lemma OnlyCommand(c: Command)
    ensures PipelineToks(Last(c)) + BackToks(0) == CommandToks(c) && LegalPipeline(Last(c)) == LegalCommand(c)
    ensures InBack(PipelineMeans(Last(c)), 0) == CommandMeans(c)
  {
    hide LegalCommand, CommandMeans, CommandToks;
  }

  /** It means the tree, and can be printed. */
  lemma {:induction false} LineOfMeans(t: Cmd<string>)
    requires Legal(t)
    ensures LegalLine(LineOf(t)) && LineMeans(LineOf(t)) == t && Fine(LineToks(LineOf(t)))
  {
    hide LegalLine, LineMeans, LineToks, Fine, LegalCommand, CommandMeans, CommandToks;
    match t
    case Exec(argv) =>
      SimpleIs(argv);
      LastIs(Simple(Args(argv)), 0);
    case Redir(sub, file, out) =>
      LineOfMeans(sub);
      RedirIs(LineOf(sub), file, out);
      LastIs(Block(LineOf(sub), [Redirection(if out then '>' else '<', file)]), 0);
    case Pipe(l, r) =>
      LineOfMeans(l);
      LineOfMeans(r);
      BlockIs(LineOf(l));
      BlockIs(LineOf(r));
      PipeIsFine(Block(LineOf(l), []), Block(LineOf(r), []));
    case List(l, r) =>
      LineOfMeans(l);
      LineOfMeans(r);
      BlockIs(LineOf(l));
      BlockIs(LineOf(r));
      ListIsFine(Block(LineOf(l), []), Block(LineOf(r), []));
    case Back(sub) =>
      LineOfMeans(sub);
      BlockIs(LineOf(sub));
      LastIs(Block(LineOf(sub), []), 1);
  }

  lemma SimpleIs(argv: seq<string>)
    requires |argv| <= 9 && forall k :: 0 <= k < |argv| ==> LegalWord(argv[k])
    ensures var c := Simple(Args(argv)); LegalCommand(c) && CommandMeans(c) == Exec(argv) && Fine(CommandToks(c))
  {
    ArgsAre(argv);
    hide LegalWord, Fine, WordsOf, RedirsOf, ItemToks;
    ItemsFine(Args(argv));
  }

  lemma RedirIs(l: Line, file: string, out: bool)
    requires LegalLine(l) && Fine(LineToks(l)) && LegalWord(file)
    ensures var c := Block(l, [Redirection(if out then '>' else '<', file)]);
      LegalCommand(c) && CommandMeans(c) == Redir(LineMeans(l), file, out) && Fine(CommandToks(c))
  {
    var r := Redirection(if out then '>' else '<', file);
    RedirsStep(r, [], []);
    assert [r] + [] == [r] && [r][..|[r]|-1] == [] && Wrap(LineMeans(l), []) == LineMeans(l);
    assert RedirToks([r]) == [Sym(r.op), Word(file)];
    assert Fine([Sym(r.op), Word(file)]);
    hide LegalLine, LineMeans, LineToks, Fine, LegalWord;
    assert [Sym(r.op), Word(file)] + [] == [Sym(r.op), Word(file)];
    FineIn(LineToks(l), [Sym(r.op), Word(file)]);
  }

  /** A command written with its redirections before, between and after its words, in any order: parsing gives all its
      words in order, inside all its redirections in order. */
  lemma AnyOrder(items: seq<Item>)
    requires |WordsOf(items)| <= 9 && forall k :: 0 <= k < |items| ==> LegalItem(items[k])
    ensures var s := Show(ItemToks(items));
      var r := ParseCmd(s);
      r.Ok? && Words(s, r.cmd) == Wrap(Exec(WordsOf(items)), RedirsOf(items))
  {
    ItemsFine(items);
    var l := End(Last(Simple(items)), 0);
    LastIs(Simple(items), 0);
    assert BackToks(0) == [] && ItemToks(items) + [] == ItemToks(items);
    assert LineToks(l) == ItemToks(items);
    hide LegalItem, ItemToks, WordsOf, RedirsOf, Wrap, LegalRedirs, Show, ParseCmd, Words, Spells;
    var s := Show(ItemToks(items));
    assert s[0..] == s;
    ShowSpells(s, 0, ItemToks(items));
    ParseExact(s);
  }

  /** Parsing the print of a tree gives the tree back. */
  lemma RoundTrip(t: Cmd<string>)
    requires Legal(t)
    ensures var r := ParseCmd(Print(t)); r.Ok? && Words(Print(t), r.cmd) == t
  {
    LineOfMeans(t);
    hide LegalLine, LineToks, LineMeans, LineOf, Printable, Show, ParseCmd, Words, Spells;
    var s := Print(t);
    assert s[0..] == s;
    ShowSpells(s, 0, LineToks(LineOf(t)));
    ParseExact(s);
  }
}
