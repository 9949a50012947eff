/** The console's line discipline: a ring with three indices that acts as a line editor in front of a queue. */
module Console {
  import opened Bytes

  const INPUT_BUF: nat := 128
  const NEWLINE: Byte := 10
  const RETURN: Byte := 13
  const CTRL_D: Byte := 4
  const CTRL_H: Byte := 8
  const CTRL_P: Byte := 16
  const CTRL_U: Byte := 21
  const DELETE: Byte := 127

  // ---------- The line editor and its queue ----------

  /** What has been committed and not read yet, and the line being edited. */
  datatype Editor = Editor(queue: seq<Byte>, line: seq<Byte>)

  function Typed(c: Byte): Byte
  {
    if c == RETURN then NEWLINE else c
  }

  /** c is stored as a character of the line. */
  predicate Plain(c: Byte)
  {
    c != 0 && c != CTRL_P && c != CTRL_U && c != CTRL_H && c != DELETE
  }

  /** One key. */
  function Key(ed: Editor, c: Byte): Editor
  {
    if c == CTRL_U then ed.(line := [])
    else if c == CTRL_H || c == DELETE then
      if ed.line == [] then ed else ed.(line := ed.line[..|ed.line|-1])
    else if Plain(c) && |ed.queue| + |ed.line| < INPUT_BUF then
      var line := ed.line + [Typed(c)];
      if Typed(c) == NEWLINE || c == CTRL_D || |ed.queue| + |line| == INPUT_BUF then Editor(ed.queue + line, [])
      else ed.(line := line)
    else ed
  }

  function Keys(ed: Editor, cs: seq<Byte>): Editor
  {
    if cs == [] then ed else Key(Keys(ed, cs[..|cs|-1]), cs[|cs|-1])
  }

  /** The line under edit holds no line ends, and a full buffer has no line under edit. */
  predicate Editing(ed: Editor)
  {
    && |ed.queue| + |ed.line| <= INPUT_BUF && (|ed.queue| + |ed.line| == INPUT_BUF ==> ed.line == [])
    && forall k :: 0 <= k < |ed.line| ==> ed.line[k] != NEWLINE && ed.line[k] != CTRL_D
  }

  lemma KeyEditing(ed: Editor, c: Byte)
    requires Editing(ed)
    ensures Editing(Key(ed, c)) && ed.queue <= Key(ed, c).queue
  {
  }

  /** The special keys: kill-line empties the line, backspace and delete take its last character if there is one, and
      the process listing and NUL do nothing. None of them touches the queue. */
  lemma SpecialKeys(ed: Editor)
    ensures Key(ed, 21) == Editor(ed.queue, [])
    ensures forall x :: Key(Editor(ed.queue, ed.line + [x]), 8) == ed == Key(Editor(ed.queue, ed.line + [x]), 127)
    ensures ed.line == [] ==> Key(ed, 8) == ed == Key(ed, 127)
    ensures Key(ed, 16) == ed == Key(ed, 0)
  {
    forall x: Byte
      ensures (ed.line + [x])[..|ed.line|] == ed.line
    {
    }
  }

  /** Any other key is stored while there is room, a carriage return as a line end; a line end, an end-of-file mark and
      the character that fills the buffer commit the line. In a full buffer the key is dropped. */
  lemma StoredKeys(ed: Editor, c: Byte)
    requires c !in {0, 8, 16, 21, 127}
    ensures var x, used := if c == 13 then 10 else c, |ed.queue| + |ed.line|;
      && (used >= 128 ==> Key(ed, c) == ed)
      && (used < 128 && (c in {4, 10, 13} || used == 127) ==> Key(ed, c) == Editor(ed.queue + ed.line + [x], []))
      && (used < 127 && c !in {4, 10, 13} ==> Key(ed, c) == Editor(ed.queue, ed.line + [x]))
  {
    assert ed.queue + (ed.line + [Typed(c)]) == ed.queue + ed.line + [Typed(c)];
  }

  /** Whether bytes r0 .. of the stream are all taken without a line end, an end-of-file mark or n bytes among them. */
  ghost predicate RanDry(stream: seq<Byte>, r0: nat, n: nat)
  {
    r0 <= |stream| < r0 + n && forall k :: r0 <= k < |stream| ==> stream[k] != 10 && stream[k] != 4
  }

  /** Everything committed, and the line, when j batches of keys have come in during sleeps: a reader sleeps only when
      nothing is left to read, so each finds the queue empty. */
  ghost function Arrived(stream: seq<Byte>, line: seq<Byte>, arrivals: seq<seq<Byte>>, j: nat): Editor
    requires j <= |arrivals|
  {
    if j == 0 then Editor(stream, line)
    else
      var before := Arrived(stream, line, arrivals, j - 1);
      var ed := Keys(Editor([], before.line), arrivals[j - 1]);
      Editor(before.queue + ed.queue, ed.line)
  }

  /** Each of the first j sleeps was entered with nothing left to read and by a process that was not killed. */
  ghost predicate Slept(stream: seq<Byte>, line: seq<Byte>, arrivals: seq<seq<Byte>>, killed: nat -> bool, r0: nat,
                        n: nat, j: nat)
    requires j <= |arrivals|
  {
    forall k :: 0 <= k < j ==> !killed(k) && RanDry(Arrived(stream, line, arrivals, k).queue, r0, n)
  }

  /** A read of n bytes that began with this stream and line has slept j times, and now they are stream' and line'. */
  ghost predicate Waited(stream: seq<Byte>, line: seq<Byte>, arrivals: seq<seq<Byte>>, killed: nat -> bool, r0: nat,
                         n: nat, j: nat, stream': seq<Byte>, line': seq<Byte>)
  {
    && stream <= stream' && j <= |arrivals| && Slept(stream, line, arrivals, killed, r0, n, j)
    && Editor(stream', line') == Arrived(stream, line, arrivals, j)
  }

  lemma WaitedNone(stream: seq<Byte>, line: seq<Byte>, arrivals: seq<seq<Byte>>, killed: nat -> bool, r0: nat, n: nat)
    ensures Waited(stream, line, arrivals, killed, r0, n, 0, stream, line)
  {
  }

  lemma WaitedMore(stream: seq<Byte>, line: seq<Byte>, arrivals: seq<seq<Byte>>, killed: nat -> bool, r0: nat, n: nat,
                   j: nat, stream': seq<Byte>, line': seq<Byte>, ed: Editor)
    requires Waited(stream, line, arrivals, killed, r0, n, j, stream', line') && j < |arrivals| && !killed(j)
    requires RanDry(stream', r0, n) && ed == Keys(Editor([], line'), arrivals[j])
    ensures Waited(stream, line, arrivals, killed, r0, n, j + 1, stream' + ed.queue, ed.line)
  {
    hide RanDry, Keys;
  }

  /** A line end, an end-of-file mark or n bytes are there to be read. */
  ghost predicate Enough(stream: seq<Byte>, r0: nat, n: nat)
  {
    r0 <= |stream| && (r0 + n <= |stream| || exists k :: r0 <= k < |stream| && (stream[k] == 10 || stream[k] == 4))
  }

  lemma EnoughNotDry(stream: seq<Byte>, stream': seq<Byte>, r0: nat, n: nat)
    requires stream <= stream'
    ensures !(Enough(stream, r0, n) && RanDry(stream', r0, n))
  {
  }

  lemma {:induction false} KeysEditing(ed: Editor, cs: seq<Byte>)
    requires Editing(ed)
    ensures Editing(Keys(ed, cs)) && ed.queue <= Keys(ed, cs).queue
  {
    if cs != [] {
      KeysEditing(ed, cs[..|cs|-1]);
      KeyEditing(Keys(ed, cs[..|cs|-1]), cs[|cs|-1]);
    }
  }

  /** Erasing undoes typing, except for the character that fills the buffer: that one commits the line instead. */
  lemma EraseUndoes(ed: Editor, c: Byte)
    requires Editing(ed) && Plain(c) && Typed(c) != NEWLINE && c != CTRL_D
    ensures Key(Key(ed, c), CTRL_H) == ed <==> |ed.queue| + |ed.line| != INPUT_BUF - 1
  {
  }

  /** A line of plain characters that fits is queued as typed, with its line end. */
  lemma {:induction false} LineQueued(ed: Editor, text: seq<Byte>, k: nat)
    requires k <= |text| && ed.line == [] && |ed.queue| + |text| < INPUT_BUF
    requires forall j :: 0 <= j < |text| ==> Plain(text[j]) && Typed(text[j]) != NEWLINE && text[j] != CTRL_D
    ensures Keys(ed, text[..k]) == ed.(line := text[..k])
    ensures k == |text| ==> Key(Keys(ed, text[..k]), RETURN) == Editor(ed.queue + text + [NEWLINE], [])
  {
    if k > 0 {
      LineQueued(ed, text, k - 1);
      assert text[..k][..k - 1] == text[..k - 1];
      assert text[..k - 1] + [text[k - 1]] == text[..k];
    }
  }

  /** Where in the ring index k lands. */
  function Pos(k: nat): (p: nat)
    ensures p < INPUT_BUF
  {
    k % INPUT_BUF
  }

  lemma PosApart(a: nat, b: nat)
    requires a < b < a + INPUT_BUF
    ensures Pos(a) != Pos(b)
  {
  }

  /** The ring holds the committed bytes from r on, and then the line. */
  ghost predicate Ring(buf: seq<Byte>, r: nat, stream: seq<Byte>, line: seq<Byte>)
  {
    && |buf| == INPUT_BUF && r <= |stream|
    && (forall k :: r <= k < |stream| ==> buf[Pos(k)] == stream[k])
    && (forall k :: 0 <= k < |line| ==> buf[Pos(|stream| + k)] == line[k])
  }

  lemma RingPut(buf: seq<Byte>, r: nat, stream: seq<Byte>, line: seq<Byte>, x: Byte)
    requires Ring(buf, r, stream, line) && |stream| + |line| < r + INPUT_BUF
    ensures Ring(buf[Pos(|stream| + |line|) := x], r, stream, line + [x])
  {
    var e := |stream| + |line|;
    forall k | r <= k < e
      ensures Pos(k) != Pos(e)
    {
      PosApart(k, e);
    }
    hide Pos;
  }

  lemma RingErase(buf: seq<Byte>, r: nat, stream: seq<Byte>, line: seq<Byte>)
    requires Ring(buf, r, stream, line) && line != []
    ensures Ring(buf, r, stream, line[..|line|-1]) && buf[Pos(|stream| + |line| - 1)] == line[|line|-1]
  {
    hide Pos;
    assert |stream| + |line| - 1 == |stream| + (|line| - 1);
  }

  /** Taking the next byte out, and putting it back. */
  lemma RingTake(buf: seq<Byte>, r: nat, stream: seq<Byte>, line: seq<Byte>)
    requires Ring(buf, r, stream, line) && r < |stream|
    ensures Ring(buf, r + 1, stream, line) && buf[Pos(r)] == stream[r]
  {
  }

  lemma RingPutBack(buf: seq<Byte>, r: nat, stream: seq<Byte>, line: seq<Byte>)
    requires Ring(buf, r + 1, stream, line) && r < |stream| && buf[Pos(r)] == stream[r]
    ensures Ring(buf, r, stream, line)
  {
    hide Pos;
  }

  lemma RingCommit(buf: seq<Byte>, r: nat, stream: seq<Byte>, line: seq<Byte>)
    requires Ring(buf, r, stream, line)
    ensures Ring(buf, r, stream + line, [])
  {
    hide Pos;
    forall k | |stream| <= k < |stream| + |line|
      ensures buf[Pos(k)] == line[k - |stream|]
    {
      assert k == |stream| + (k - |stream|);
    }
  }

  datatype ReadResult = Killed | Asleep | Got(bytes: seq<Byte>)

  /** Keys that arrive, or a read of n bytes with what arrives in each of its sleeps. */
  datatype Event = Arrive(cs: seq<Byte>) | Reads(n: nat, arrivals: seq<seq<Byte>>, killed: nat -> bool)

  class Console {
    const buf: array<Byte>
    var r: nat
    var w: nat
    var e: nat
    /** Everything ever committed. */
    ghost var stream: seq<Byte>
    ghost var line: seq<Byte>
    /** Everything readers have taken out: what they were given, and the end-of-file marks they consumed. */
    ghost var taken: seq<Byte>

    /** r <= w <= e <= r + INPUT_BUF, the ring holds the committed bytes from r on and then the line, and what readers
        took out is exactly what was committed before r, in order. */
    ghost predicate Valid()
      reads this, buf
    {
      && buf.Length == INPUT_BUF && r <= w <= e <= r + INPUT_BUF
      && |stream| == w && taken == stream[..r]
      && |line| == e - w && Editing(Abs()) && Ring(buf[..], r, stream, line)
    }

    /** The state as a queue and a line. */
    ghost function Abs(): Editor
      reads this
    {
      Editor(if r <= |stream| then stream[r..] else [], line)
    }

    constructor ()
      ensures Valid() && Abs() == Editor([], []) && stream == []
    {
      buf := new Byte[INPUT_BUF](_ => 0);
      r, w, e := 0, 0, 0;
      stream, line, taken := [], [], [];
    }

    /** The kill-line loop. */
    method KillLine()
      requires Valid()
      modifies this`e, this`line
      ensures Valid() && Abs() == Key(old(Abs()), CTRL_U)
    {
      hide Ring, Pos, Editing;
      LineHasNoEnd();
      while e != w && buf[Pos(e - 1)] != NEWLINE
        invariant Valid() && Abs().queue == old(Abs()).queue
        invariant e != w ==> buf[Pos(e - 1)] != NEWLINE
        decreases e - w
      {
        RingErase(buf[..], r, stream, line);
        Shorter(Abs());
        e := e - 1;
        line := line[..|line|-1];
        LineHasNoEnd();
      }
    }

    lemma LineHasNoEnd()
      requires Valid()
      ensures e != w ==> buf[Pos(e - 1)] != NEWLINE
    {
      if e != w {
        RingErase(buf[..], r, stream, line);
        hide Ring, Pos;
      }
    }

    static lemma Shorter(ed: Editor)
      requires Editing(ed) && ed.line != []
      ensures Editing(ed.(line := ed.line[..|ed.line|-1]))
    {
    }

    /** Backspace. */
    method Erase()
      requires Valid()
      modifies this`e, this`line
      ensures Valid() && Abs() == Key(old(Abs()), CTRL_H)
    {
      hide Ring, Pos, Editing;
      if e != w {
        RingErase(buf[..], r, stream, line);
        Shorter(Abs());
        e := e - 1;
        line := line[..|line|-1];
      }
    }

    /** The default branch: a character of the line. */
    method Store(c: Byte)
      requires Valid() && Plain(c)
      modifies this`e, this`w, this`line, this`stream, buf
      ensures Valid() && Abs() == Key(old(Abs()), c) && old(stream) <= stream
    {
      ghost var ed := Abs();
      var x := Typed(c);
      hide Ring, Editing, Pos, Key, Typed, Plain;
      StoreKey(ed, c);
      if e - r < INPUT_BUF {
        RingPut(buf[..], r, stream, line, x);
        RingCommit(buf[..][Pos(e) := x], r, stream, line + [x]);
        buf[Pos(e)] := x;
        e := e + 1;
        line := line + [x];
        if x == NEWLINE || c == CTRL_D || e == r + INPUT_BUF {
          w := e;
          QueueGrows(stream, r, line);
          stream := stream + line;
          line := [];
        }
      }
    }

    static lemma StoreKey(ed: Editor, c: Byte)
      requires Editing(ed) && Plain(c)
      ensures Editing(Key(ed, c))
      ensures var x := Typed(c);
        Key(ed, c) ==
          if |ed.queue| + |ed.line| >= INPUT_BUF then ed
          else if x == NEWLINE || c == CTRL_D || |ed.queue| + |ed.line| + 1 == INPUT_BUF
          then Editor(ed.queue + (ed.line + [x]), [])
          else ed.(line := ed.line + [x])
    {
      KeyEditing(ed, c);
    }

    static lemma QueueGrows(stream: seq<Byte>, r: nat, line: seq<Byte>)
      requires r <= |stream|
      ensures (stream + line)[r..] == stream[r..] + line && (stream + line)[..r] == stream[..r]
    {
    }

    /** console_intr for the characters that getc delivers. */
    method Interrupt(cs: seq<Byte>)
      requires Valid()
      modifies this`e, this`w, this`line, this`stream, buf
      ensures Valid() && Abs() == Keys(old(Abs()), cs) && old(stream) <= stream
    {
      hide Valid, Abs, Keys, Key;
      KeysStart(Abs());
      var i := 0;
      while i < |cs|
        invariant i <= |cs| && Valid() && Abs() == Keys(old(Abs()), cs[..i]) && old(stream) <= stream
      {
        var c := cs[i];
        KeysNext(old(Abs()), cs, i);
        KeyCases(Abs(), c);
        if c == CTRL_P {
        } else if c == CTRL_U {
          KillLine();
        } else if c == CTRL_H || c == DELETE {
          Erase();
        } else if c != 0 {
          Store(c);
        }
        i := i + 1;
      }
      assert cs[..i] == cs;
    }

    static lemma KeysStart(ed: Editor)
      ensures Keys(ed, []) == ed
    {
    }

    static lemma KeysNext(ed: Editor, cs: seq<Byte>, i: nat)
      requires i < |cs|
      ensures Keys(ed, cs[..i + 1]) == Key(Keys(ed, cs[..i]), cs[i])
    {
      assert cs[..i + 1][..i] == cs[..i];
    }

    static lemma KeyCases(ed: Editor, c: Byte)
      ensures c == CTRL_P || c == 0 ==> Key(ed, c) == ed
      ensures c == DELETE ==> Key(ed, c) == Key(ed, CTRL_H)
    {
    }

    /** console_read of n bytes. It sleeps when nothing is committed; batch j of arrivals comes in during sleep j, and
        it is still asleep when they run out. killed[j] says whether the process was killed by the time it looks, and
        sleeps how often it slept: only with nothing left to read, so it gets something whenever enough is committed. */
    method Read(n: nat, arrivals: seq<seq<Byte>>, killed: nat -> bool) returns (res: ReadResult, ghost sleeps: nat)
      requires Valid()
      modifies this, buf
      ensures Valid() && old(stream) <= stream && old(r) <= r
      ensures res.Got? ==> Delivered(stream, old(r), r, n, res.bytes)
      ensures r <= |stream| && taken == stream[..r]
      ensures Waited(old(stream), old(line), arrivals, killed, old(r), n, sleeps, stream, line)
      ensures res.Killed? ==> r == |stream| && RanDry(stream, old(r), n) && killed(sleeps)
      ensures res.Asleep? ==> r == |stream| && RanDry(stream, old(r), n) && sleeps == |arrivals| && !killed(sleeps)
      ensures old(Enough(stream, r, n)) ==> res.Got?
    {
      hide Editing, Keys, Key, Valid, Delivered, Took, Pos, RanDry, Enough, Waited;
      ghost var r0, stream0, line0 := r, stream, line;
      Facts();
      var bytes: seq<Byte> := [];
      var times: nat := 0;
      sleeps := 0;
      Nothing(stream, r, n);
      WaitedNone(stream, line, arrivals, killed, r0, n);
      while |bytes| < n
        invariant Valid() && stream0 <= stream && r0 <= r <= w == |stream| && sleeps == times <= |arrivals|
        invariant Took(stream, r0, r, n, bytes)
        invariant Waited(stream0, line0, arrivals, killed, r0, n, times, stream, line)
      {
        times := Await(arrivals, killed, times, r0, bytes, n, stream0, line0);
        sleeps := times;
        Facts();
        if r == w {
          NoneLeft(stream, r0, n, bytes);
          EnoughNotDry(stream0, stream, r0, n);
          if killed(times) {
            return Killed, times;
          }
          return Asleep, times;
        }
        var c := buf[Pos(r)];
        TookAll(stream, r0, r, n, bytes);
        Consume();
        if c == CTRL_D {
          MarkEnds(stream, r0, n, bytes);
          if bytes != [] {
            Unconsume();
          }
          Facts();
          return Got(bytes), times;
        }
        Longer(stream, r0, n, bytes);
        bytes := bytes + [c];
        if c == NEWLINE {
          Facts();
          return Got(bytes), times;
        }
      }
      Facts();
      TookAll(stream, r0, r, n, bytes);
      FullEnds(stream, r0, n, bytes);
      return Got(bytes), times;
    }

    static lemma NoneLeft(stream: seq<Byte>, r0: nat, n: nat, bytes: seq<Byte>)
      requires Took(stream, r0, |stream|, n, bytes) && |bytes| < n
      ensures RanDry(stream, r0, n)
    {
      assert forall k :: r0 <= k < |stream| ==> stream[k] == bytes[k - r0];
    }


    /** What a read has taken so far: no line end and no end-of-file mark yet. */
    static ghost predicate Took(stream: seq<Byte>, r0: nat, r: nat, n: nat, bytes: seq<Byte>)
    {
      && r == r0 + |bytes| <= |stream| && |bytes| <= n && bytes == stream[r0..r]
      && forall k :: 0 <= k < |bytes| ==> bytes[k] != NEWLINE && bytes[k] != CTRL_D
    }

    static lemma Nothing(stream: seq<Byte>, r: nat, n: nat)
      requires r <= |stream|
      ensures Took(stream, r, r, n, [])
    {
    }

    static lemma TookAll(stream: seq<Byte>, r0: nat, r: nat, n: nat, bytes: seq<Byte>)
      requires Took(stream, r0, r, n, bytes)
      ensures r == r0 + |bytes| && |bytes| <= n
    {
    }

    static lemma TookStill(stream: seq<Byte>, stream': seq<Byte>, r0: nat, r: nat, n: nat, bytes: seq<Byte>)
      requires Took(stream, r0, r, n, bytes) && stream <= stream'
      ensures Took(stream', r0, r, n, bytes)
    {
    }

    /** The three ways a read ends. */
    static lemma MarkEnds(stream: seq<Byte>, r0: nat, n: nat, bytes: seq<Byte>)
      requires r0 + |bytes| < |stream| && |bytes| < n && Took(stream, r0, r0 + |bytes|, n, bytes)
      requires stream[r0 + |bytes|] == CTRL_D
      ensures Delivered(stream, r0, r0 + if bytes == [] then 1 else |bytes|, n, bytes)
    {
    }

    static lemma Longer(stream: seq<Byte>, r0: nat, n: nat, bytes: seq<Byte>)
      requires r0 + |bytes| < |stream| && |bytes| < n && Took(stream, r0, r0 + |bytes|, n, bytes)
      requires stream[r0 + |bytes|] != CTRL_D
      ensures var c := stream[r0 + |bytes|];
        && (c == NEWLINE ==> Delivered(stream, r0, r0 + |bytes| + 1, n, bytes + [c]))
        && (c != NEWLINE ==> Took(stream, r0, r0 + |bytes| + 1, n, bytes + [c]))
    {
    }

    static lemma FullEnds(stream: seq<Byte>, r0: nat, n: nat, bytes: seq<Byte>)
      requires |bytes| == n && Took(stream, r0, r0 + |bytes|, n, bytes)
      ensures Delivered(stream, r0, r0 + |bytes|, n, bytes)
    {
    }

    /** The loop that sleeps while nothing is committed. It gives up when the process is killed or nothing more
        arrives. */
    method Await(arrivals: seq<seq<Byte>>, killed: nat -> bool, start: nat, ghost r0: nat, ghost bytes: seq<Byte>,
                 ghost n: nat, ghost stream0: seq<Byte>, ghost line0: seq<Byte>) returns (sleeps: nat)
      requires Valid() && r <= |stream| == w && start <= |arrivals| && Took(stream, r0, r, n, bytes) && |bytes| < n
      requires Waited(stream0, line0, arrivals, killed, r0, n, start, stream, line)
      requires stream0 <= stream
      modifies this`e, this`w, this`line, this`stream, buf
      ensures Valid() && stream0 <= stream && r <= w == |stream| && sleeps <= |arrivals|
      ensures Took(stream, r0, r, n, bytes)
      ensures r == w ==> killed(sleeps) || sleeps == |arrivals|
      ensures Waited(stream0, line0, arrivals, killed, r0, n, sleeps, stream, line)
    {
      hide Editing, Keys, Key, Valid, Took, RanDry, Waited;
      sleeps := start;
      while r == w && !killed(sleeps) && sleeps < |arrivals|
        invariant Valid() && stream0 <= stream && r <= w == |stream| && sleeps <= |arrivals|
        invariant Took(stream, r0, r, n, bytes)
        invariant Waited(stream0, line0, arrivals, killed, r0, n, sleeps, stream, line)
        decreases |arrivals| - sleeps
      {
        ghost var before, line1 := stream, line;
        NoneLeft(stream, r0, n, bytes);
        Empty();
        Interrupt(arrivals[sleeps]);
        Facts();
        Appended(before);
        TookStill(before, stream, r0, r, n, bytes);
        WaitedMore(stream0, line0, arrivals, killed, r0, n, sleeps, before, line1, Abs());
        sleeps := sleeps + 1;
      }
    }

    lemma Empty()
      requires Valid() && r == w
      ensures Abs() == Editor([], line)
    {
    }

    /** What came in behind a stream that was read to its end. */
    lemma Appended(before: seq<Byte>)
      requires before <= stream && |before| == r
      ensures stream == before + Abs().queue && Abs().line == line
    {
    }

    /** Any run of interrupts and reads: each does its part, and the reads are successive calls on one stream that only
        grows. */
    method Serve(events: seq<Event>) returns (ghost trace: seq<Moment>)
      requires Valid()
      modifies this, buf
      ensures Valid() && old(stream) <= stream && old(r) <= r <= |stream|
      ensures Traced(events, trace)
      ensures trace[0].stream == old(stream) && trace[0].line == old(line) && trace[0].r == old(r)
      ensures trace[|events|].stream == stream && trace[|events|].line == line && trace[|events|].r == r
      ensures Successive(CallsOf(events, trace), old(r), r, stream)
      ensures TakenOut(CallsOf(events, trace)) == stream[old(r)..r]
    {
      hide Valid, Abs, Delivered, RanDry, Enough, Traced, After, Waited, CallsOf, Keys, Successive, Sane;
      Facts();
      ghost var calls: seq<Call> := [];
      trace := [Moment(stream, line, r, Asleep, 0)];
      assert events[..0] == [];
      TraceStart(trace[0]);
      NoCalls(r, stream);
      ghost var r0 := r;
      var i := 0;
      while i < |events|
        invariant i <= |events| && Valid() && old(stream) <= stream && r0 <= r <= |stream|
        invariant Successive(calls, r0, r, stream)
        invariant Traced(events[..i], trace) && |trace| == i + 1 && calls == CallsOf(events[..i], trace)
        invariant trace[0] == Moment(old(stream), old(line), r0, Asleep, 0)
        invariant trace[i].stream == stream && trace[i].line == line && trace[i].r == r
      {
        ghost var before, stream0, s := r, stream, trace[i];
        ghost var t: Moment;
        AbsIs();
        match events[i] {
          case Arrive(cs) =>
            Interrupt(cs);
            Facts();
            AbsIs();
            t := Moment(stream, line, r, Asleep, 0);
            KeysAfter(s, t, cs);
            LaterStream(calls, r0, r, stream0, stream);
          case Reads(n, arrivals, killed) =>
            var res;
            ghost var sleeps;
            res, sleeps := Read(n, arrivals, killed);
            LaterStream(calls, r0, before, stream0, stream);
            t := Moment(stream, line, r, res, sleeps);
            ReadAfter(s, t, n, arrivals, killed);
            ghost var c := Call(before, r, n, res, stream);
            OneCall(calls, r0, c, stream);
            calls := calls + [c];
        }
        TraceMore(events, i, trace, t);
        trace := trace + [t];
        Facts();
        i := i + 1;
      }
      assert events[..i] == events;
      ReadsInOrder(calls, r0, r, stream);
    }

    lemma AbsIs()
      requires Valid()
      ensures r <= |stream| && Abs() == Editor(stream[r..], line)
    {
    }

    lemma Facts()
      requires Valid()
      ensures r <= w == |stream| && buf.Length == INPUT_BUF && taken == stream[..r]
      ensures r < w ==> buf[Pos(r)] == stream[r]
    {
    }

    /** input.r++. */
    method Consume()
      requires Valid() && r < w
      modifies this`r, this`taken
      ensures Valid() && r == old(r) + 1 && r <= w == |stream| && taken == old(taken) + [stream[old(r)]]
      ensures buf[Pos(r - 1)] == stream[r - 1] && Editing(Editor(stream[r - 1..], line)) && e < r + INPUT_BUF
    {
      RingTake(buf[..], r, stream, line);
      taken := taken + [stream[r]];
      r := r + 1;
      hide Ring, Pos;
    }

    /** input.r--: the end-of-file mark is kept for the next call. */
    method Unconsume()
      requires Valid() && 0 < r && e < r + INPUT_BUF && r <= |stream| && buf.Length == INPUT_BUF
      requires buf[Pos(r - 1)] == stream[r - 1] && Editing(Editor(stream[r - 1..], line))
      modifies this`r, this`taken
      ensures Valid() && r == old(r) - 1 && taken == stream[..r]
    {
      RingPutBack(buf[..], r - 1, stream, line);
      hide Ring, Pos;
      r := r - 1;
      taken := stream[..r];
    }
  }

  /** What one read returns: the committed bytes from r0 on, up to n of them, through the first line end, or up to an
      end-of-file mark. The mark is consumed only by a call that returns nothing. */
  ghost predicate Delivered(stream: seq<Byte>, r0: nat, r: nat, n: nat, bytes: seq<Byte>)
  {
    && r0 + |bytes| <= r <= |stream| && |bytes| <= n && bytes == stream[r0..r0 + |bytes|]
    && (forall k :: 0 <= k < |bytes| - 1 ==> bytes[k] != NEWLINE)
    && (forall k :: 0 <= k < |bytes| ==> bytes[k] != CTRL_D)
    && (|| (|bytes| == n && r == r0 + |bytes|)
        || (bytes != [] && bytes[|bytes|-1] == NEWLINE && r == r0 + |bytes|)
        || (|bytes| < n && r0 + |bytes| < |stream| && stream[r0 + |bytes|] == CTRL_D
          && r == r0 + if bytes == [] then 1 else |bytes|))
  }

  /** A call of console_read, with the read index before and after and what was committed when it returned. */
  datatype Call = Call(before: nat, after: nat, n: nat, res: ReadResult, stream: seq<Byte>)

  /** The state after an event; for a read, with what it returned and how often it slept. */
  datatype Moment = Moment(stream: seq<Byte>, line: seq<Byte>, r: nat, res: ReadResult, sleeps: nat)

  /** What an event does: keys are edited and committed, a read returns as console_read does. */
  ghost predicate After(ev: Event, s: Moment, t: Moment)
  {
    && s.r <= |s.stream| && s.r <= t.r <= |t.stream| && s.stream <= t.stream
    && match ev
       case Arrive(cs) => t.r == s.r && Editor(t.stream[t.r..], t.line) == Keys(Editor(s.stream[s.r..], s.line), cs)
       case Reads(n, arrivals, killed) =>
         && Waited(s.stream, s.line, arrivals, killed, s.r, n, t.sleeps, t.stream, t.line)
         && (t.res.Got? ==> Delivered(t.stream, s.r, t.r, n, t.res.bytes))
         && (t.res.Killed? ==> t.r == |t.stream| && RanDry(t.stream, s.r, n) && killed(t.sleeps))
         && (t.res.Asleep? ==>
               t.r == |t.stream| && RanDry(t.stream, s.r, n) && t.sleeps == |arrivals| && !killed(t.sleeps))
         && (Enough(s.stream, s.r, n) ==> t.res.Got?)
  }

  ghost predicate Traced(events: seq<Event>, trace: seq<Moment>)
  {
    |trace| == |events| + 1 && forall j :: 0 <= j < |events| ==> After(events[j], trace[j], trace[j + 1])
  }

  /** The reads among the events. */
  ghost function CallsOf(events: seq<Event>, trace: seq<Moment>): seq<Call>
    requires |trace| == |events| + 1
  {
    if events == [] then []
    else
      var n := |events| - 1;
      var s, t := trace[n], trace[n + 1];
      CallsOf(events[..n], trace[..n + 1])
      + if events[n].Reads? then [Call(s.r, t.r, events[n].n, t.res, t.stream)] else []
  }

  lemma TraceStart(m: Moment)
    ensures Traced([], [m]) && CallsOf([], [m]) == []
  {
  }

  lemma TraceMore(events: seq<Event>, i: nat, trace: seq<Moment>, t: Moment)
    requires i < |events| && |trace| == i + 1 && Traced(events[..i], trace) && After(events[i], trace[i], t)
    ensures Traced(events[..i + 1], trace + [t])
    ensures CallsOf(events[..i + 1], trace + [t]) == CallsOf(events[..i], trace)
      + if events[i].Reads? then [Call(trace[i].r, t.r, events[i].n, t.res, t.stream)] else []
  {
    hide After;
    var es, tr := events[..i + 1], trace + [t];
    assert es[..i] == events[..i] && tr[..i + 1] == trace && es[i] == events[i];
    forall j | 0 <= j < i + 1
      ensures After(es[j], tr[j], tr[j + 1])
    {
      if j < i {
        assert After(events[..i][j], trace[j], trace[j + 1]);
      }
    }
  }

  lemma KeysAfter(s: Moment, t: Moment, cs: seq<Byte>)
    requires s.r == t.r && s.r <= |s.stream| && s.stream <= t.stream
    requires Editor(t.stream[t.r..], t.line) == Keys(Editor(s.stream[s.r..], s.line), cs)
    ensures After(Arrive(cs), s, t)
  {
    hide Keys;
  }

  lemma ReadAfter(s: Moment, t: Moment, n: nat, arrivals: seq<seq<Byte>>, killed: nat -> bool)
    requires s.r <= |s.stream| && s.r <= t.r <= |t.stream| && s.stream <= t.stream
    requires Waited(s.stream, s.line, arrivals, killed, s.r, n, t.sleeps, t.stream, t.line)
    requires t.res.Got? ==> Delivered(t.stream, s.r, t.r, n, t.res.bytes)
    requires t.res.Killed? ==> t.r == |t.stream| && RanDry(t.stream, s.r, n) && killed(t.sleeps)
    requires t.res.Asleep? ==>
      t.r == |t.stream| && RanDry(t.stream, s.r, n) && t.sleeps == |arrivals| && !killed(t.sleeps)
    requires Enough(s.stream, s.r, n) ==> t.res.Got?
    ensures After(Reads(n, arrivals, killed), s, t) && Sane(Call(s.r, t.r, n, t.res, t.stream))
  {
    hide Waited, Delivered, RanDry, Enough;
  }

  /** What a call took out of the queue: the bytes it returned and the end-of-file mark it consumed; if it was killed,
      or has not returned, the bytes that are lost with it. */
  ghost function TakenBy(c: Call): seq<Byte>
  {
    match c.res
    case Got(bytes) => bytes + if c.after > c.before + |bytes| then [CTRL_D] else []
    case _ => if c.before <= c.after <= |c.stream| then c.stream[c.before..c.after] else []
  }

  ghost function TakenOut(calls: seq<Call>): seq<Byte>
  {
    if calls == [] then [] else TakenOut(calls[..|calls|-1]) + TakenBy(calls[|calls|-1])
  }

  ghost predicate Sane(c: Call)
  {
    && c.before <= c.after <= |c.stream|
    && (c.res.Got? ==> Delivered(c.stream, c.before, c.after, c.n, c.res.bytes))
    && (!c.res.Got? ==> c.after == |c.stream| && RanDry(c.stream, c.before, c.n))
  }

  /** Successive calls, each starting where the last one ended, while the stream grows up to what it is now. */
  ghost predicate Successive(calls: seq<Call>, start: nat, end: nat, stream: seq<Byte>)
  {
    if calls == [] then start == end <= |stream|
    else
      var c := calls[|calls|-1];
      Successive(calls[..|calls|-1], start, c.before, c.stream) && Sane(c) && c.after == end && c.stream <= stream
  }

  lemma CallTakes(c: Call, stream: seq<Byte>)
    requires Sane(c) && c.stream <= stream
    ensures c.before <= c.after <= |stream| && TakenBy(c) == stream[c.before..c.after]
  {
  }

  lemma NoCalls(r: nat, stream: seq<Byte>)
    requires r <= |stream|
    ensures Successive([], r, r, stream)
  {
  }

  lemma OneCall(calls: seq<Call>, start: nat, c: Call, stream: seq<Byte>)
    requires Successive(calls, start, c.before, c.stream) && Sane(c) && c.stream <= stream
    ensures Successive(calls + [c], start, c.after, stream)
  {
    hide Sane;
    assert (calls + [c])[..|calls + [c]| - 1] == calls;
  }

  /** What was committed later changes nothing about calls that have returned. */
  lemma LaterStream(calls: seq<Call>, start: nat, end: nat, stream: seq<Byte>, stream': seq<Byte>)
    requires Successive(calls, start, end, stream) && stream <= stream'
    ensures Successive(calls, start, end, stream')
  {
    hide Sane;
  }

  /** Any number of reads, with keys arriving between and during them, take the committed stream out in order: nothing
      is lost but by a killed call, and nothing is repeated or invented. */
  lemma {:induction false} ReadsInOrder(calls: seq<Call>, start: nat, end: nat, stream: seq<Byte>)
    requires Successive(calls, start, end, stream)
    ensures start <= end <= |stream| && TakenOut(calls) == stream[start..end]
  {
    if calls != [] {
      var c := calls[|calls|-1];
      CallTakes(c, stream);
      hide Sane, TakenBy;
      ReadsInOrder(calls[..|calls|-1], start, c.before, c.stream);
      Slices(c.stream, stream, start, c.before, end);
    }
  }

  lemma Slices(s: seq<Byte>, t: seq<Byte>, a: nat, b: nat, c: nat)
    requires s <= t && a <= b <= c <= |t| && b <= |s|
    ensures s[a..b] == t[a..b] && t[a..c] == t[a..b] + t[b..c]
  {
  }
}
