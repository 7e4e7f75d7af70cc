/** Characters and tokens of user/sh.c: lexing by position, spelling tokens out, and C strings. */
module ShellText {
  import opened ShellSyntax

  /** Past white space. */
  function SkipFrom(s: string, i: nat): (r: nat)
    requires i <= |s|
    ensures i <= r <= |s| && (r < |s| ==> !IsSpace(s[r]))
    ensures forall k :: i <= k < r ==> IsSpace(s[k])
    decreases |s| - i
  {
    if i < |s| && IsSpace(s[i]) then SkipFrom(s, i + 1) else i
  }

  predicate EndsWord(c: char) { IsSpace(c) || IsSymbol(c) }

  /** Past the word at i. */
  function WordEnd(s: string, i: nat): (r: nat)
    requires i <= |s|
    ensures i <= r <= |s| && (r < |s| ==> EndsWord(s[r]))
    ensures forall k :: i <= k < r ==> !EndsWord(s[k])
    decreases |s| - i
  {
    if i < |s| && !EndsWord(s[i]) then WordEnd(s, i + 1) else i
  }

  function TokenAt(s: string, j: nat): Token
    requires j < |s| && !IsSpace(s[j])
  {
    if s[j] == '>' && j + 1 < |s| && s[j + 1] == '>' then Append
    else if IsSymbol(s[j]) then Symbol(s[j])
    else Word(s[j..WordEnd(s, j)])
  }

  function TokenEnd(s: string, j: nat): (e: nat)
    requires j < |s| && !IsSpace(s[j])
    ensures j < e <= |s|
  {
    if s[j] == '>' && j + 1 < |s| && s[j + 1] == '>' then j + 2
    else if IsSymbol(s[j]) then j + 1
    else WordEnd(s, j)
  }

  /** The tokens from position i on. */
  function Lexed(s: string, i: nat): Tokens
    requires i <= |s|
    decreases |s| - i
  {
    var j := SkipFrom(s, i);
    if j == |s| then Nil else Cons(TokenAt(s, j), Lexed(s, TokenEnd(s, j)))
  }

  lemma LexedSkip(s: string, i: nat)
    requires i <= |s|
    ensures Lexed(s, SkipFrom(s, i)) == Lexed(s, i)
  {}

  // ---------------------------------------------------------------- spelling

  function Text(t: Token): string {
    match t case Symbol(c) => [c] case Append => ">>" case Word(w) => w
  }

  function Spell(ts: Tokens): string {
    if ts.Nil? then "" else " " + Text(ts.head) + Spell(ts.tail)
  }

  predicate TokensOk(ts: Tokens) {
    ts.Cons? ==>
      && TokensOk(ts.tail)
      && (ts.head.Symbol? ==> IsSymbol(ts.head.c)) && (ts.head.Word? ==> IsWord(ts.head.text))
  }

  lemma {:induction false} WordsOk(argv: seq<string>, post: Tokens)
    requires TokensOk(post) && forall k :: 0 <= k < |argv| ==> IsWord(argv[k])
    ensures TokensOk(Words(argv, post))
  {
    if argv != [] {
      WordsOk(argv[1..], post);
    }
  }

  lemma {:induction false} PrintOk(t: Tree, level: nat, post: Tokens)
    requires WellFormed(t) && TokensOk(post)
    ensures TokensOk(Print(t, level, post))
    decreases t, if level == 0 then 0 else 2
  {
    match t
    case Exec(argv) => WordsOk(argv, post);
    case Redir(c, r) => PrintOk(c, 3, Cons(Op(r.mode), Cons(Word(r.file), post)));
    case Pipe(l, r) =>
      if level <= 2 {
        PrintOk(r, 2, post);
        PrintOk(l, 3, Cons(Symbol('|'), Print(r, 2, post)));
      } else {
        PrintOk(t, 0, Cons(Symbol(')'), post));
      }
    case Back(c) =>
      if level <= 1 {
        PrintOk(c, 1, Cons(Symbol('&'), post));
      } else {
        PrintOk(t, 0, Cons(Symbol(')'), post));
      }
    case List(l, r) =>
      if level == 0 {
        PrintOk(r, 0, post);
        PrintOk(l, 1, Cons(Symbol(';'), Print(r, 0, post)));
      } else {
        PrintOk(t, 0, Cons(Symbol(')'), post));
      }
  }

  lemma {:induction false} WordEndIs(s: string, i: nat, e: nat)
    requires i <= e <= |s| && (forall k :: i <= k < e ==> !EndsWord(s[k])) && (e < |s| ==> EndsWord(s[e]))
    ensures WordEnd(s, i) == e
    decreases e - i
  {}

  /** The token spelled at j, followed by a space or the end. */
  lemma ReadToken(s: string, j: nat, t: Token)
    requires (t.Symbol? ==> IsSymbol(t.c)) && (t.Word? ==> IsWord(t.text))
    requires j + |Text(t)| <= |s| && s[j..j + |Text(t)|] == Text(t)
    requires j + |Text(t)| < |s| ==> s[j + |Text(t)|] == ' '
    ensures j < |s| && !IsSpace(s[j]) && TokenAt(s, j) == t && TokenEnd(s, j) == j + |Text(t)|
  {
    var e := j + |Text(t)|;
    assert s[j] == s[j..e][0];
    assert t == Append ==> s[j + 1] == s[j..e][1];
    if t.Word? {
      forall k | j <= k < e ensures !EndsWord(s[k]) {
        assert s[k] == s[j..e][k - j];
      }
      WordEndIs(s, j, e);
    }
  }

  /** The tokens are spelled from position i to the end. */
  ghost predicate SpelledAt(s: string, i: nat, ts: Tokens)
    decreases ts
  {
    if ts.Nil? then i == |s|
    else
      var e := i + 1 + |Text(ts.head)|;
      e <= |s| && s[i] == ' ' && s[i + 1..e] == Text(ts.head) && SpelledAt(s, e, ts.tail)
  }

  lemma {:induction false} SpellSpells(pre: string, ts: Tokens)
    ensures SpelledAt(pre + Spell(ts), |pre|, ts)
    decreases ts
  {
    if ts.Cons? {
      var pre' := pre + (" " + Text(ts.head));
      assert pre + Spell(ts) == pre' + Spell(ts.tail);
      SpellSpells(pre', ts.tail);
      assert (pre' + Spell(ts.tail))[|pre| + 1..|pre'|] == pre'[|pre| + 1..] == Text(ts.head);
    }
  }

  lemma {:induction false} LexSpelled(s: string, i: nat, ts: Tokens)
    requires i <= |s| && SpelledAt(s, i, ts) && TokensOk(ts)
    ensures Lexed(s, i) == ts
    decreases ts
  {
    if ts.Cons? {
      var j := i + 1;
      var e := j + |Text(ts.head)|;
      ReadToken(s, j, ts.head);
      SkipOne(s, i);
      LexSpelled(s, e, ts.tail);
      assert SkipFrom(s, i) == j && TokenEnd(s, j) == e;
    }
  }

  lemma SkipOne(s: string, i: nat)
    requires i + 1 < |s| && IsSpace(s[i]) && !IsSpace(s[i + 1])
    ensures SkipFrom(s, i) == i + 1
  {}

  /** Parsing the spelled-out tokens of a tree gives the tree back. */
  lemma ParseSpelled(t: Tree)
    requires WellFormed(t)
    ensures Parse(Lexed(Spell(Print(t, 0, Nil)), 0)) == Ok(t, Nil)
  {
    var ts := Print(t, 0, Nil);
    PrintOk(t, 0, Nil);
    SpellSpells("", ts);
    assert "" + Spell(ts) == Spell(ts);
    LexSpelled(Spell(ts), 0, ts);
    ParsePrint(t);
  }

  // ---------------------------------------------------------------- every parsed tree can be printed

  ghost predicate RedirsFine(rs: seq<Redirection>) { forall k :: 0 <= k < |rs| ==> IsWord(rs[k].file) }

  lemma {:induction false} RedirsGive(ts: Tokens, rs: seq<Redirection>)
    requires TokensOk(ts) && RedirsFine(rs)
    ensures var x := Redirs(ts, rs); x.Ok? ==> RedirsFine(x.value) && TokensOk(x.rest)
  {
    if Peek(ts, "<>") && ts.tail.Cons? && ts.tail.head.Word? {
      RedirsGive(ts.tail.tail, rs + [Redirection(ModeOf(ts.head), ts.tail.head.text)]);
    }
  }

  lemma {:induction false} WrapGives(c: Tree, rs: seq<Redirection>)
    requires WellFormed(c) && RedirsFine(rs)
    ensures WellFormed(Wrap(c, rs))
    decreases |rs|
  {
    if rs != [] {
      WrapGives(Redir(c, rs[0]), rs[1..]);
    }
  }

  lemma {:induction false} ArgsGive(ts: Tokens, argv: seq<string>, rs: seq<Redirection>)
    requires TokensOk(ts) && WellFormed(Exec(argv)) && RedirsFine(rs)
    ensures var x := Args(ts, argv, rs); x.Ok? ==> WellFormed(x.value) && TokensOk(x.rest)
    decreases Size(ts)
  {
    if Peek(ts, "|)&;") || ts.Nil? {
      WrapGives(Exec(argv), rs);
    } else if ts.head.Word? && |argv| + 1 < MAXARGS {
      RedirsGive(ts.tail, rs);
      var x := Redirs(ts.tail, rs);
      if x.Ok? {
        ArgsGive(x.rest, argv + [ts.head.text], x.value);
      }
    }
  }

  lemma {:induction false} CommandGives(ts: Tokens)
    requires TokensOk(ts)
    ensures var x := Command(ts); x.Ok? ==> WellFormed(x.value) && TokensOk(x.rest)
    decreases Size(ts), 1
  {
    if Peek(ts, "(") {
      LineGives(ts.tail);
      var c := Line(ts.tail);
      if c.Ok? && Peek(c.rest, ")") {
        RedirsGive(c.rest.tail, []);
        if Redirs(c.rest.tail, []).Ok? {
          WrapGives(c.value, Redirs(c.rest.tail, []).value);
        }
      }
    } else {
      RedirsGive(ts, []);
      if Redirs(ts, []).Ok? {
        ArgsGive(Redirs(ts, []).rest, [], Redirs(ts, []).value);
      }
    }
  }

  lemma {:induction false} PipelineGives(ts: Tokens)
    requires TokensOk(ts)
    ensures var x := Pipeline(ts); x.Ok? ==> WellFormed(x.value) && TokensOk(x.rest)
    decreases Size(ts), 2
  {
    CommandGives(ts);
    var c := Command(ts);
    if c.Ok? && Peek(c.rest, "|") {
      PipelineGives(c.rest.tail);
    }
  }

  lemma {:induction false} BacksGive(c: Tree, ts: Tokens)
    requires TokensOk(ts) && WellFormed(c)
    ensures WellFormed(Backs(c, ts).0) && TokensOk(Backs(c, ts).1)
    decreases Size(ts)
  {
    if Peek(ts, "&") {
      BacksGive(Back(c), ts.tail);
    }
  }

  lemma {:induction false} LineGives(ts: Tokens)
    requires TokensOk(ts)
    ensures var x := Line(ts); x.Ok? ==> WellFormed(x.value) && TokensOk(x.rest)
    decreases Size(ts), 3
  {
    PipelineGives(ts);
    var c := Pipeline(ts);
    if c.Ok? {
      BacksGive(c.value, c.rest);
      var b := Backs(c.value, c.rest);
      if Peek(b.1, ";") {
        LineGives(b.1.tail);
      }
    }
  }

  lemma {:induction false} LexedOk(s: string, i: nat)
    requires i <= |s| && '\0' !in s
    ensures TokensOk(Lexed(s, i))
    decreases |s| - i
  {
    var j := SkipFrom(s, i);
    if j < |s| {
      LexedOk(s, TokenEnd(s, j));
    }
  }

  /** The printer covers exactly what the parser accepts: a parsed line printed and parsed again is the same tree. */
  lemma ParsedPrints(s: string)
    requires '\0' !in s && Parse(Lexed(s, 0)).Ok?
    ensures var t := Parse(Lexed(s, 0)).value;
            WellFormed(t) && Parse(Lexed(Spell(Print(t, 0, Nil)), 0)) == Ok(t, Nil)
  {
    LexedOk(s, 0);
    LineGives(Lexed(s, 0));
    ParseSpelled(Parse(Lexed(s, 0)).value);
  }

  // ---------------------------------------------------------------- commands that point into the line

  datatype Span = Span(q: nat, eq: nat)

  datatype RedirSpan = RedirSpan(mode: Mode, file: Span)

  datatype Cmd =
    | ExecCmd(argv: seq<Span>)
    | RedirCmd(cmd: Cmd, redirection: RedirSpan)
    | PipeCmd(left: Cmd, right: Cmd)
    | ListCmd(left: Cmd, right: Cmd)
    | BackCmd(cmd: Cmd)

  /** The span is one whole word of the line. */
  predicate SpanOk(s: string, w: Span) {
    && w.q < w.eq <= |s| && (w.eq < |s| ==> EndsWord(s[w.eq]))
    && forall k :: w.q <= k < w.eq ==> IsWordChar(s[k])
  }

  predicate CmdOk(s: string, c: Cmd) {
    match c
    case ExecCmd(argv) => forall k :: 0 <= k < |argv| ==> SpanOk(s, argv[k])
    case RedirCmd(c, r) => CmdOk(s, c) && SpanOk(s, r.file)
    case PipeCmd(l, r) => CmdOk(s, l) && CmdOk(s, r)
    case ListCmd(l, r) => CmdOk(s, l) && CmdOk(s, r)
    case BackCmd(c) => CmdOk(s, c)
  }

  function Get(s: string, w: Span): string { if w.q <= w.eq <= |s| then s[w.q..w.eq] else "" }

  function GetAll(s: string, ws: seq<Span>): (r: seq<string>)
    ensures |r| == |ws|
  {
    if ws == [] then [] else GetAll(s, ws[..|ws| - 1]) + [Get(s, ws[|ws| - 1])]
  }

  function GetRedir(s: string, r: RedirSpan): Redirection { Redirection(r.mode, Get(s, r.file)) }

  /** The tree with its words read between their ends. */
  function Deref(s: string, c: Cmd): Tree {
    match c
    case ExecCmd(argv) => Exec(GetAll(s, argv))
    case RedirCmd(c, r) => Redir(Deref(s, c), GetRedir(s, r))
    case PipeCmd(l, r) => Pipe(Deref(s, l), Deref(s, r))
    case ListCmd(l, r) => List(Deref(s, l), Deref(s, r))
    case BackCmd(c) => Back(Deref(s, c))
  }

  /** Where nulterminate() writes. */
  function Ends(c: Cmd): set<nat> {
    match c
    case ExecCmd(argv) => EndsOf(argv)
    case RedirCmd(c, r) => Ends(c) + {r.file.eq}
    case PipeCmd(l, r) => Ends(l) + Ends(r)
    case ListCmd(l, r) => Ends(l) + Ends(r)
    case BackCmd(c) => Ends(c)
  }

  function EndsOf(ws: seq<Span>): (r: set<nat>)
    ensures forall k :: 0 <= k < |ws| ==> ws[k].eq in r
  {
    if ws == [] then {} else EndsOf(ws[..|ws| - 1]) + {ws[|ws| - 1].eq}
  }

  function Terminated(b: string, ends: set<nat>): (r: string)
    ensures |r| == |b| && forall i :: 0 <= i < |b| ==> r[i] == if i in ends then '\0' else b[i]
  {
    seq(|b|, i requires 0 <= i < |b| => if i in ends then '\0' else b[i])
  }

  function CString(b: string, i: nat): string
    decreases |b| - i
  {
    if i >= |b| || b[i] == '\0' then "" else [b[i]] + CString(b, i + 1)
  }

  function CStrings(b: string, ws: seq<Span>): seq<string> {
    if ws == [] then [] else CStrings(b, ws[..|ws| - 1]) + [CString(b, ws[|ws| - 1].q)]
  }

  /** The tree with its words read as C strings, from their first characters on. */
  function AsStrings(b: string, c: Cmd): Tree {
    match c
    case ExecCmd(argv) => Exec(CStrings(b, argv))
    case RedirCmd(c, r) => Redir(AsStrings(b, c), Redirection(r.mode, CString(b, r.file.q)))
    case PipeCmd(l, r) => Pipe(AsStrings(b, l), AsStrings(b, r))
    case ListCmd(l, r) => List(AsStrings(b, l), AsStrings(b, r))
    case BackCmd(c) => Back(AsStrings(b, c))
  }

  // ---------------------------------------------------------------- after nulterminate()

  ghost predicate Delimiters(s: string, ends: set<nat>) {
    forall e :: e in ends ==> e <= |s| && (e < |s| ==> EndsWord(s[e]))
  }

  lemma {:induction false} EndsOfDelimit(s: string, ws: seq<Span>)
    requires forall k :: 0 <= k < |ws| ==> SpanOk(s, ws[k])
    ensures Delimiters(s, EndsOf(ws))
  {
    if ws != [] {
      EndsOfDelimit(s, ws[..|ws| - 1]);
      assert SpanOk(s, ws[|ws| - 1]);
    }
  }

  lemma {:induction false} EndsDelimit(s: string, c: Cmd)
    requires CmdOk(s, c)
    ensures Delimiters(s, Ends(c))
  {
    match c
    case ExecCmd(argv) => EndsOfDelimit(s, argv);
    case RedirCmd(d, r) => EndsDelimit(s, d);
    case PipeCmd(l, r) => EndsDelimit(s, l); EndsDelimit(s, r);
    case ListCmd(l, r) => EndsDelimit(s, l); EndsDelimit(s, r);
    case BackCmd(d) => EndsDelimit(s, d);
  }

  lemma {:induction false} CStringUpTo(b: string, i: nat, e: nat)
    requires i <= e < |b| && b[e] == '\0' && forall k :: i <= k < e ==> b[k] != '\0'
    ensures CString(b, i) == b[i..e]
    decreases e - i
  {
    if i < e {
      CStringUpTo(b, i + 1, e);
    }
  }

  /** No end falls inside a word, so each word stops at its own. */
  lemma SpanReads(s: string, w: Span, ends: set<nat>)
    requires SpanOk(s, w) && Delimiters(s, ends) && w.eq in ends
    ensures CString(Terminated(s + ['\0'], ends), w.q) == Get(s, w)
  {
    var b := Terminated(s + ['\0'], ends);
    forall k | w.q <= k < w.eq ensures b[k] == s[k] != '\0' {
      assert !EndsWord(s[k]);
    }
    CStringUpTo(b, w.q, w.eq);
    assert b[w.q..w.eq] == s[w.q..w.eq];
  }

  lemma {:induction false} SpansRead(s: string, ws: seq<Span>, ends: set<nat>)
    requires (forall k :: 0 <= k < |ws| ==> SpanOk(s, ws[k])) && Delimiters(s, ends) && EndsOf(ws) <= ends
    ensures CStrings(Terminated(s + ['\0'], ends), ws) == GetAll(s, ws)
  {
    if ws != [] {
      SpansRead(s, ws[..|ws| - 1], ends);
      SpanReads(s, ws[|ws| - 1], ends);
    }
  }

  /** Once all ends are NUL, every word read as a C string is exactly its token. */
  lemma {:induction false} TerminatedReads(s: string, c: Cmd, ends: set<nat>)
    requires CmdOk(s, c) && Delimiters(s, ends) && Ends(c) <= ends
    ensures AsStrings(Terminated(s + ['\0'], ends), c) == Deref(s, c)
  {
    match c
    case ExecCmd(argv) => SpansRead(s, argv, ends);
    case RedirCmd(d, r) => TerminatedReads(s, d, ends); SpanReads(s, r.file, ends);
    case PipeCmd(l, r) => TerminatedReads(s, l, ends); TerminatedReads(s, r, ends);
    case ListCmd(l, r) => TerminatedReads(s, l, ends); TerminatedReads(s, r, ends);
    case BackCmd(d) => TerminatedReads(s, d, ends);
  }
}
