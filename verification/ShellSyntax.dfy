/**
 The command language of user/sh.c: its tokens, what the recursive-descent parser accepts, a
 printer, and the proof that parsing inverts printing.
*/
module ShellSyntax {

  const MAXARGS: nat := 10

  /** The modes of redircmd: O_RDONLY on fd 0; O_WRONLY|O_CREATE|O_TRUNC and O_WRONLY|O_CREATE on fd 1. */
  datatype Mode = Read | Truncate | Extend

  datatype Redirection = Redirection(mode: Mode, file: string)

  datatype Tree =
    | Exec(argv: seq<string>)
    | Redir(cmd: Tree, redirection: Redirection)
    | Pipe(left: Tree, right: Tree)
    | List(left: Tree, right: Tree)
    | Back(cmd: Tree)

  /** What gettoken() returns, with the text of a word. */
  datatype Token = Symbol(c: char) | Append | Word(text: string)

  datatype Tokens = Nil | Cons(head: Token, tail: Tokens)

  datatype Why = MissingFile | MissingParen | Syntax | TooManyArgs | Leftovers

  datatype Parsed<T> = Ok(value: T, rest: Tokens) | Panic(why: Why)

  // ---------------------------------------------------------------- parser

  function Size(ts: Tokens): nat { if ts.Nil? then 0 else 1 + Size(ts.tail) }

  /** peek(): the next token starts with one of these characters. */
  predicate Peek(ts: Tokens, toks: string) {
    ts.Cons? && ((ts.head.Symbol? && ts.head.c in toks) || (ts.head.Append? && '>' in toks))
  }

  function ModeOf(t: Token): Mode {
    if t == Symbol('<') then Read else if t == Append then Extend else Truncate
  }

  function Redirs(ts: Tokens, rs: seq<Redirection>): (x: Parsed<seq<Redirection>>)
    ensures x.Ok? ==> Size(x.rest) <= Size(ts)
  {
    if !Peek(ts, "<>") then Ok(rs, ts)
    else if ts.tail.Nil? || !ts.tail.head.Word? then Panic(MissingFile)
    else Redirs(ts.tail.tail, rs + [Redirection(ModeOf(ts.head), ts.tail.head.text)])
  }

  /** Redirections apply from the inside out, in the order they were written. */
  function Wrap(c: Tree, rs: seq<Redirection>): Tree
    decreases |rs|
  {
    if rs == [] then c else Wrap(Redir(c, rs[0]), rs[1..])
  }

  function Args(ts: Tokens, argv: seq<string>, rs: seq<Redirection>): (x: Parsed<Tree>)
    ensures x.Ok? ==> Size(x.rest) <= Size(ts)
    decreases Size(ts)
  {
    if Peek(ts, "|)&;") || ts.Nil? then Ok(Wrap(Exec(argv), rs), ts)
    else if !ts.head.Word? then Panic(Syntax)
    else if |argv| + 1 >= MAXARGS then Panic(TooManyArgs)
    else
      var x := Redirs(ts.tail, rs);
      if x.Panic? then Panic(x.why) else Args(x.rest, argv + [ts.head.text], x.value)
  }

  function Command(ts: Tokens): (x: Parsed<Tree>)
    ensures x.Ok? ==> Size(x.rest) <= Size(ts)
    decreases Size(ts), 1
  {
    if Peek(ts, "(") then Block(ts)
    else
      var x := Redirs(ts, []);
      if x.Panic? then Panic(x.why) else Args(x.rest, [], x.value)
  }

  function Block(ts: Tokens): (x: Parsed<Tree>)
    requires Peek(ts, "(")
    ensures x.Ok? ==> Size(x.rest) <= Size(ts)
    decreases Size(ts), 0
  {
    var c := Line(ts.tail);
    if c.Panic? then c
    else if !Peek(c.rest, ")") then Panic(MissingParen)
    else
      var x := Redirs(c.rest.tail, []);
      if x.Panic? then Panic(x.why) else Ok(Wrap(c.value, x.value), x.rest)
  }

  function Pipeline(ts: Tokens): (x: Parsed<Tree>)
    ensures x.Ok? ==> Size(x.rest) <= Size(ts)
    decreases Size(ts), 2
  {
    var c := Command(ts);
    if c.Panic? || !Peek(c.rest, "|") then c
    else
      var d := Pipeline(c.rest.tail);
      if d.Panic? then d else Ok(Pipe(c.value, d.value), d.rest)
  }

  function Backs(c: Tree, ts: Tokens): (x: (Tree, Tokens))
    ensures Size(x.1) <= Size(ts)
    decreases Size(ts)
  {
    if Peek(ts, "&") then Backs(Back(c), ts.tail) else (c, ts)
  }

  function Line(ts: Tokens): (x: Parsed<Tree>)
    ensures x.Ok? ==> Size(x.rest) <= Size(ts)
    decreases Size(ts), 3
  {
    var c := Pipeline(ts);
    if c.Panic? then c
    else
      var b := Backs(c.value, c.rest);
      if !Peek(b.1, ";") then Ok(b.0, b.1)
      else
        var d := Line(b.1.tail);
        if d.Panic? then d else Ok(List(b.0, d.value), d.rest)
  }

  /** parsecmd() */
  function Parse(ts: Tokens): Parsed<Tree> {
    var c := Line(ts);
    if c.Ok? && c.rest.Cons? then Panic(Leftovers) else c
  }

  // ---------------------------------------------------------------- printer

  predicate IsSpace(c: char) { c in " \t\r\n\U{0B}" }

  predicate IsSymbol(c: char) { c in "<|>&;()" }

  predicate IsWordChar(c: char) { !IsSpace(c) && !IsSymbol(c) && c != '\0' }

  predicate IsWord(w: string) { w != "" && forall k :: 0 <= k < |w| ==> IsWordChar(w[k]) }

  /** Trees a line can denote. */
  predicate WellFormed(t: Tree) {
    match t
    case Exec(argv) => |argv| < MAXARGS && forall k :: 0 <= k < |argv| ==> IsWord(argv[k])
    case Redir(c, r) => WellFormed(c) && IsWord(r.file)
    case Pipe(l, r) => WellFormed(l) && WellFormed(r)
    case List(l, r) => WellFormed(l) && WellFormed(r)
    case Back(c) => WellFormed(c)
  }

  function Op(m: Mode): Token {
    match m case Read => Symbol('<') case Truncate => Symbol('>') case Extend => Append
  }

  function Words(argv: seq<string>, post: Tokens): Tokens {
    if argv == [] then post else Cons(Word(argv[0]), Words(argv[1..], post))
  }

  /**
   The tokens of t before those of post.  Level 0 is a line, 1 a background list, 2 a pipeline and
   3 a command; parentheses make a command of anything.
  */
  function Print(t: Tree, level: nat, post: Tokens): Tokens
    decreases t, if level == 0 then 0 else 2
  {
    match t
    case Exec(argv) => Words(argv, post)
    case Redir(c, r) => Print(c, 3, Cons(Op(r.mode), Cons(Word(r.file), post)))
    case Pipe(l, r) => if level <= 2 then Print(l, 3, Cons(Symbol('|'), Print(r, 2, post))) else InParens(t, post)
    case Back(c) => if level <= 1 then Print(c, 1, Cons(Symbol('&'), post)) else InParens(t, post)
    case List(l, r) => if level == 0 then Print(l, 1, Cons(Symbol(';'), Print(r, 0, post))) else InParens(t, post)
  }

  function InParens(t: Tree, post: Tokens): Tokens
    decreases t, 1
  {
    Cons(Symbol('('), Print(t, 0, Cons(Symbol(')'), post)))
  }

  // ---------------------------------------------------------------- parsing inverts printing

  /** What may follow: the end, or one of the symbols. */
  predicate Follows(post: Tokens, toks: string) { post.Nil? || (post.head.Symbol? && post.head.c in toks) }

  lemma {:induction false} RedirsFrom(ts: Tokens, acc: seq<Redirection>, rs: seq<Redirection>)
    requires Redirs(ts, rs).Ok?
    ensures Redirs(ts, acc + rs) == Ok(acc + Redirs(ts, rs).value, Redirs(ts, rs).rest)
  {
    if Peek(ts, "<>") {
      var r := Redirection(ModeOf(ts.head), ts.tail.head.text);
      RedirsFrom(ts.tail.tail, acc, rs + [r]);
      assert acc + (rs + [r]) == acc + rs + [r];
    }
  }

  lemma {:induction false} ReadArgs(argv: seq<string>, acc: seq<string>, post: Tokens, rs: seq<Redirection>,
                                    rest: Tokens)
    requires |acc| + |argv| < MAXARGS && argv != []
    requires Redirs(post, []) == Ok(rs, rest) && Follows(rest, "|)&;")
    ensures Args(Words(argv, post), acc, []) == Ok(Wrap(Exec(acc + argv), rs), rest)
    decreases |argv|
  {
    if |argv| == 1 {
      assert argv[1..] == [] && acc + [argv[0]] == acc + argv;
      assert Args(rest, acc + argv, rs) == Ok(Wrap(Exec(acc + argv), rs), rest);
    } else {
      ReadArgs(argv[1..], acc + [argv[0]], post, rs, rest);
      assert acc + [argv[0]] + argv[1..] == acc + argv;
      assert Redirs(Words(argv[1..], post), []) == Ok([], Words(argv[1..], post));
    }
  }

  lemma ReadExec(argv: seq<string>, post: Tokens, rs: seq<Redirection>, rest: Tokens)
    requires WellFormed(Exec(argv)) && Redirs(post, []) == Ok(rs, rest) && Follows(rest, "|)&;")
    ensures Command(Print(Exec(argv), 3, post)) == Ok(Wrap(Exec(argv), rs), rest)
  {
    if argv == [] {
      assert Args(rest, [], rs) == Ok(Wrap(Exec(argv), rs), rest);
      assert !Peek(post, "(");
    } else {
      ReadArgs(argv, [], post, rs, rest);
      assert [] + argv == argv;
      assert Redirs(Words(argv, post), []) == Ok([], Words(argv, post));
    }
  }

  /** A printed command, with redirections behind it. */
  lemma {:induction false} ReadCommand(t: Tree, post: Tokens, rs: seq<Redirection>, rest: Tokens)
    requires WellFormed(t) && Redirs(post, []) == Ok(rs, rest) && Follows(rest, "|)&;")
    ensures Command(Print(t, 3, post)) == Ok(Wrap(t, rs), rest)
    decreases t, 4
  {
    match t
    case Exec(argv) => ReadExec(argv, post, rs, rest);
    case Redir(c, r) =>
      var post' := Cons(Op(r.mode), Cons(Word(r.file), post));
      RedirsFrom(post, [r], []);
      assert [r] + [] == [r] && [] + [r] == [r];
      assert Redirs(post', []) == Redirs(post, [r]);
      assert ([r] + rs)[1..] == rs;
      ReadCommand(c, post', [r] + rs, rest);
    case _ =>
      ReadLine(t, Cons(Symbol(')'), post));
  }

  lemma NoRedirs(post: Tokens)
    requires Follows(post, "|)&;")
    ensures Redirs(post, []) == Ok([], post)
  {}

  lemma {:induction false} ReadPipeline(t: Tree, post: Tokens)
    requires WellFormed(t) && Follows(post, ")&;")
    ensures Pipeline(Print(t, 2, post)) == Ok(t, post)
    decreases t, 5
  {
    NoRedirs(post);
    match t
    case Pipe(l, r) =>
      var more := Cons(Symbol('|'), Print(r, 2, post));
      ReadCommand(l, more, [], more);
      ReadPipeline(r, post);
    case _ =>
      ReadCommand(t, post, [], post);
      PrintCommand(t, post);
  }

  /** Below pipelines, levels 2 and 3 print alike. */
  lemma PrintCommand(t: Tree, post: Tokens)
    requires !t.Pipe?
    ensures Print(t, 2, post) == Print(t, 3, post)
  {}

  /** The part of parseline() before ';'. */
  function Background(ts: Tokens): Parsed<Tree> {
    var c := Pipeline(ts);
    if c.Panic? then c else var b := Backs(c.value, c.rest); Ok(b.0, b.1)
  }

  /** post is any number of '&', then something that ends a background list. */
  lemma {:induction false} ReadBackground(t: Tree, post: Tokens)
    requires WellFormed(t) && Follows(post, ")&;")
    ensures Background(Print(t, 1, post)) == (var b := Backs(t, post); Ok(b.0, b.1))
    decreases t, 6
  {
    match t
    case Back(c) => ReadBackground(c, Cons(Symbol('&'), post));
    case _ =>
      ReadPipeline(t, post);
      assert Print(t, 1, post) == Print(t, 2, post);
  }

  lemma {:induction false} ReadLine(t: Tree, post: Tokens)
    requires WellFormed(t) && Follows(post, ")")
    ensures Line(Print(t, 0, post)) == Ok(t, post)
    decreases t, if t.Exec? || t.Redir? then 5 else 3
  {
    match t
    case List(l, r) =>
      ReadBackground(l, Cons(Symbol(';'), Print(r, 0, post)));
      ReadLine(r, post);
    case Pipe(l, r) =>
      NoRedirs(post);
      var more := Cons(Symbol('|'), Print(r, 2, post));
      ReadCommand(l, more, [], more);
      ReadPipeline(r, post);
    case Back(c) => ReadBackground(c, Cons(Symbol('&'), post));
    case Exec(argv) => NoRedirs(post); ReadCommand(t, post, [], post);
    case Redir(c, r) => NoRedirs(post); ReadCommand(t, post, [], post);
  }

  /** Parsing the tokens of a tree gives the tree back. */
  lemma ParsePrint(t: Tree)
    requires WellFormed(t)
    ensures Parse(Print(t, 0, Nil)) == Ok(t, Nil)
  {
    ReadLine(t, Nil);
  }
}
