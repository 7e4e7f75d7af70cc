/**
 The parser of user/sh.c as code: methods that advance a shared cursor over the line, and
 nulterminate() writing into it.  Each parse method is proved against the function of the same
 part of the language in ShellSyntax.
*/
module Shell {
  import opened ShellSyntax
  import opened ShellText

  datatype Result<T> = Done(value: T) | Fail(why: Why)

  /** parseexec() fills argv through a pointer while redirections already wrap it; here they are put on at the end. */
  function WrapCmd(c: Cmd, rs: seq<RedirSpan>): Cmd
    decreases |rs|
  {
    if rs == [] then c else WrapCmd(RedirCmd(c, rs[0]), rs[1..])
  }

  function GetRedirs(s: string, rs: seq<RedirSpan>): (r: seq<Redirection>)
    ensures |r| == |rs|
  {
    if rs == [] then [] else GetRedirs(s, rs[..|rs| - 1]) + [GetRedir(s, rs[|rs| - 1])]
  }

  lemma {:induction false} GetRedirsAt(s: string, rs: seq<RedirSpan>, k: nat)
    requires k < |rs|
    ensures GetRedirs(s, rs)[k] == GetRedir(s, rs[k])
  {
    if k < |rs| - 1 {
      GetRedirsAt(s, rs[..|rs| - 1], k);
    }
  }

  predicate RedirsOk(s: string, rs: seq<RedirSpan>) { forall k :: 0 <= k < |rs| ==> SpanOk(s, rs[k].file) }

  lemma {:induction false} WrapDeref(s: string, c: Cmd, rs: seq<RedirSpan>)
    requires CmdOk(s, c) && RedirsOk(s, rs)
    ensures CmdOk(s, WrapCmd(c, rs)) && Deref(s, WrapCmd(c, rs)) == Wrap(Deref(s, c), GetRedirs(s, rs))
    decreases |rs|
  {
    if rs != [] {
      WrapDeref(s, RedirCmd(c, rs[0]), rs[1..]);
      GetRedirsAt(s, rs, 0);
      forall k | 0 <= k < |rs| - 1 ensures GetRedirs(s, rs[1..])[k] == GetRedirs(s, rs)[1..][k] {
        GetRedirsAt(s, rs[1..], k);
        GetRedirsAt(s, rs, k + 1);
      }
      assert GetRedirs(s, rs[1..]) == GetRedirs(s, rs)[1..];
    }
  }

  lemma WordSpan(s: string, j: nat)
    requires j < |s| && !IsSpace(s[j]) && !IsSymbol(s[j]) && '\0' !in s
    ensures SpanOk(s, Span(j, WordEnd(s, j))) && TokenAt(s, j) == Word(Get(s, Span(j, WordEnd(s, j))))
  {}

  class Parser {
    const s: string
    var pos: nat

    predicate Valid()
      reads this
    {
      pos <= |s| && '\0' !in s
    }

    constructor (s: string)
      requires '\0' !in s
      ensures Valid() && pos == 0 && this.s == s
    {
      this.s, pos := s, 0;
    }

    ghost function Rest(): Tokens
      requires Valid()
      reads this
    {
      Lexed(s, pos)
    }

    method SkipSpace()
      requires Valid()
      modifies this
      ensures Valid() && pos == SkipFrom(s, old(pos)) && Rest() == old(Rest())
    {
      LexedSkip(s, pos);
      while pos < |s| && IsSpace(s[pos])
        invariant Valid() && SkipFrom(s, pos) == SkipFrom(s, old(pos))
      {
        pos := pos + 1;
      }
    }

    /** gettoken(); `more` is false for token 0. */
    method Gettoken() returns (more: bool, t: Token, w: Span)
      requires Valid()
      modifies this
      ensures Valid() && more == old(Rest()).Cons?
      ensures more ==> t == old(Rest()).head && Rest() == old(Rest()).tail && pos > old(pos)
      ensures more && t.Word? ==> SpanOk(s, w) && t.text == Get(s, w)
      ensures !more ==> Rest().Nil? && pos >= old(pos)
    {
      SkipSpace();
      var q := pos;
      if q == |s| {
        return false, Append, Span(q, q);
      }
      if s[pos] == '>' {
        pos := pos + 1;
        t := Symbol('>');
        if pos < |s| && s[pos] == '>' {
          t := Append;
          pos := pos + 1;
        }
      } else if IsSymbol(s[pos]) {
        t := Symbol(s[pos]);
        pos := pos + 1;
      } else {
        WordSpan(s, q);
        while pos < |s| && !IsSpace(s[pos]) && !IsSymbol(s[pos])
          invariant Valid() && q <= pos && WordEnd(s, pos) == WordEnd(s, q)
        {
          pos := pos + 1;
        }
        t := Word(s[q..pos]);
      }
      w := Span(q, pos);
      more := true;
      assert t == TokenAt(s, q) && pos == TokenEnd(s, q);
      SkipSpace();
    }

    /** peek() for symbols. */
    method PeekFor(toks: string) returns (b: bool)
      requires Valid() && forall c :: c in toks ==> IsSymbol(c)
      modifies this
      ensures Valid() && Rest() == old(Rest()) && pos >= old(pos)
      ensures b == Peek(Rest(), toks)
    {
      SkipSpace();
      assert SkipFrom(s, pos) == pos;
      b := pos < |s| && s[pos] in toks;
    }

    /** parseredirs(), collecting the redirections. */
    method Parseredirs(rs0: seq<RedirSpan>) returns (r: Result<seq<RedirSpan>>)
      requires Valid() && RedirsOk(s, rs0)
      modifies this
      ensures Valid() && pos >= old(pos)
      ensures r.Done? ==> RedirsOk(s, r.value)
      ensures r.Done? ==> Redirs(old(Rest()), GetRedirs(s, rs0)) == Ok(GetRedirs(s, r.value), Rest())
      ensures r.Fail? ==> Redirs(old(Rest()), GetRedirs(s, rs0)) == Panic(r.why)
    {
      var rs := rs0;
      while true
        invariant Valid() && pos >= old(pos) && RedirsOk(s, rs)
        invariant Redirs(Rest(), GetRedirs(s, rs)) == Redirs(old(Rest()), GetRedirs(s, rs0))
        decreases |s| - pos
      {
        var b := PeekFor("<>");
        if !b {
          return Done(rs);
        }
        var more, op, w := Gettoken();
        var more2, file, f := Gettoken();
        if !more2 || !file.Word? {
          return Fail(MissingFile);
        }
        rs := rs + [RedirSpan(ModeOf(op), f)];
      }
    }

    /** parseline() */
    method Parseline() returns (r: Result<Cmd>)
      requires Valid()
      modifies this
      ensures Valid() && pos >= old(pos)
      ensures r.Done? ==> CmdOk(s, r.value) && Line(old(Rest())) == Ok(Deref(s, r.value), Rest())
      ensures r.Fail? ==> Line(old(Rest())) == Panic(r.why)
      decreases |s| - pos, 3
    {
      r := Parsepipe();
      if r.Fail? {
        return;
      }
      var cmd := r.value;
      ghost var tree, ts := Deref(s, cmd), Rest();
      var b := PeekFor("&");
      while b
        invariant Valid() && pos >= old(pos) && CmdOk(s, cmd) && b == Peek(Rest(), "&")
        invariant Backs(Deref(s, cmd), Rest()) == Backs(tree, ts)
        decreases |s| - pos
      {
        var more, t, w := Gettoken();
        cmd := BackCmd(cmd);
        b := PeekFor("&");
      }
      b := PeekFor(";");
      if b {
        var more, t, w := Gettoken();
        r := Parseline();
        if r.Fail? {
          return;
        }
        cmd := ListCmd(cmd, r.value);
      }
      r := Done(cmd);
    }

    /** parsepipe() */
    method Parsepipe() returns (r: Result<Cmd>)
      requires Valid()
      modifies this
      ensures Valid() && pos >= old(pos)
      ensures r.Done? ==> CmdOk(s, r.value) && Pipeline(old(Rest())) == Ok(Deref(s, r.value), Rest())
      ensures r.Fail? ==> Pipeline(old(Rest())) == Panic(r.why)
      decreases |s| - pos, 2
    {
      r := Parseexec();
      if r.Fail? {
        return;
      }
      var cmd := r.value;
      var b := PeekFor("|");
      if b {
        var more, t, w := Gettoken();
        r := Parsepipe();
        if r.Fail? {
          return;
        }
        r := Done(PipeCmd(cmd, r.value));
      }
    }

    /** parseblock(); its own check for '(' cannot fail. */
    method Parseblock() returns (r: Result<Cmd>)
      requires Valid() && Peek(Rest(), "(")
      modifies this
      ensures Valid() && pos >= old(pos)
      ensures r.Done? ==> CmdOk(s, r.value) && Block(old(Rest())) == Ok(Deref(s, r.value), Rest())
      ensures r.Fail? ==> Block(old(Rest())) == Panic(r.why)
      decreases |s| - pos, 0
    {
      var more, t, w := Gettoken();
      r := Parseline();
      if r.Fail? {
        return;
      }
      var b := PeekFor(")");
      if !b {
        return Fail(MissingParen);
      }
      more, t, w := Gettoken();
      var x := Parseredirs([]);
      if x.Fail? {
        return Fail(x.why);
      }
      WrapDeref(s, r.value, x.value);
      r := Done(WrapCmd(r.value, x.value));
    }

    /** parseexec() */
    method Parseexec() returns (r: Result<Cmd>)
      requires Valid()
      modifies this
      ensures Valid() && pos >= old(pos)
      ensures r.Done? ==> CmdOk(s, r.value) && Command(old(Rest())) == Ok(Deref(s, r.value), Rest())
      ensures r.Fail? ==> Command(old(Rest())) == Panic(r.why)
      decreases |s| - pos, 1
    {
      var b := PeekFor("(");
      if b {
        r := Parseblock();
        return;
      }
      var x := Parseredirs([]);
      if x.Fail? {
        return Fail(x.why);
      }
      r := Parseargs(x.value);
    }

    /** The argument loop of parseexec(). */
    method Parseargs(rs0: seq<RedirSpan>) returns (r: Result<Cmd>)
      requires Valid() && RedirsOk(s, rs0)
      modifies this
      ensures Valid() && pos >= old(pos)
      ensures r.Done? ==> CmdOk(s, r.value) && Args(old(Rest()), [], GetRedirs(s, rs0)) == Ok(Deref(s, r.value), Rest())
      ensures r.Fail? ==> Args(old(Rest()), [], GetRedirs(s, rs0)) == Panic(r.why)
    {
      var argv: seq<Span>, rs := [], rs0;
      while true
        invariant Valid() && pos >= old(pos) && RedirsOk(s, rs) && CmdOk(s, ExecCmd(argv)) && |argv| < MAXARGS
        invariant Args(Rest(), GetAll(s, argv), GetRedirs(s, rs)) == Args(old(Rest()), [], GetRedirs(s, rs0))
        decreases |s| - pos
      {
        var b := PeekFor("|)&;");
        if b {
          WrapDeref(s, ExecCmd(argv), rs);
          return Done(WrapCmd(ExecCmd(argv), rs));
        }
        var more, t, w := Gettoken();
        if !more {
          WrapDeref(s, ExecCmd(argv), rs);
          return Done(WrapCmd(ExecCmd(argv), rs));
        }
        if !t.Word? {
          return Fail(Syntax);
        }
        argv := argv + [w];
        if |argv| >= MAXARGS {
          return Fail(TooManyArgs);
        }
        var x := Parseredirs(rs);
        if x.Fail? {
          return Fail(x.why);
        }
        rs := x.value;
      }
    }
  }

  /** nulterminate(): a NUL at the end of every word, and nothing else. */
  method Nulterminate(buf: array<char>, cmd: Cmd)
    requires forall e :: e in Ends(cmd) ==> e < buf.Length
    modifies buf
    ensures buf[..] == Terminated(old(buf[..]), Ends(cmd))
    decreases cmd
  {
    match cmd
    case ExecCmd(argv) =>
      var i := 0;
      while i < |argv|
        invariant 0 <= i <= |argv| && buf[..] == Terminated(old(buf[..]), EndsOf(argv[..i]))
      {
        assert argv[..i + 1][..i] == argv[..i];
        buf[argv[i].eq] := '\0';
        i := i + 1;
      }
      assert argv[..i] == argv;
    case RedirCmd(c, r) =>
      assert Ends(cmd) == Ends(c) + {r.file.eq};
      Nulterminate(buf, c);
      buf[r.file.eq] := '\0';
    case PipeCmd(l, r) =>
      assert Ends(cmd) == Ends(l) + Ends(r);
      Nulterminate(buf, l);
      Nulterminate(buf, r);
    case ListCmd(l, r) =>
      assert Ends(cmd) == Ends(l) + Ends(r);
      Nulterminate(buf, l);
      Nulterminate(buf, r);
    case BackCmd(c) =>
      Nulterminate(buf, c);
  }

  /** strlen() */
  method Strlen(buf: array<char>) returns (n: nat)
    requires '\0' in buf[..]
    ensures n < buf.Length && buf[n] == '\0' && '\0' !in buf[..n]
  {
    ghost var k :| 0 <= k < buf.Length && buf[k] == '\0';
    n := 0;
    while buf[n] != '\0'
      invariant n <= k && '\0' !in buf[..n]
      decreases k - n
    {
      n := n + 1;
    }
  }

  /** parsecmd() up to nulterminate(). */
  method ParseText(s: string) returns (r: Result<Cmd>)
    requires '\0' !in s
    ensures r.Done? ==> CmdOk(s, r.value) && Parse(Lexed(s, 0)) == Ok(Deref(s, r.value), Nil)
    ensures r.Fail? ==> Parse(Lexed(s, 0)) == Panic(r.why)
  {
    var p := new Parser(s);
    r := p.Parseline();
    if r.Fail? {
      return;
    }
    p.SkipSpace();
    if p.pos != |s| {
      r := Fail(Leftovers);
    }
  }

  /** parsecmd(): the command parsed, with its words as C strings in the line. */
  method Parsecmd(buf: array<char>) returns (r: Result<Cmd>, n: nat)
    requires '\0' in buf[..]
    modifies buf
    ensures n < buf.Length && old(buf[n]) == '\0' && '\0' !in old(buf[..n])
    ensures r.Done? ==> Parse(Lexed(old(buf[..n]), 0)) == Ok(AsStrings(buf[..n + 1], r.value), Nil)
    ensures r.Fail? ==> Parse(Lexed(old(buf[..n]), 0)) == Panic(r.why) && buf[..] == old(buf[..])
  {
    n := Strlen(buf);
    var s := buf[..n];
    r := ParseText(s);
    if r.Done? {
      EndsDelimit(s, r.value);
      TerminatedReads(s, r.value, Ends(r.value));
      Nulterminate(buf, r.value);
      assert buf[..n + 1] == Terminated(s + ['\0'], Ends(r.value));
    }
  }
}
