/** user/grep.c: the regular-expression matcher and the chunked line reader. */
module Grep {

  const BUFSIZE: nat := 1024

  datatype Item = One(c: char) | Star(c: char)

  /** What a pattern denotes: items to match in a row, perhaps up to the end of the text. */
  datatype Regex = Regex(items: seq<Item>, toEnd: bool)

  predicate Fits(c: char, x: char) { c == '.' || c == x }

  /** The pattern without a leading '^'. */
  function Compile(re: string): Regex {
    if re == "" then Regex([], false)
    else if |re| > 1 && re[1] == '*' then
      var r := Compile(re[2..]); Regex([Star(re[0])] + r.items, r.toEnd)
    else if re == "$" then Regex([], true)
    else
      var r := Compile(re[1..]); Regex([One(re[0])] + r.items, r.toEnd)
  }

  /** w is exactly one match of the items. */
  ghost predicate InLang(items: seq<Item>, w: string)
    decreases |items|
  {
    if items == [] then w == ""
    else match items[0]
      case One(c) => w != "" && Fits(c, w[0]) && InLang(items[1..], w[1..])
      case Star(c) => exists k :: 0 <= k <= |w| && AllFit(c, w[..k]) && InLang(items[1..], w[k..])
  }

  predicate AllFit(c: char, w: string) { forall j :: 0 <= j < |w| ==> Fits(c, w[j]) }

  /** text[i..n] is a match. */
  ghost predicate Part(r: Regex, text: string, i: nat, n: nat) {
    i <= n <= |text| && (r.toEnd ==> n == |text|) && InLang(r.items, text[i..n])
  }

  /** Some part of the text, from its start if anchored, is a match. */
  ghost predicate Matches(re: string, text: string) {
    if re != "" && re[0] == '^' then Somewhere(Compile(re[1..]), true, text) else Somewhere(Compile(re), false, text)
  }

  ghost predicate Somewhere(r: Regex, anchored: bool, text: string) {
    exists i: nat, n: nat :: (anchored ==> i == 0) && Part(r, text, i, n)
  }

  /** A match that starts at the start of the text. */
  ghost predicate Here(r: Regex, text: string) {
    exists n :: 0 <= n <= |text| && (r.toEnd ==> n == |text|) && InLang(r.items, text[..n])
  }

  // ---------------------------------------------------------------- the matcher

  lemma HereEmpty(toEnd: bool, text: string)
    ensures Here(Regex([], toEnd), text) <==> (toEnd ==> text == "")
  {
    assert text[..0] == "";
    if toEnd ==> text == "" {
      assert InLang([], text[..0]);
    }
  }

  lemma HereOne(c: char, r: Regex, text: string)
    ensures Here(Regex([One(c)] + r.items, r.toEnd), text) <==> text != "" && Fits(c, text[0]) && Here(r, text[1..])
  {
    var items := [One(c)] + r.items;
    assert items[1..] == r.items;
    if text != "" {
      forall n | 1 <= n <= |text| ensures text[..n][1..] == text[1..][..n - 1] {}
      if Fits(c, text[0]) && Here(r, text[1..]) {
        var n :| 0 <= n <= |text[1..]| && (r.toEnd ==> n == |text[1..]|) && InLang(r.items, text[1..][..n]);
        assert text[..n + 1][1..] == text[1..][..n];
        assert InLang(items, text[..n + 1]);
      }
    }
  }

  /** The star gives back as little as it likes. */
  lemma HereStar(c: char, r: Regex, text: string)
    ensures Here(Regex([Star(c)] + r.items, r.toEnd), text) <==>
            exists k :: 0 <= k <= |text| && AllFit(c, text[..k]) && Here(r, text[k..])
  {
    var items := [Star(c)] + r.items;
    assert items[1..] == r.items;
    if Here(Regex(items, r.toEnd), text) {
      var n :| 0 <= n <= |text| && (r.toEnd ==> n == |text|) && InLang(items, text[..n]);
      var k :| 0 <= k <= n && AllFit(c, text[..n][..k]) && InLang(r.items, text[..n][k..]);
      assert text[..n][..k] == text[..k] && text[..n][k..] == text[k..][..n - k];
      assert Here(r, text[k..]);
    }
    if k :| 0 <= k <= |text| && AllFit(c, text[..k]) && Here(r, text[k..]) {
      var m :| 0 <= m <= |text[k..]| && (r.toEnd ==> m == |text[k..]|) && InLang(r.items, text[k..][..m]);
      assert text[..k + m][..k] == text[..k] && text[..k + m][k..] == text[k..][..m];
      assert InLang(items, text[..k + m]);
    }
  }

  /** matchhere() */
  method Matchhere(re: string, text: string) returns (b: bool)
    ensures b == Here(Compile(re), text)
    decreases |re|, 0, |text|
  {
    if re == "" {
      HereEmpty(false, text);
      return true;
    }
    if |re| > 1 && re[1] == '*' {
      HereStar(re[0], Compile(re[2..]), text);
      b := Matchstar(re[0], re[2..], text);
      return;
    }
    if re == "$" {
      HereEmpty(true, text);
      return text == "";
    }
    HereOne(re[0], Compile(re[1..]), text);
    if text != "" && (re[0] == '.' || re[0] == text[0]) {
      b := Matchhere(re[1..], text[1..]);
      return;
    }
    return false;
  }

  /** matchstar(): the pointer into the text is the offset i. */
  method Matchstar(c: char, re: string, text: string) returns (b: bool)
    ensures b == exists k :: 0 <= k <= |text| && AllFit(c, text[..k]) && Here(Compile(re), text[k..])
    decreases |re|, 1
  {
    var i := 0;
    while true
      invariant 0 <= i <= |text| && AllFit(c, text[..i])
      invariant forall k :: 0 <= k < i ==> !Here(Compile(re), text[k..])
      decreases |text| - i
    {
      b := Matchhere(re, text[i..]);
      if b {
        return;
      }
      if i == |text| || !(text[i] == c || c == '.') {
        StarStops(c, text, i);
        return;
      }
      assert text[..i + 1] == text[..i] + [text[i]];
      i := i + 1;
    }
  }

  /** match() */
  method Match(re: string, text: string) returns (b: bool)
    ensures b == Matches(re, text)
  {
    if re != "" && re[0] == '^' {
      b := Matchhere(re[1..], text);
      FromStart(Compile(re[1..]), text);
      return;
    }
    ghost var r := Compile(re);
    var i := 0;
    while true
      invariant 0 <= i <= |text|
      invariant forall k :: 0 <= k < i ==> !Here(r, text[k..])
      decreases |text| - i
    {
      b := Matchhere(re, text[i..]);
      if b {
        FoundAt(r, text, i);
        return;
      }
      if i == |text| {
        NotFound(r, text);
        return;
      }
      i := i + 1;
    }
  }

  lemma StarStops(c: char, text: string, i: nat)
    requires i <= |text| && (i < |text| ==> !Fits(c, text[i]))
    ensures forall k :: i < k <= |text| ==> !AllFit(c, text[..k])
  {}

  lemma FromStart(r: Regex, text: string)
    ensures Here(r, text) <==> Somewhere(r, true, text)
  {
    forall n: nat | n <= |text| ensures text[0..n] == text[..n] {}
    if n: nat :| n <= |text| && (r.toEnd ==> n == |text|) && InLang(r.items, text[..n]) {
      assert Part(r, text, 0, n);
    }
  }

  lemma FoundAt(r: Regex, text: string, i: nat)
    requires i <= |text| && Here(r, text[i..])
    ensures Somewhere(r, false, text)
  {
    var n :| 0 <= n <= |text[i..]| && (r.toEnd ==> n == |text[i..]|) && InLang(r.items, text[i..][..n]);
    assert text[i..][..n] == text[i..i + n];
    assert Part(r, text, i, i + n);
  }

  lemma NotFound(r: Regex, text: string)
    requires forall k :: 0 <= k <= |text| ==> !Here(r, text[k..])
    ensures !Somewhere(r, false, text)
  {
    forall j: nat, n: nat ensures !Part(r, text, j, n) {
      if j <= n <= |text| {
        assert text[j..][..n - j] == text[j..n];
        assert !Here(r, text[j..]);
      }
    }
  }

  // ---------------------------------------------------------------- the line reader

  /** Where the line that starts at p ends: at a newline, or at the end of s. */
  function LineEnd(s: string, p: nat): (q: nat)
    requires p <= |s|
    ensures p <= q <= |s| && NoNewline(s, p, q) && (q < |s| ==> s[q] == '\n')
    decreases |s| - p
  {
    if p == |s| || s[p] == '\n' then p else LineEnd(s, p + 1)
  }

  predicate NoNewline(s: string, p: nat, q: nat)
    requires q <= |s|
  {
    forall k :: p <= k < q ==> s[k] != '\n'
  }

  lemma {:induction false} LineEndIs(s: string, p: nat, q: nat)
    requires p <= q < |s| && s[q] == '\n' && NoNewline(s, p, q)
    ensures LineEnd(s, p) == q
    decreases q - p
  {}

  /** What is written for the line that ends at q. */
  ghost function Piece(re: string, s: string, p: nat, q: nat): string
    requires p <= q < |s|
  {
    if Matches(re, s[p..q]) then s[p..q + 1] else ""
  }

  /** From p on: the terminated lines that match, up to the first line too long for the buffer. */
  ghost function Output(re: string, s: string, p: nat): string
    requires p <= |s|
    decreases |s| - p
  {
    var q := LineEnd(s, p);
    if q == |s| || q - p > BUFSIZE - 2 then "" else Piece(re, s, p, q) + Output(re, s, q + 1)
  }

  predicate Same(a: string, b: string) { a == b }

  /** After `done`, what remains is the output from p on.  (The trigger keeps proofs that only pass this on cheap.) */
  ghost predicate Sofar(re: string, s: string, p: nat, done: string, all: string)
    requires p <= |s|
  {
    forall t {:trigger Same(t, all)} :: t == done + Output(re, s, p) ==> Same(t, all)
  }

  lemma OneMore(re: string, s: string, p: nat, q: nat, line: string, done: string, all: string, next: nat)
    requires p <= q < |s| && next == q + 1 && line == Piece(re, s, p, q) && q - p <= BUFSIZE - 2 && s[q] == '\n'
    requires NoNewline(s, p, q) && Sofar(re, s, p, done, all)
    ensures Sofar(re, s, next, done + line, all)
  {
    LineEndIs(s, p, q);
    Assoc(done, Piece(re, s, p, q), Output(re, s, q + 1));
    assert Same(done + Output(re, s, p), all);
  }

  lemma Assoc(a: string, b: string, c: string)
    ensures a + (b + c) == (a + b) + c
  {}

  lemma Nothing(re: string, s: string)
    ensures Sofar(re, s, 0, "", Output(re, s, 0))
  {}

  /** The rest is not terminated, or does not fit the buffer. */
  lemma NoMore(re: string, s: string, p: nat, q: nat, done: string, all: string)
    requires p <= q <= |s| && NoNewline(s, p, q) && (q == |s| || q - p >= BUFSIZE - 1) && Sofar(re, s, p, done, all)
    ensures done == all
  {
    assert LineEnd(s, p) >= q;
    assert Same(done + Output(re, s, p), all);
    assert done + "" == done;
  }

  /** read(): any number of bytes from 1 to all that are left and fit, as `choice` has it; 0 when there are none. */
  function ReadCount(choice: nat, room: nat, left: nat): (n: nat)
    ensures n <= room && n <= left && (n == 0 <==> room == 0 || left == 0)
  {
    var most := if room < left then room else left;
    if most == 0 then 0 else 1 + choice % most
  }

  /** buf[p..m] holds the input from base + p on. */
  ghost predicate Holds(buf: array<char>, p: nat, m: nat, input: string, base: nat)
    requires m < buf.Length && base + m <= |input|
    reads buf
  {
    forall k :: p <= k < m ==> buf[k] == input[base + k]
  }

  /** strchr(p, '\n') in the first m characters. */
  method Strchr(buf: array<char>, p: nat, m: nat, ghost input: string, ghost base: nat) returns (q: nat)
    requires p <= m < buf.Length && base + m <= |input| && buf[m] == '\0' && '\0' !in input
    requires Holds(buf, p, m, input, base)
    ensures p <= q <= m && NoNewline(input, base + p, base + q) && (q < m ==> input[base + q] == '\n')
  {
    q := p;
    while buf[q] != '\0' && buf[q] != '\n'
      invariant p <= q <= m && NoNewline(input, base + p, base + q)
      decreases m - q
    {
      q := q + 1;
    }
    assert q < m ==> buf[q] == input[base + q];
  }

  /** One round of the inner loop, for the line that ends at q. */
  method EmitLine(re: string, buf: array<char>, p: nat, q: nat, ghost m: nat, ghost input: string,
                  ghost base: nat) returns (out: string)
    requires p <= q < m < buf.Length && base + m <= |input| && Holds(buf, p, m, input, base) && input[base + q] == '\n'
    modifies buf
    ensures Holds(buf, q + 1, m, input, base) && buf[m] == old(buf[m])
    ensures out == Piece(re, input, base + p, base + q)
  {
    buf[q] := '\0';
    out := "";
    assert buf[p..q] == input[base + p..base + q];
    var b := Match(re, buf[p..q]);
    if b {
      buf[q] := '\n';
      out := buf[p..q + 1];
      assert out == input[base + p..base + q + 1];
    }
  }

  /** The inner loop: the lines completed in the buffer are matched and written behind `done`. */
  method Complete(re: string, buf: array<char>, m: nat, ghost input: string, ghost base: nat, done: string,
                  ghost all: string)
    returns (p: nat, out: string, ghost pos: nat)
    requires m < buf.Length == BUFSIZE && base + m <= |input| && buf[m] == '\0' && '\0' !in input
    requires Holds(buf, 0, m, input, base)
    requires Sofar(re, input, base, done, all)
    modifies buf
    ensures p <= m && Holds(buf, p, m, input, base) && pos == base + p && NoNewline(input, pos, base + m)
    ensures Sofar(re, input, pos, out, all)
  {
    p, out, pos := 0, done, base;
    while true
      invariant p <= m && buf[m] == '\0' && Holds(buf, p, m, input, base) && pos == base + p
      invariant Sofar(re, input, pos, out, all)
      decreases m - p
    {
      var q := Strchr(buf, p, m, input, base);
      if q == m {
        return;
      }
      var line := EmitLine(re, buf, p, q, m, input, base);
      ghost var next := base + q + 1;
      OneMore(re, input, pos, base + q, line, out, all, next);
      out := out + line;
      p, pos := q + 1, next;
    }
  }

  /** n bytes of the input arrive behind the m already there. */
  method Load(buf: array<char>, m: nat, n: nat, input: string, at: nat, ghost base: nat)
    requires buf.Length == BUFSIZE && m + n < BUFSIZE && base + m == at && at + n <= |input|
    requires Holds(buf, 0, m, input, base)
    modifies buf
    ensures Holds(buf, 0, m + n, input, base) && buf[m + n] == '\0'
  {
    forall i | 0 <= i < n {
      buf[m + i] := input[at + i];
    }
    buf[m + n] := '\0';
  }

  /** memmove(buf, p, m - p) */
  method Shift(buf: array<char>, p: nat, m: nat, ghost input: string, ghost base: nat, ghost pos: nat)
    requires pos == base + p && p <= m < buf.Length && base + m <= |input| && Holds(buf, p, m, input, base)
    modifies buf
    ensures Holds(buf, 0, m - p, input, pos)
  {
    forall i | 0 <= i < m - p {
      buf[i] := buf[p + i];
    }
  }

  /** grep(): what is written does not depend on how the reads split the input. */
  method GrepFile(re: string, input: string, choice: nat -> nat) returns (out: string)
    requires '\0' !in input
    ensures out == Output(re, input, 0)
  {
    var buf := new char[BUFSIZE];
    var m: nat, at: nat, k: nat := 0, 0, 0;
    out := "";
    ghost var base: nat, all := 0, Output(re, input, 0);
    Nothing(re, input);
    while true
      invariant m < BUFSIZE && base + m == at <= |input|
      invariant Holds(buf, 0, m, input, base) && NoNewline(input, base, at)
      invariant Sofar(re, input, base, out, all)
      decreases |input| - at
    {
      var n := ReadCount(choice(k), BUFSIZE - m - 1, |input| - at);
      k := k + 1;
      if n == 0 {
        NoMore(re, input, base, at, out, all);
        return;
      }
      Load(buf, m, n, input, at, base);
      m, at := m + n, at + n;
      var p;
      ghost var pos;
      p, out, pos := Complete(re, buf, m, input, base, out, all);
      Shift(buf, p, m, input, base, pos);
      m := m - p;
      base := pos;
    }
  }
}
