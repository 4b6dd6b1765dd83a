/**
 grep: a matcher for patterns with ^ . * $, and the loop that cuts the input
 into lines in a fixed buffer. A C string is the sequence of characters before
 its terminating NUL; a pointer into it is a suffix.
 */
module Grep {
  import opened Wrappers

  // ----- the language of a pattern -----

  /** One character, or any number of them, that fit c. */
  datatype Token = One(c: char) | Many(c: char)

  datatype Pattern = Pattern(tokens: seq<Token>, atEnd: bool)

  predicate Fits(c: char, x: char) {
    c == '.' || c == x
  }

  ghost predicate Spells(t: Token, s: string) {
    match t
    case One(c) => |s| == 1 && Fits(c, s[0])
    case Many(c) => forall i :: 0 <= i < |s| ==> Fits(c, s[i])
  }

  function Concat(parts: seq<string>): string {
    if parts == [] then "" else parts[0] + Concat(parts[1..])
  }

  ghost predicate Splits(ts: seq<Token>, s: string, parts: seq<string>) {
    && |parts| == |ts| && Concat(parts) == s
    && forall i :: 0 <= i < |ts| ==> Spells(ts[i], parts[i])
  }

  /** s can be cut into one part for each token. */
  ghost predicate InLanguage(ts: seq<Token>, s: string) {
    exists parts :: Splits(ts, s, parts)
  }

  ghost predicate PrefixOf(p: Pattern, text: string, k: nat) {
    k <= |text| && InLanguage(p.tokens, text[..k]) && (p.atEnd ==> k == |text|)
  }

  /** Some prefix of text is in the language of the pattern; all of text if the pattern ends in $. */
  ghost predicate Accepts(p: Pattern, text: string) {
    exists k: nat :: PrefixOf(p, text, k)
  }

  /** How a pattern is read: a star binds the character before it, and $ is special at the end only. */
  function Parse(re: string): Pattern {
    if re == "" then Pattern([], false)
    else if |re| >= 2 && re[1] == '*' then
      Cons(Many(re[0]), Parse(re[2..]))
    else if re == "$" then Pattern([], true)
    else
      Cons(One(re[0]), Parse(re[1..]))
  }

  /** The pattern occurs in text: at its start after ^, anywhere otherwise. */
  ghost predicate Occurs(re: string, text: string) {
    if re != "" && re[0] == '^' then Accepts(Parse(re[1..]), text)
    else exists i: nat :: i <= |text| && AcceptsFrom(Parse(re), text, i)
  }

  ghost predicate AcceptsFrom(p: Pattern, text: string, i: nat)
    requires i <= |text|
  {
    Accepts(p, text[i..])
  }

  lemma ConsSplits(t: Token, ts: seq<Token>, s: string, k: nat)
    requires k <= |s| && Spells(t, s[..k]) && InLanguage(ts, s[k..])
    ensures InLanguage([t] + ts, s)
  {
    var parts :| Splits(ts, s[k..], parts);
    assert s == s[..k] + s[k..];
    assert Splits([t] + ts, s, [s[..k]] + parts);
  }

  lemma SplitsCons(t: Token, ts: seq<Token>, s: string) returns (k: nat)
    requires InLanguage([t] + ts, s)
    ensures k <= |s| && Spells(t, s[..k]) && InLanguage(ts, s[k..])
  {
    var parts :| Splits([t] + ts, s, parts);
    k := |parts[0]|;
    assert s[..k] == parts[0] && s[k..] == Concat(parts[1..]);
    assert Spells(([t] + ts)[0], parts[0]);
    forall i | 0 <= i < |ts| ensures Spells(ts[i], parts[1..][i]) {
      assert Spells(([t] + ts)[i + 1], parts[i + 1]);
    }
    assert Splits(ts, s[k..], parts[1..]);
  }

  lemma AcceptsEmpty(text: string)
    ensures Accepts(Pattern([], false), text)
    ensures Accepts(Pattern([], true), text) <==> text == ""
  {
    assert Splits([], "", []);
    assert text[..0] == "";
    assert PrefixOf(Pattern([], false), text, 0);
    if text == "" { assert PrefixOf(Pattern([], true), text, 0); }
    if Accepts(Pattern([], true), text) {
      var k: nat :| PrefixOf(Pattern([], true), text, k);
      var parts :| Splits([], text[..k], parts);
      assert text == text[..k];
    }
  }

  function Cons(t: Token, p: Pattern): Pattern {
    Pattern([t] + p.tokens, p.atEnd)
  }

  lemma AcceptsHead(t: Token, p: Pattern, text: string) returns (j: nat)
    requires Accepts(Cons(t, p), text)
    ensures j <= |text| && Spells(t, text[..j]) && AcceptsFrom(p, text, j)
  {
    hide InLanguage, Spells;
    var k: nat :| PrefixOf(Cons(t, p), text, k);
    j := SplitsCons(t, p.tokens, text[..k]);
    assert text[..k][..j] == text[..j] && text[..k][j..] == text[j..][..k - j];
    assert PrefixOf(p, text[j..], k - j);
  }

  lemma HeadAccepts(t: Token, p: Pattern, text: string, j: nat)
    requires j <= |text| && Spells(t, text[..j]) && AcceptsFrom(p, text, j)
    ensures Accepts(Cons(t, p), text)
  {
    hide InLanguage, Spells;
    var m: nat :| PrefixOf(p, text[j..], m);
    assert text[..j + m][..j] == text[..j] && text[..j + m][j..] == text[j..][..m];
    ConsSplits(t, p.tokens, text[..j + m], j);
    assert PrefixOf(Cons(t, p), text, j + m);
  }

  /** A pattern that starts with a token: its part, then the rest of the pattern on the rest of the text. */
  lemma AcceptsCons(t: Token, p: Pattern, text: string)
    ensures Accepts(Cons(t, p), text) <==> exists j: nat :: j <= |text| && Spells(t, text[..j]) && AcceptsFrom(p, text, j)
  {
    hide Accepts, AcceptsFrom, Spells, Cons;
    if Accepts(Cons(t, p), text) {
      var j := AcceptsHead(t, p, text);
    }
    if j: nat :| j <= |text| && Spells(t, text[..j]) && AcceptsFrom(p, text, j) {
      HeadAccepts(t, p, text, j);
    }
  }

  lemma AcceptsOne(c: char, p: Pattern, text: string)
    ensures Accepts(Cons(One(c), p), text) <==> text != "" && Fits(c, text[0]) && Accepts(p, text[1..])
  {
    hide Accepts;
    AcceptsCons(One(c), p, text);
    if text != "" && Fits(c, text[0]) && Accepts(p, text[1..]) {
      assert Spells(One(c), text[..1]) && AcceptsFrom(p, text, 1);
    }
  }

  // ----- the matcher -----

  method Match(re: string, text: string) returns (r: bool)
    ensures r <==> Occurs(re, text)
  {
    hide Accepts;
    if re != "" && re[0] == '^' {
      r := MatchHere(re[1..], text);
      return;
    }
    var i := 0;
    while true
      invariant 0 <= i <= |text|
      invariant forall j: nat :: j < i ==> !AcceptsFrom(Parse(re), text, j)
      decreases |text| - i
    {
      var here := MatchHere(re, text[i..]);
      if here {
        assert AcceptsFrom(Parse(re), text, i);
        return true;
      }
      assert !AcceptsFrom(Parse(re), text, i);
      if i == |text| {
        return false;
      }
      i := i + 1;
    }
  }

  method MatchHere(re: string, text: string) returns (r: bool)
    ensures r <==> Accepts(Parse(re), text)
    decreases |re|
  {
    hide Accepts;
    if re == "" {
      AcceptsEmpty(text);
      return true;
    }
    if |re| >= 2 && re[1] == '*' {
      r := MatchStar(re[0], re[2..], text);
      return;
    }
    if re == "$" {
      AcceptsEmpty(text);
      return text == "";
    }
    AcceptsOne(re[0], Parse(re[1..]), text);
    if text != "" && (re[0] == '.' || re[0] == text[0]) {
      r := MatchHere(re[1..], text[1..]);
      return;
    }
    return false;
  }

  method MatchStar(c: char, re: string, text: string) returns (r: bool)
    ensures r <==> Accepts(Cons(Many(c), Parse(re)), text)
    decreases |re| + 1
  {
    hide Accepts;
    var p := Parse(re);
    AcceptsCons(Many(c), p, text);
    var i := 0;
    while true
      invariant 0 <= i <= |text| && Spells(Many(c), text[..i])
      invariant forall j: nat :: j < i ==> !AcceptsFrom(p, text, j)
      decreases |text| - i
    {
      var here := MatchHere(re, text[i..]);
      if here {
        assert AcceptsFrom(p, text, i);
        return true;
      }
      assert !AcceptsFrom(p, text, i);
      if i == |text| || !(text[i] == c || c == '.') {
        forall j: nat | j <= |text| && Spells(Many(c), text[..j]) ensures !AcceptsFrom(p, text, j) {
          assert j > i ==> Fits(c, text[..j][i]);
        }
        return false;
      }
      i := i + 1;
    }
  }

  // ----- lines -----

  const BUFSIZE: nat := 1024
  const NUL: char := '\0'

  /** The first newline of s if no NUL comes before it, as strchr finds it. */
  function Newline(s: string): (r: Option<nat>)
    ensures r.Some? ==> r.value < |s| && s[r.value] == '\n' && Plain(s[..r.value])
  {
    if s == "" || s[0] == NUL then None
    else if s[0] == '\n' then Some(0)
    else
      match Newline(s[1..])
      case None => None
      case Some(k) =>
        assert s[..k + 1] == [s[0]] + s[1..][..k];
        Some(k + 1)
  }

  ghost predicate Plain(s: string) {
    forall i :: 0 <= i < |s| ==> s[i] != '\n' && s[i] != NUL
  }

  /**
   What grep prints for an input, read line by line: it stops at the first line
   that has no newline, holds a NUL, or does not fit the buffer.
   */
  ghost function Printed(re: string, input: string): string
    decreases |input|
  {
    match Newline(input)
    case None => ""
    case Some(k) =>
      if k + 1 >= BUFSIZE then ""
      else (if Occurs(re, input[..k]) then input[..k + 1] else "") + Printed(re, input[k + 1..])
  }

  /** A newline found in a part of the input is the one found in all of it. */
  lemma {:induction false} NewlineExtends(s: string, t: string)
    ensures Newline(s).Some? ==> Newline(s + t) == Newline(s)
    ensures Newline(s).None? ==> Newline(s + t).None? || Newline(s + t).value >= |s|
    decreases |s|
  {
    if s == "" {
      assert s + t == t;
    } else {
      assert (s + t)[1..] == s[1..] + t;
      NewlineExtends(s[1..], t);
    }
  }

  lemma {:induction false} NewlineIs(s: string, k: nat)
    requires k < |s| && s[k] == '\n' && Plain(s[..k])
    ensures Newline(s) == Some(k)
    decreases k
  {
    if k > 0 {
      assert s[0] == s[..k][0];
      assert s[1..][..k - 1] == s[..k][1..];
      NewlineIs(s[1..], k - 1);
    }
  }

  lemma {:induction false} NewlineNone(s: string, k: nat)
    requires k <= |s| && Plain(s[..k]) && (k < |s| ==> s[k] == NUL)
    ensures Newline(s).None?
    decreases k
  {
    if k > 0 {
      assert s[0] == s[..k][0];
      assert s[1..][..k - 1] == s[..k][1..];
      NewlineNone(s[1..], k - 1);
    }
  }

  /** strchr(p, '\n') on the string that starts at p in the buffer. */
  method FindNewline(buf: array<char>, p: nat, m: nat) returns (q: Option<nat>)
    requires p <= m < buf.Length && buf[m] == NUL
    ensures q == match Newline(buf[p..m]) case None => None case Some(k) => Some(p + k)
    ensures q.Some? ==> q.value < m
  {
    var i := p;
    while buf[i] != '\n'
      invariant p <= i <= m && Plain(buf[p..i])
      decreases m - i
    {
      if buf[i] == NUL {
        assert buf[p..m][..i - p] == buf[p..i];
        NewlineNone(buf[p..m], i - p);
        return None;
      }
      assert buf[p..i + 1] == buf[p..i] + [buf[i]];
      i := i + 1;
    }
    assert buf[p..m][..i - p] == buf[p..i];
    NewlineIs(buf[p..m], i - p);
    q := Some(i);
  }

  /** Bytes read are put after the m bytes in the buffer, and a NUL after them. */
  method Read(buf: array<char>, m: nat, bytes: string)
    requires m + |bytes| < buf.Length
    modifies buf
    ensures buf[..m + |bytes|] == old(buf[..m]) + bytes && buf[m + |bytes|] == NUL
  {
    var i := 0;
    while i < |bytes|
      invariant 0 <= i <= |bytes|
      invariant forall j :: 0 <= j < m ==> buf[j] == old(buf[j])
      invariant forall j :: 0 <= j < i ==> buf[m + j] == bytes[j]
    {
      buf[m + i] := bytes[i];
      i := i + 1;
    }
    buf[m + |bytes|] := NUL;
  }

  method Memmove(buf: array<char>, p: nat, m: nat)
    requires p + m <= buf.Length
    modifies buf
    ensures buf[..m] == old(buf[p..p + m])
  {
    var i := 0;
    while i < m
      invariant 0 <= i <= m
      invariant forall j :: 0 <= j < i ==> buf[j] == old(buf[p + j])
      invariant forall j :: i <= j < buf.Length ==> buf[j] == old(buf[j])
    {
      buf[i] := buf[p + i];
      i := i + 1;
    }
  }

  lemma PrintedStep(re: string, s: string, rest: string, k: nat)
    requires Newline(s) == Some(k) && |s| < BUFSIZE
    ensures k < |s| && Printed(re, s + rest) == (if Occurs(re, s[..k]) then s[..k + 1] else "") + Printed(re, s[k + 1..] + rest)
  {
    hide Occurs, Newline, Plain;
    NewlineExtends(s, rest);
    NewlineAt(s, k);
    assert (s + rest)[..k] == s[..k] && (s + rest)[..k + 1] == s[..k + 1] && (s + rest)[k + 1..] == s[k + 1..] + rest;
  }

  /** With no line in the buffer, nothing more is printed once the input ends or the buffer is full. */
  lemma PrintedStuck(re: string, s: string, rest: string)
    requires Newline(s).None? && (rest == "" || |s| == BUFSIZE - 1)
    ensures Printed(re, s + rest) == ""
  {
    NewlineExtends(s, rest);
    if rest == "" { assert s + rest == s; }
  }

  lemma Slices(buf: array<char>, p: nat, q: nat, m: nat)
    requires p <= q < m <= buf.Length
    ensures buf[p..m][..q - p] == buf[p..q] && buf[p..m][q - p + 1..] == buf[q + 1..m]
    ensures buf[p..m][..q - p + 1] == buf[p..q + 1]
  {
  }

  /** One line, from p to the newline at q: printed if it matches. The newline itself is lost if it does not. */
  method PrintLine(re: string, buf: array<char>, p: nat, q: nat) returns (out: string)
    requires p <= q < buf.Length && buf[q] == '\n'
    modifies buf
    ensures out == if Occurs(re, old(buf[p..q])) then old(buf[p..q + 1]) else ""
    ensures forall j :: 0 <= j < buf.Length && j != q ==> buf[j] == old(buf[j])
  {
    hide Occurs;
    var line := buf[p..q];
    buf[q] := NUL;
    assert buf[p..q] == line;
    var found := Match(re, line);
    out := "";
    if found {
      buf[q] := '\n';
      out := buf[p..q + 1];
    }
  }

  /** The line of the buffer from p to the newline at q, and what is left to print behind it. */
  method NextLine(re: string, buf: array<char>, p: nat, q: nat, m: nat, ghost rest: string) returns (line: string)
    requires p <= q < m < buf.Length == BUFSIZE && Newline(buf[p..m]) == Some(q - p)
    modifies buf
    ensures buf[m] == old(buf[m])
    ensures Printed(re, old(buf[p..m]) + rest) == line + Printed(re, buf[q + 1..m] + rest)
  {
    hide *;
    ghost var tail := buf[q + 1..m];
    PrintedStep(re, buf[p..m], rest, q - p);
    Slices(buf, p, q, m);
    NewlineAt(buf[p..m], q - p);
    line := PrintLine(re, buf, p, q);
    assert buf[q + 1..m] == tail;
  }

  /** The lines of the buffer between 0 and m: prints those that match and returns where the last line ends. */
  method PrintLines(re: string, buf: array<char>, m: nat, ghost rest: string) returns (out: string, p: nat)
    requires m < buf.Length == BUFSIZE && buf[m] == NUL
    modifies buf
    ensures p <= m && Newline(buf[p..m]).None?
    ensures Printed(re, old(buf[..m]) + rest) == out + Printed(re, buf[p..m] + rest)
  {
    hide *;
    out, p := "", 0;
    ghost var all := Printed(re, buf[..m] + rest);
    assert buf[0..m] == buf[..m];
    var q := FindNewline(buf, p, m);
    while q.Some?
      invariant p <= m && buf[m] == NUL
      invariant q == match Newline(buf[p..m]) case None => None case Some(k) => Some(p + k)
      invariant q.Some? ==> q.value < m
      invariant all == out + Printed(re, buf[p..m] + rest)
      decreases m - p
    {
      var line := NextLine(re, buf, p, q.value, m, rest);
      Assoc(out, line, Printed(re, buf[q.value + 1..m] + rest));
      out, p := out + line, q.value + 1;
      q := FindNewline(buf, p, m);
    }
  }

  lemma NewlineAt(s: string, k: nat)
    requires Newline(s) == Some(k)
    ensures k < |s| && s[k] == '\n'
  {
  }

  lemma Regroup(a: string, input: string, pos: nat, n: nat)
    requires pos + n <= |input|
    ensures a + input[pos..] == (a + input[pos..pos + n]) + input[pos + n..]
  {
  }

  /** One turn of the loop of grep, after a read of n bytes at pos: m' bytes of a line begun stay in the buffer. */
  method Round(re: string, buf: array<char>, m: nat, input: string, pos: nat, n: nat) returns (out: string, m': nat)
    requires buf.Length == BUFSIZE && m + n < BUFSIZE && pos + n <= |input|
    modifies buf
    ensures m' < BUFSIZE && Newline(buf[..m']).None?
    ensures Printed(re, old(buf[..m]) + input[pos..]) == out + Printed(re, buf[..m'] + input[pos + n..])
  {
    hide *;
    Regroup(buf[..m], input, pos, n);
    Read(buf, m, input[pos..pos + n]);
    m' := m + n;
    var p;
    out, p := PrintLines(re, buf, m', input[pos + n..]);
    if m' > 0 {
      m' := m' - p;
      Memmove(buf, p, m');
    }
  }

  /**
   grep on one input. Each read may return any number of bytes that are there
   and fit, and returns 0 at the end of the input or when no room is left. The
   result does not depend on these choices.
   */
  method Grep(re: string, input: string) returns (out: string)
    ensures out == Printed(re, input)
  {
    assert Newline("").None?;
    hide Printed, Newline;
    var buf := new char[BUFSIZE](_ => NUL);
    var m, pos := 0, 0;
    out := "";
    assert buf[..m] == "" && buf[..m] + input[pos..] == input;
    assert out + Printed(re, input) == Printed(re, input);
    while pos < |input| && m < BUFSIZE - 1
      invariant 0 <= pos <= |input| && 0 <= m < BUFSIZE == buf.Length
      invariant Printed(re, input) == out + Printed(re, buf[..m] + input[pos..])
      invariant Newline(buf[..m]).None?
      decreases |input| - pos
    {
      var n: nat :| 1 <= n <= BUFSIZE - 1 - m && n <= |input| - pos;
      var more;
      more, m := Round(re, buf, m, input, pos, n);
      pos := pos + n;
      Assoc(out, more, Printed(re, buf[..m] + input[pos..]));
      out := out + more;
    }
    PrintedStuck(re, buf[..m], input[pos..]);
    assert out + "" == out;
  }

  lemma Assoc(a: string, b: string, c: string)
    ensures a + (b + c) == a + b + c
  {
  }

  // ----- what is printed, in terms of lines -----

  ghost predicate Fit(line: string) {
    Plain(line) && |line| + 1 < BUFSIZE
  }

  function Join(lines: seq<string>): string {
    if lines == [] then "" else lines[0] + "\n" + Join(lines[1..])
  }

  /** The lines in which the pattern occurs, each with its newline. */
  ghost function Selected(re: string, lines: seq<string>): string {
    if lines == [] then ""
    else (if Occurs(re, lines[0]) then lines[0] + "\n" else "") + Selected(re, lines[1..])
  }

  /** No further line: the text ends, has a NUL, or fills the buffer before a newline. */
  ghost predicate Ends(tail: string) {
    exists k: nat :: k <= |tail| && EndsAt(tail, k)
  }

  ghost predicate EndsAt(tail: string, k: nat)
    requires k <= |tail|
  {
    Plain(tail[..k]) && (k == |tail| || tail[k] == NUL || k + 1 >= BUFSIZE)
  }

  lemma PrintedAtEnd(re: string, tail: string)
    requires Ends(tail)
    ensures Printed(re, tail) == ""
  {
    var k: nat :| k <= |tail| && EndsAt(tail, k);
    if k == |tail| || tail[k] == NUL {
      NewlineNone(tail, k);
    } else if Newline(tail).Some? {
      assert forall i :: 0 <= i < k ==> tail[i] == tail[..k][i];
    }
  }

  lemma {:induction false} PrintedLines(re: string, lines: seq<string>, tail: string)
    requires Ends(tail) && forall i :: 0 <= i < |lines| ==> Fit(lines[i])
    ensures Printed(re, Join(lines) + tail) == Selected(re, lines)
    decreases |lines|
  {
    hide Occurs;
    if lines == [] {
      assert Join(lines) + tail == tail;
      PrintedAtEnd(re, tail);
    } else {
      var s, rest := lines[0] + "\n", Join(lines[1..]) + tail;
      assert Join(lines) + tail == s + rest;
      assert s[..|lines[0]|] == lines[0] && s[..|s|] == s && s[|s|..] + rest == rest;
      NewlineIs(s, |lines[0]|);
      PrintedStep(re, s, rest, |lines[0]|);
      PrintedLines(re, lines[1..], tail);
    }
  }

  lemma JoinCons(line: string, rest: seq<string>, tail: string)
    ensures Join([line] + rest) + tail == line + "\n" + (Join(rest) + tail)
  {
    assert ([line] + rest)[1..] == rest;
  }

  lemma JoinNone(tail: string)
    ensures Join([]) + tail == tail
  {
  }

  /** Every input is a sequence of lines that fit the buffer and a rest without one. */
  lemma {:induction false} LinesOf(input: string) returns (lines: seq<string>, tail: string)
    ensures input == Join(lines) + tail && Ends(tail) && forall i :: 0 <= i < |lines| ==> Fit(lines[i])
    decreases |input|
  {
    hide Fit, Ends, Join;
    if exists k: nat :: k < |input| && input[k] == '\n' && Fit(input[..k]) {
      var k: nat :| k < |input| && input[k] == '\n' && Fit(input[..k]);
      var rest;
      rest, tail := LinesOf(input[k + 1..]);
      assert input == input[..k] + "\n" + input[k + 1..];
      lines := [input[..k]] + rest;
      JoinCons(input[..k], rest, tail);
    } else {
      lines, tail := [], input;
      JoinNone(input);
      EndsWithoutLine(input, 0);
    }
  }

  lemma {:induction false} EndsWithoutLine(input: string, k: nat)
    requires k <= |input| && k < BUFSIZE && Plain(input[..k])
    requires forall j: nat :: j < |input| && input[j] == '\n' ==> !Fit(input[..j])
    ensures Ends(input)
    decreases BUFSIZE - k
  {
    if EndsAt(input, k) {
    } else {
      assert input[..k + 1] == input[..k] + [input[k]];
      assert input[k] != '\n' by { assert Fit(input[..k]); }
      EndsWithoutLine(input, k + 1);
    }
  }
}
