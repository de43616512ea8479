/** The JavaScript string operations the scripts use, with JavaScript's meaning:
    `startsWith`, `endsWith`, `includes`, `replace` with a string pattern, `trim`,
    `split` on one character, `join`, and the character classes `\d`, `\s` and
    the line terminators that `.` does not match in a regular expression. */
module JsString {
  import opened Values

  predicate StartsWith(s: string, prefix: string) {
    |prefix| <= |s| && s[..|prefix|] == prefix
  }

  predicate EndsWith(s: string, suffix: string) {
    |suffix| <= |s| && s[|s| - |suffix|..] == suffix
  }

  /** `p` occurs in `s` starting at index `i`. */
  predicate OccursAt(s: string, p: string, i: int) {
    0 <= i && i + |p| <= |s| && s[i..i + |p|] == p
  }

  /** `s.indexOf(p, from)`: the first occurrence at or after `from`, or -1. */
  function IndexOf(s: string, p: string, from: nat): (r: int)
    ensures r == -1 || (from <= r && OccursAt(s, p, r))
    ensures r >= 0 ==> forall i :: from <= i < r ==> !OccursAt(s, p, i)
    ensures r == -1 ==> forall i :: from <= i ==> !OccursAt(s, p, i)
    decreases |s| - from
  {
    if from + |p| > |s| then -1
    else if s[from..from + |p|] == p then from
    else IndexOf(s, p, from + 1)
  }

  /** `s.includes(p)`. */
  predicate Includes(s: string, p: string) {
    IndexOf(s, p, 0) >= 0
  }

  lemma IncludesWhenOccurs(s: string, p: string, i: int)
    requires OccursAt(s, p, i)
    ensures Includes(s, p)
  {
  }

  /** An occurrence inside an occurrence is an occurrence. */
  lemma OccursWithin(s: string, p: string, i: int, q: string, j: int)
    requires OccursAt(s, p, i) && OccursAt(p, q, j)
    ensures OccursAt(s, q, i + j)
  {
    forall t | 0 <= t < |q|
      ensures s[i + j + t] == q[t]
    {
      assert s[i + j + t] == s[i..i + |p|][j + t];
      assert p[j + t] == p[j..j + |q|][t];
    }
  }

  /** `includes` is transitive. */
  lemma IncludesTransitive(s: string, p: string, q: string)
    requires Includes(s, p) && Includes(p, q)
    ensures Includes(s, q)
  {
    var i := IndexOf(s, p, 0);
    var j := IndexOf(p, q, 0);
    OccursWithin(s, p, i, q, j);
    IncludesWhenOccurs(s, q, i + j);
  }

  /** `s.replace(pattern, replacement)` with a string pattern: only the first
      occurrence is replaced (the replacement is taken literally, as it holds no `$`). */
  function ReplaceFirst(s: string, pattern: string, replacement: string): string {
    var i := IndexOf(s, pattern, 0);
    if i < 0 then s else s[..i] + replacement + s[i + |pattern|..]
  }

  /** The regular-expression class `\d`. */
  predicate IsDigit(c: char) {
    '0' <= c <= '9'
  }

  /** The line terminators, which `.` in a regular expression does not match. */
  predicate IsLineTerminator(c: char) {
    c == '\n' || c == '\r' || c == '\U{2028}' || c == '\U{2029}'
  }

  /** The regular-expression class `\s`, which is also the set `trim` removes:
      white space (including every space separator) and line terminators. */
  predicate IsJsSpace(c: char) {
    || c == '\t' || c == '\U{000B}' || c == '\U{000C}' || c == ' '
    || c == '\U{00A0}' || c == '\U{FEFF}' || c == '\U{1680}'
    || ('\U{2000}' <= c <= '\U{200A}')
    || c == '\U{202F}' || c == '\U{205F}' || c == '\U{3000}'
    || IsLineTerminator(c)
  }

  predicate IsNonSpace(c: char) {
    !IsJsSpace(c)
  }

  predicate All(s: string, p: char -> bool) {
    forall k :: 0 <= k < |s| ==> p(s[k])
  }

  /** Length of the longest prefix of `s` whose characters all satisfy `p`. */
  function Run(s: string, p: char -> bool): (n: nat)
    ensures n <= |s|
    ensures forall k :: 0 <= k < n ==> p(s[k])
    ensures n < |s| ==> !p(s[n])
  {
    if |s| == 0 || !p(s[0]) then 0 else 1 + Run(s[1..], p)
  }

  /** A run is determined by where it stops. */
  lemma RunIs(s: string, p: char -> bool, n: nat)
    requires n <= |s|
    requires forall k :: 0 <= k < n ==> p(s[k])
    requires n < |s| ==> !p(s[n])
    ensures Run(s, p) == n
  {
  }

  /** Length of the longest suffix of `s` whose characters all satisfy `p`. */
  function TrailingRun(s: string, p: char -> bool): (n: nat)
    ensures n <= |s|
    ensures forall k :: |s| - n <= k < |s| ==> p(s[k])
    ensures n < |s| ==> !p(s[|s| - n - 1])
  {
    if |s| == 0 || !p(s[|s| - 1]) then 0 else 1 + TrailingRun(s[..|s| - 1], p)
  }

  /** `s.trim()`. */
  function Trim(s: string): (r: string)
    ensures |r| <= |s|
    ensures |r| > 0 ==> !IsJsSpace(r[0]) && !IsJsSpace(r[|r| - 1])
  {
    var front := Run(s, IsJsSpace);
    var rest := s[front..];
    rest[..|rest| - TrailingRun(rest, IsJsSpace)]
  }

  /** Trimming adds no character. */
  lemma TrimKeeps(s: string, c: char)
    requires c !in s
    ensures c !in Trim(s)
  {
    var rest := s[Run(s, IsJsSpace)..];
    assert forall x :: x in rest ==> x in s;
    var r := rest[..|rest| - TrailingRun(rest, IsJsSpace)];
    assert forall x :: x in r ==> x in rest;
  }

  /** Trimming a string without white space changes nothing. */
  lemma TrimNonSpace(s: string)
    requires All(s, IsNonSpace)
    ensures Trim(s) == s
  {
    RunIs(s, IsJsSpace, 0);
    assert s[0..] == s;
    if |s| > 0 {
      assert !IsJsSpace(s[|s| - 1]);
    }
  }

  /** Trimming strips exactly the surrounding white space. */
  lemma TrimStrips(w1: string, t: string, w2: string)
    requires All(w1, IsJsSpace) && All(w2, IsJsSpace)
    requires |t| > 0 ==> !IsJsSpace(t[0]) && !IsJsSpace(t[|t| - 1])
    ensures Trim(w1 + t + w2) == t
  {
    var s := w1 + t + w2;
    if |t| == 0 {
      assert s == w1 + w2;
      RunIs(s, IsJsSpace, |s|);
    } else {
      assert s[|w1|] == t[0];
      RunIs(s, IsJsSpace, |w1|);
      var rest := s[|w1|..];
      assert rest == t + w2;
      TrailingRunIs(rest, IsJsSpace, |w2|);
      assert rest[..|rest| - |w2|] == t;
    }
  }

  lemma TrailingRunIs(s: string, p: char -> bool, n: nat)
    requires n <= |s|
    requires forall k :: |s| - n <= k < |s| ==> p(s[k])
    requires n < |s| ==> !p(s[|s| - n - 1])
    ensures TrailingRun(s, p) == n
  {
  }

  /** Index of the first `c` in `s`, or `|s|` when there is none. */
  function CharIndex(s: string, c: char): (i: nat)
    ensures i <= |s|
    ensures c !in s[..i]
    ensures i < |s| ==> s[i] == c
  {
    if |s| == 0 || s[0] == c then 0 else 1 + CharIndex(s[1..], c)
  }

  /** The first separator is where the separator-free prefix stops. */
  lemma {:induction false} CharIndexIs(s: string, c: char, n: nat)
    requires n < |s| && s[n] == c && c !in s[..n]
    ensures CharIndex(s, c) == n
    decreases n
  {
    if n > 0 {
      assert s[0] == s[..n][0];
      assert s[1..][..n - 1] == s[1..n];
      assert forall x :: x in s[1..n] ==> x in s[..n];
      CharIndexIs(s[1..], c, n - 1);
    }
  }

  /** `s.split(c)` for a one-character separator. */
  function Split(s: string, c: char): (r: seq<string>)
    ensures |r| >= 1
    ensures forall k :: 0 <= k < |r| ==> c !in r[k]
    decreases |s|
  {
    var i := CharIndex(s, c);
    if i == |s| then
      assert s[..i] == s;
      [s]
    else [s[..i]] + Split(s[i + 1..], c)
  }

  /** `xs.join(c)` for a one-character separator. */
  function Join(xs: seq<string>, c: char): string {
    if |xs| == 0 then ""
    else if |xs| == 1 then xs[0]
    else xs[0] + [c] + Join(xs[1..], c)
  }

  /** Splitting at the first separator. */
  lemma SplitAt(a: string, c: char, b: string)
    requires c !in a
    ensures Split(a + [c] + b, c) == [a] + Split(b, c)
  {
    var s := a + [c] + b;
    assert s[..|a|] == a;
    assert s[|a| + 1..] == b;
    CharIndexIs(s, c, |a|);
  }

  /** Without a separator there is one piece, the whole string. */
  lemma SplitNone(s: string, c: char)
    requires c !in s
    ensures Split(s, c) == [s]
  {
    assert CharIndex(s, c) == |s|;
  }

  /** Joining pieces free of the separator and splitting again gives the pieces back. */
  lemma {:induction false} SplitJoin(xs: seq<string>, c: char)
    requires |xs| >= 1
    requires forall k :: 0 <= k < |xs| ==> c !in xs[k]
    ensures Split(Join(xs, c), c) == xs
    decreases |xs|
  {
    if |xs| == 1 {
      assert xs[0][..|xs[0]|] == xs[0];
    } else {
      SplitAt(xs[0], c, Join(xs[1..], c));
      SplitJoin(xs[1..], c);
      assert xs == [xs[0]] + xs[1..];
    }
  }

  /** Joining a list of two or more: the head, the separator, the rest joined. */
  lemma JoinCons(a: string, rest: seq<string>, c: char)
    requires |rest| >= 1
    ensures Join([a] + rest, c) == a + [c] + Join(rest, c)
  {
    assert ([a] + rest)[1..] == rest;
  }

  /** A string around one of its positions. */
  lemma Around(s: string, i: nat)
    requires i < |s|
    ensures s == s[..i] + [s[i]] + s[i + 1..]
  {
  }

  /** Splitting and joining again gives the string back. */
  lemma {:induction false} JoinSplit(s: string, c: char)
    ensures Join(Split(s, c), c) == s
    decreases |s|
  {
    var i := CharIndex(s, c);
    if i < |s| {
      var head, tail := s[..i], s[i + 1..];
      JoinSplit(tail, c);
      assert Split(s, c) == [head] + Split(tail, c);
      JoinCons(head, Split(tail, c), c);
      Around(s, i);
    } else {
      assert Split(s, c) == [s];
    }
  }

  /** `xs.lastIndexOf(x)`. */
  function LastIndexOf(xs: seq<string>, x: string): (r: int)
    ensures -1 <= r < |xs|
    ensures r >= 0 ==> xs[r] == x && forall j :: r < j < |xs| ==> xs[j] != x
    ensures r == -1 ==> x !in xs
  {
    if |xs| == 0 then -1
    else if xs[|xs| - 1] == x then |xs| - 1
    else
      var r := LastIndexOf(xs[..|xs| - 1], x);
      assert xs == xs[..|xs| - 1] + [xs[|xs| - 1]];
      r
  }

  /** `toUpperCase` restricted to ASCII letters. */
  function UpperChar(c: char): char {
    if 'a' <= c <= 'z' then (c as int - 32) as char else c
  }

  /** `toLowerCase` restricted to ASCII letters. */
  function LowerChar(c: char): char {
    if 'A' <= c <= 'Z' then (c as int + 32) as char else c
  }

  function ToUpper(s: string): (r: string)
    ensures |r| == |s|
    ensures forall k :: 0 <= k < |s| ==> r[k] == UpperChar(s[k])
  {
    seq(|s|, k requires 0 <= k < |s| => UpperChar(s[k]))
  }

  function ToLower(s: string): (r: string)
    ensures |r| == |s|
    ensures forall k :: 0 <= k < |s| ==> r[k] == LowerChar(s[k])
  {
    seq(|s|, k requires 0 <= k < |s| => LowerChar(s[k]))
  }
}
