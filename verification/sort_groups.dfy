/** `sort_into_groups.js`: file the archived jars of `mods/.old` into one folder per
    Minecraft version. The version comes from the jar (its manifest, else the
    `depends.minecraft` range of `fabric.mod.json`) or, failing that, from the
    file name. The directory listing, the jar contents, the existence test and
    the move are inputs. */
module SortGroups {
  import opened Values
  import opened JsString
  import opened JarFile
  import VersionCheck

  // ------------------------------------------------ \d+\.\d+(?:\.\d+)?

  /** Length of the digit run starting at `p`. */
  function DigitsAt(s: string, p: nat): (n: nat)
    requires p <= |s|
    ensures p + n <= |s|
    decreases |s| - p
  {
    if p < |s| && IsDigit(s[p]) then 1 + DigitsAt(s, p + 1) else 0
  }

  /** The run is digits and stops at a non-digit or at the end. */
  lemma {:induction false} DigitsAtRun(s: string, p: nat)
    requires p <= |s|
    ensures forall k :: p <= k < p + DigitsAt(s, p) ==> IsDigit(s[k])
    ensures p + DigitsAt(s, p) < |s| ==> !IsDigit(s[p + DigitsAt(s, p)])
    decreases |s| - p
  {
    if p < |s| && IsDigit(s[p]) {
      DigitsAtRun(s, p + 1);
    }
  }

  /** Length of the match of `\d+\.\d+(?:\.\d+)?` starting at `p`, if any. The
      digit runs are taken whole: a shorter run is followed by a digit, where the
      pattern needs a dot, so backtracking never ends elsewhere. */
  function Dotted(s: string, p: nat): (r: Option<nat>)
    requires p <= |s|
    ensures r.Some? ==> 3 <= r.value && p + r.value <= |s|
  {
    var a := DigitsAt(s, p);
    if a == 0 || p + a >= |s| || s[p + a] != '.' then None
    else
      var b := DigitsAt(s, p + a + 1);
      if b == 0 then None
      else
        var q := p + a + 1 + b;
        if q < |s| && s[q] == '.' && DigitsAt(s, q + 1) > 0 then Some(q + 1 + DigitsAt(s, q + 1) - p)
        else Some(q - p)
  }

  /** A dotted version: digits with one or two dots, never first, never last and
      never two in a row, that is two or three non-empty digit groups. */
  predicate IsDottedVersion(v: string) {
    && 0 < |v| && IsDigit(v[0]) && IsDigit(v[|v| - 1])
    && (forall k :: 0 <= k < |v| ==> IsDigit(v[k]) || v[k] == '.')
    && (forall k :: 0 <= k < |v| - 1 && v[k] == '.' ==> IsDigit(v[k + 1]))
    && (exists k :: 0 <= k < |v| && v[k] == '.')
    && (forall i, j, k :: 0 <= i < j < k < |v| && v[i] == '.' && v[j] == '.' ==> v[k] != '.')
  }

  /** Digits everywhere but at one dot `i` inside the string and, unless `j` is the
      end, a second dot `j` inside it and not next to the first. */
  lemma DottedByDots(v: string, i: nat, j: nat)
    requires 0 < i && i + 1 < |v| && v[i] == '.'
    requires j == |v| || (i + 1 < j && j + 1 < |v| && v[j] == '.')
    requires forall k :: 0 <= k < |v| && k != i && k != j ==> IsDigit(v[k])
    ensures IsDottedVersion(v)
  {
    assert forall k :: 0 <= k < |v| && v[k] == '.' ==> k == i || k == j;
  }

  /** What `Dotted` matches is a dotted version. */
  lemma DottedIsVersion(s: string, p: nat)
    requires p <= |s| && Dotted(s, p).Some?
    ensures IsDottedVersion(s[p..p + Dotted(s, p).value])
  {
    var a := DigitsAt(s, p);
    var b := DigitsAt(s, p + a + 1);
    var q := p + a + 1 + b;
    var c := if q < |s| && s[q] == '.' then DigitsAt(s, q + 1) else 0;
    GroupsDotted(s, p, a, b, c);
    DottedVersionAt(s, p, a + 1 + b + (if c > 0 then 1 + c else 0));
  }

  /** Runs of `a`, `b` and (when `c > 0`) `c` digits separated by dots form a
      dotted version. */
  lemma GroupsDotted(s: string, p: nat, a: nat, b: nat, c: nat)
    requires p + a < |s| && a == DigitsAt(s, p) > 0 && s[p + a] == '.'
    requires b == DigitsAt(s, p + a + 1) > 0
    requires c > 0 ==> p + a + 1 + b < |s| && s[p + a + 1 + b] == '.' && c == DigitsAt(s, p + a + 1 + b + 1)
    ensures p + a + 1 + b + (if c > 0 then 1 + c else 0) <= |s|
    ensures IsDottedVersion(s[p..p + a + 1 + b + (if c > 0 then 1 + c else 0)])
  {
    var n := a + 1 + b + (if c > 0 then 1 + c else 0);
    var j := if c > 0 then a + 1 + b else n;
    DigitsAtRun(s, p);
    DigitsAtRun(s, p + a + 1);
    if c > 0 {
      DigitsAtRun(s, p + a + 1 + b + 1);
    }
    SliceByDots(s, p, n, a, j);
  }

  lemma DottedVersionAt(s: string, p: nat, n: nat)
    requires p + n <= |s| && Dotted(s, p) == Some(n) && IsDottedVersion(s[p..p + n])
    ensures IsDottedVersion(s[p..p + Dotted(s, p).value])
  {
  }

  /** `DottedByDots` for the slice `s[p..p + n]`, stated on `s`. */
  lemma SliceByDots(s: string, p: nat, n: nat, i: nat, j: nat)
    requires p + n <= |s| && 0 < i && i + 1 < n && s[p + i] == '.'
    requires j == n || (i + 1 < j && j + 1 < n && s[p + j] == '.')
    requires forall k :: p <= k < p + n && k != p + i && k != p + j ==> IsDigit(s[k])
    ensures IsDottedVersion(s[p..p + n])
  {
    var v := s[p..p + n];
    forall k | 0 <= k < n && k != i && k != j
      ensures IsDigit(v[k])
    {
      assert v[k] == s[p + k];
    }
    DottedByDots(v, i, j);
  }

  /** The match is greedy: it is never followed by a digit. */
  lemma DottedMaximal(s: string, p: nat)
    requires p <= |s| && Dotted(s, p).Some?
    ensures p + Dotted(s, p).value < |s| ==> !IsDigit(s[p + Dotted(s, p).value])
  {
    var a := DigitsAt(s, p);
    var b := DigitsAt(s, p + a + 1);
    var q := p + a + 1 + b;
    DigitsAtRun(s, p + a + 1);
    if q < |s| && s[q] == '.' {
      DigitsAtRun(s, q + 1);
    }
  }

  /** A digit run is determined by where it stops. */
  lemma {:induction false} DigitRun(s: string, q: nat, n: nat)
    requires q + n <= |s|
    requires forall k :: q <= k < q + n ==> IsDigit(s[k])
    requires q + n < |s| ==> !IsDigit(s[q + n])
    ensures DigitsAt(s, q) == n
    decreases n
  {
    if n > 0 {
      DigitRun(s, q + 1, n - 1);
    }
  }

  /** The characters of `x.y.z` written at `p`: the groups are digits and the two
      dots sit between them. */
  lemma SpelledAt(s: string, p: nat, x: string, y: string, z: string)
    requires All(x, IsDigit) && All(y, IsDigit) && All(z, IsDigit)
    requires p + |x| + |y| + |z| + 2 <= |s|
    requires s[p..p + |x| + |y| + |z| + 2] == x + "." + y + "." + z
    ensures forall k :: p <= k < p + |x| ==> IsDigit(s[k])
    ensures s[p + |x|] == '.'
    ensures forall k :: p + |x| + 1 <= k < p + |x| + 1 + |y| ==> IsDigit(s[k])
    ensures s[p + |x| + 1 + |y|] == '.'
    ensures forall k :: p + |x| + |y| + 2 <= k < p + |x| + |y| + 2 + |z| ==> IsDigit(s[k])
  {
    var v := x + "." + y + "." + z;
    assert forall k :: p <= k < p + |v| ==> s[k] == v[k - p];
    assert forall k :: 0 <= k < |x| ==> v[k] == x[k];
    assert forall k :: 0 <= k < |y| ==> v[|x| + 1 + k] == y[k];
    assert forall k :: 0 <= k < |z| ==> v[|x| + |y| + 2 + k] == z[k];
    forall k | p + |x| + 1 <= k < p + |x| + 1 + |y|
      ensures IsDigit(s[k])
    {
      assert s[k] == y[k - p - |x| - 1];
    }
    forall k | p + |x| + |y| + 2 <= k < p + |x| + |y| + 2 + |z|
      ensures IsDigit(s[k])
    {
      assert s[k] == z[k - p - |x| - |y| - 2];
    }
  }

  /** Three digit runs of the given lengths joined by dots, and not followed by a
      digit, are matched whole. */
  lemma DottedIs(s: string, p: nat, a: nat, b: nat, c: nat)
    requires a > 0 && b > 0 && c > 0 && p + a + b + c + 2 <= |s|
    requires forall k :: p <= k < p + a ==> IsDigit(s[k])
    requires s[p + a] == '.'
    requires forall k :: p + a + 1 <= k < p + a + 1 + b ==> IsDigit(s[k])
    requires s[p + a + 1 + b] == '.'
    requires forall k :: p + a + b + 2 <= k < p + a + b + 2 + c ==> IsDigit(s[k])
    requires p + a + b + c + 2 < |s| ==> !IsDigit(s[p + a + b + c + 2])
    ensures Dotted(s, p) == Some(a + b + c + 2)
  {
    DigitRun(s, p, a);
    DigitRun(s, p + a + 1, b);
    DigitRun(s, p + a + b + 2, c);
  }

  /** The characters of `x.y` written at `p`. */
  lemma SpelledShortAt(s: string, p: nat, x: string, y: string)
    requires All(x, IsDigit) && All(y, IsDigit)
    requires p + |x| + |y| + 1 <= |s|
    requires s[p..p + |x| + |y| + 1] == x + "." + y
    ensures forall k :: p <= k < p + |x| ==> IsDigit(s[k])
    ensures s[p + |x|] == '.'
    ensures forall k :: p + |x| + 1 <= k < p + |x| + 1 + |y| ==> IsDigit(s[k])
  {
    var v := x + "." + y;
    assert forall k :: p <= k < p + |v| ==> s[k] == v[k - p];
    assert forall k :: 0 <= k < |x| ==> v[k] == x[k];
    forall k | p + |x| + 1 <= k < p + |x| + 1 + |y|
      ensures IsDigit(s[k])
    {
      assert s[k] == y[k - p - |x| - 1];
    }
  }

  /** `x.y` followed by neither a digit nor a dot and a digit is matched as `x.y`. */
  lemma DottedIsShort(s: string, p: nat, x: string, y: string)
    requires |x| > 0 && All(x, IsDigit) && |y| > 0 && All(y, IsDigit)
    requires p + |x| + |y| + 1 <= |s|
    requires s[p..p + |x| + |y| + 1] == x + "." + y
    requires var e := p + |x| + |y| + 1;
             e < |s| ==> !IsDigit(s[e]) && (s[e] == '.' ==> e + 1 == |s| || !IsDigit(s[e + 1]))
    ensures Dotted(s, p) == Some(|x| + |y| + 1)
  {
    var a, b := |x|, |y|;
    SpelledShortAt(s, p, x, y);
    DigitRun(s, p, a);
    DigitRun(s, p + a + 1, b);
    var e := p + a + b + 1;
    if e < |s| && s[e] == '.' {
      DigitRun(s, e + 1, 0);
    }
  }

  // ---------------------------------------------------------- the patterns

  /** The patterns of the scripts: the bare version of `depends.minecraft`, and
      the five file-name patterns in the order they are tried. */
  datatype Pattern =
    | Bare     // (\d+\.\d+(?:\.\d+)?)
    | Mc       // mc(…)         case-insensitive
    | Plus     // (…)\+
    | Dash     // -(…)-
    | Fabric   // fabric[_-](…) case-insensitive
    | ForMc    // for[_-]mc(…)  case-insensitive

  /** A character as the case-insensitive flag compares it with a lower-case letter. */
  predicate Ci(c: char, lower: char) {
    c == lower || c == UpperChar(lower)
  }

  predicate IsUnderscoreOrDash(c: char) {
    c == '_' || c == '-'
  }

  /** The version captured at `q`, when there is one. */
  function CaptureAt(s: string, q: nat): (r: Option<string>)
    requires q <= |s|
    ensures r.Some? ==> IsDottedVersion(r.value)
  {
    match Dotted(s, q)
    case None => None
    case Some(n) => DottedIsVersion(s, q); Some(s[q..q + n])
  }

  /** The capture of a match of `pat` that starts at `p`. For the patterns with a
      closing literal the greedy capture is the only candidate, since a shorter one
      ends before a digit or before a dot. */
  function PatternAt(pat: Pattern, s: string, p: nat): (r: Option<string>)
    requires p <= |s|
    ensures r.Some? ==> IsDottedVersion(r.value)
  {
    match pat
    case Bare => CaptureAt(s, p)
    case Mc =>
      if p + 2 <= |s| && Ci(s[p], 'm') && Ci(s[p + 1], 'c') then CaptureAt(s, p + 2) else None
    case Plus =>
      var c := CaptureAt(s, p);
      if c.Some? && p + |c.value| < |s| && s[p + |c.value|] == '+' then c else None
    case Dash =>
      if p < |s| && s[p] == '-' then
        var c := CaptureAt(s, p + 1);
        if c.Some? && p + 1 + |c.value| < |s| && s[p + 1 + |c.value|] == '-' then c else None
      else None
    case Fabric =>
      if && p + 7 <= |s| && Ci(s[p], 'f') && Ci(s[p + 1], 'a') && Ci(s[p + 2], 'b')
         && Ci(s[p + 3], 'r') && Ci(s[p + 4], 'i') && Ci(s[p + 5], 'c') && IsUnderscoreOrDash(s[p + 6])
      then CaptureAt(s, p + 7) else None
    case ForMc =>
      if && p + 6 <= |s| && Ci(s[p], 'f') && Ci(s[p + 1], 'o') && Ci(s[p + 2], 'r')
         && IsUnderscoreOrDash(s[p + 3]) && Ci(s[p + 4], 'm') && Ci(s[p + 5], 'c')
      then CaptureAt(s, p + 6) else None
  }

  /** The leftmost start at or after `p` where `pat` matches, or -1. */
  function FirstMatch(pat: Pattern, s: string, p: nat): (r: int)
    requires p <= |s|
    ensures r == -1 || p <= r <= |s|
    ensures r >= 0 ==> PatternAt(pat, s, r).Some?
    ensures r >= 0 ==> forall j :: p <= j < r ==> PatternAt(pat, s, j).None?
    ensures r == -1 <==> forall j :: p <= j <= |s| ==> PatternAt(pat, s, j).None?
    decreases |s| - p
  {
    if PatternAt(pat, s, p).Some? then p
    else if p == |s| then -1
    else FirstMatch(pat, s, p + 1)
  }

  /** `s.match(pat)`, reduced to capture 1. */
  function MatchPattern(pat: Pattern, s: string): (r: Option<string>)
    ensures r.Some? ==> IsDottedVersion(r.value)
    ensures r.None? <==> forall j :: 0 <= j <= |s| ==> PatternAt(pat, s, j).None?
  {
    var i := FirstMatch(pat, s, 0);
    if i < 0 then None else PatternAt(pat, s, i)
  }

  /** The match is the capture at the first position where `pat` matches. */
  lemma MatchPatternAt(pat: Pattern, s: string, i: nat)
    requires i <= |s| && PatternAt(pat, s, i).Some?
    requires forall j :: 0 <= j < i ==> PatternAt(pat, s, j).None?
    ensures MatchPattern(pat, s) == PatternAt(pat, s, i)
  {
  }

  // ------------------------------------------------- guessVersionFromFilename

  /** `guessVersionFromFilename`: capture 1 of the first pattern that matches. */
  function GuessVersionFromFilename(filename: string): (r: Option<string>)
    ensures r.Some? ==> IsDottedVersion(r.value)
    ensures r.None? <==>
      && MatchPattern(Mc, filename).None? && MatchPattern(Plus, filename).None? && MatchPattern(Dash, filename).None?
      && MatchPattern(Fabric, filename).None? && MatchPattern(ForMc, filename).None?
    ensures MatchPattern(Mc, filename).Some? ==> r == MatchPattern(Mc, filename)
  {
    var mc := MatchPattern(Mc, filename);
    if mc.Some? then mc
    else
      var plus := MatchPattern(Plus, filename);
      if plus.Some? then plus
      else
        var dash := MatchPattern(Dash, filename);
        if dash.Some? then dash
        else
          var fabric := MatchPattern(Fabric, filename);
          if fabric.Some? then fabric
          else
            MatchPattern(ForMc, filename)
  }

  /** The fifth pattern never decides: where `for-mc` matches, the `mc` inside
      it matched first, so the result is the first pattern's. */
  lemma ForMcNeverDecides(filename: string)
    requires MatchPattern(ForMc, filename).Some?
    ensures MatchPattern(Mc, filename).Some?
    ensures GuessVersionFromFilename(filename) == MatchPattern(Mc, filename)
  {
    var i := FirstMatch(ForMc, filename, 0);
    assert PatternAt(Mc, filename, i + 4).Some?;
  }

  /** A pattern cannot match where its leading character never occurs. */
  lemma McAbsent(s: string)
    requires 'm' !in s && 'M' !in s
    ensures MatchPattern(Mc, s).None?
  {
    forall j | 0 <= j <= |s|
      ensures PatternAt(Mc, s, j).None?
    {
      if j < |s| {
        assert s[j] != 'm' && s[j] != 'M';
      }
    }
  }

  lemma PlusAbsent(s: string)
    requires '+' !in s
    ensures MatchPattern(Plus, s).None?
  {
    forall j | 0 <= j <= |s|
      ensures PatternAt(Plus, s, j).None?
    {
      var c := CaptureAt(s, j);
      if c.Some? && j + |c.value| < |s| {
        assert s[j + |c.value|] in s;
      }
    }
  }

  lemma DashAbsent(s: string)
    requires '-' !in s
    ensures MatchPattern(Dash, s).None?
  {
    forall j | 0 <= j <= |s|
      ensures PatternAt(Dash, s, j).None?
    {
      if j < |s| {
        assert s[j] in s;
      }
    }
  }

  /** Digits and dots hold none of the leading characters. */
  lemma VersionChars(x: string, y: string, z: string)
    requires All(x, IsDigit) && All(y, IsDigit) && All(z, IsDigit)
    ensures forall c :: c in x + "." + y + "." + z ==> IsDigit(c) || c == '.'
  {
    var v := x + "." + y + "." + z;
    forall c | c in v
      ensures IsDigit(c) || c == '.'
    {
      var k :| 0 <= k < |v| && v[k] == c;
      if k < |x| {
        assert v[k] == x[k];
      } else if |x| < k < |x| + 1 + |y| {
        assert v[k] == y[k - |x| - 1];
      } else if |x| + 1 + |y| < k {
        assert v[k] == z[k - |x| - |y| - 2];
      }
    }
  }

  /** The commented examples of the five patterns: `mc1.21.6`, `1.21.6+`,
      `-1.21.6-` and `fabric_1.21.6` (for any three digit groups) each give the
      version they spell; `for-mc1.21.6` gives it too, through the first pattern. */
  lemma GuessExamples(x: string, y: string, z: string)
    requires |x| > 0 && All(x, IsDigit) && |y| > 0 && All(y, IsDigit) && |z| > 0 && All(z, IsDigit)
    ensures var v := x + "." + y + "." + z;
      && GuessVersionFromFilename("mc" + v) == Some(v)
      && GuessVersionFromFilename(v + "+") == Some(v)
      && GuessVersionFromFilename("-" + v + "-") == Some(v)
      && GuessVersionFromFilename("fabric_" + v) == Some(v)
      && GuessVersionFromFilename("for-mc" + v) == Some(v)
  {
    var v := x + "." + y + "." + z;
    VersionChars(x, y, z);
    McPrefixes();
    McGuess("mc", v, x, y, z);
    McGuess("for-mc", v, x, y, z);
    PlusGuess(v, x, y, z);
    DashGuess(v, x, y, z);
    FabricGuess(v, x, y, z);
  }

  /** Where the two parts of `pre + v` lie. */
  lemma PrefixSlices(pre: string, v: string)
    ensures (pre + v)[|pre|..|pre| + |v|] == v
    ensures forall j :: 0 <= j < |pre| ==> (pre + v)[j] == pre[j]
  {
  }

  /** A version spelled at `q` and not followed by a digit is what is captured there. */
  lemma CaptureSpelled(s: string, q: nat, x: string, y: string, z: string)
    requires |x| > 0 && All(x, IsDigit) && |y| > 0 && All(y, IsDigit) && |z| > 0 && All(z, IsDigit)
    requires q + |x| + |y| + |z| + 2 <= |s|
    requires s[q..q + |x| + |y| + |z| + 2] == x + "." + y + "." + z
    requires q + |x| + |y| + |z| + 2 < |s| ==> !IsDigit(s[q + |x| + |y| + |z| + 2])
    ensures CaptureAt(s, q) == Some(x + "." + y + "." + z)
  {
    SpelledAt(s, q, x, y, z);
    DottedIs(s, q, |x|, |y|, |z|);
  }

  /** A version at the end of a name is captured where it starts. */
  lemma PrefixedCapture(pre: string, v: string, x: string, y: string, z: string)
    requires |x| > 0 && All(x, IsDigit) && |y| > 0 && All(y, IsDigit) && |z| > 0 && All(z, IsDigit)
    requires v == x + "." + y + "." + z
    ensures CaptureAt(pre + v, |pre|) == Some(v)
  {
    PrefixSlices(pre, v);
    CaptureSpelled(pre + v, |pre|, x, y, z);
  }

  /** The file-name patterns in their order: the first that matches decides. */
  lemma GuessByMc(s: string, v: string)
    requires MatchPattern(Mc, s) == Some(v)
    ensures GuessVersionFromFilename(s) == Some(v)
  {
  }

  lemma GuessByPlus(s: string, v: string)
    requires MatchPattern(Mc, s).None? && MatchPattern(Plus, s) == Some(v)
    ensures GuessVersionFromFilename(s) == Some(v)
  {
  }

  lemma GuessByDash(s: string, v: string)
    requires MatchPattern(Mc, s).None? && MatchPattern(Plus, s).None? && MatchPattern(Dash, s) == Some(v)
    ensures GuessVersionFromFilename(s) == Some(v)
  {
  }

  lemma GuessByFabric(s: string, v: string)
    requires MatchPattern(Mc, s).None? && MatchPattern(Plus, s).None? && MatchPattern(Dash, s).None?
    requires MatchPattern(Fabric, s) == Some(v)
    ensures GuessVersionFromFilename(s) == Some(v)
  {
  }

  /** The first `mc` of a name, followed by a version, decides. */
  lemma McAt(s: string, i: nat, v: string)
    requires i + 2 <= |s| && s[i] == 'm' && s[i + 1] == 'c' && CaptureAt(s, i + 2) == Some(v)
    requires forall j :: 0 <= j < i ==> s[j] != 'm' && s[j] != 'M'
    ensures GuessVersionFromFilename(s) == Some(v)
  {
    assert PatternAt(Mc, s, i) == Some(v);
    forall j | 0 <= j < i
      ensures PatternAt(Mc, s, j).None?
    {
      assert s[j] != 'm' && s[j] != 'M';
    }
    MatchPatternAt(Mc, s, i);
    GuessByMc(s, v);
  }

  /** `mc` and `for-mc` end in `mc` and hold no earlier `m`. */
  lemma McPrefixes()
    ensures "mc"[0] == 'm' && "mc"[1] == 'c'
    ensures "for-mc"[4] == 'm' && "for-mc"[5] == 'c'
    ensures forall j :: 0 <= j < 4 ==> "for-mc"[j] != 'm' && "for-mc"[j] != 'M'
  {
    var f := "for-mc";
    assert f[0] == 'f' && f[1] == 'o' && f[2] == 'r' && f[3] == '-';
  }

  /** A name that ends in `mc` with no earlier `m` or `M`, then a version. */
  lemma McGuess(pre: string, v: string, x: string, y: string, z: string)
    requires |pre| >= 2 && pre[|pre| - 2] == 'm' && pre[|pre| - 1] == 'c'
    requires forall j :: 0 <= j < |pre| - 2 ==> pre[j] != 'm' && pre[j] != 'M'
    requires |x| > 0 && All(x, IsDigit) && |y| > 0 && All(y, IsDigit) && |z| > 0 && All(z, IsDigit)
    requires v == x + "." + y + "." + z
    ensures GuessVersionFromFilename(pre + v) == Some(v)
  {
    var s := pre + v;
    var q := |pre|;
    PrefixedCapture(pre, v, x, y, z);
    PrefixSlices(pre, v);
    assert s[q - 2] == 'm' && s[q - 1] == 'c';
    assert forall j :: 0 <= j < q - 2 ==> s[j] != 'm' && s[j] != 'M';
    McAt(s, q - 2, v);
  }

  lemma PlusGuess(v: string, x: string, y: string, z: string)
    requires |x| > 0 && All(x, IsDigit) && |y| > 0 && All(y, IsDigit) && |z| > 0 && All(z, IsDigit)
    requires v == x + "." + y + "." + z
    requires forall c :: c in v ==> IsDigit(c) || c == '.'
    ensures GuessVersionFromFilename(v + "+") == Some(v)
  {
    var s := v + "+";
    assert forall c :: c in s ==> IsDigit(c) || c == '.' || c == '+';
    McAbsent(s);
    assert s[0..|v|] == v;
    CaptureSpelled(s, 0, x, y, z);
    assert PatternAt(Plus, s, 0) == Some(v);
    MatchPatternAt(Plus, s, 0);
    GuessByPlus(s, v);
  }

  lemma DashGuess(v: string, x: string, y: string, z: string)
    requires |x| > 0 && All(x, IsDigit) && |y| > 0 && All(y, IsDigit) && |z| > 0 && All(z, IsDigit)
    requires v == x + "." + y + "." + z
    requires forall c :: c in v ==> IsDigit(c) || c == '.'
    ensures GuessVersionFromFilename("-" + v + "-") == Some(v)
  {
    var s := "-" + v + "-";
    assert forall c :: c in s ==> IsDigit(c) || c == '.' || c == '-';
    McAbsent(s);
    PlusAbsent(s);
    assert s[1..1 + |v|] == v;
    CaptureSpelled(s, 1, x, y, z);
    assert PatternAt(Dash, s, 0) == Some(v);
    MatchPatternAt(Dash, s, 0);
    GuessByDash(s, v);
  }

  /** No character after the first seven of `fabric_` + `v` leads a pattern. */
  lemma FabricChars(v: string)
    requires forall c :: c in v ==> IsDigit(c) || c == '.'
    ensures forall c :: c in "fabric_" + v ==> c != 'm' && c != 'M' && c != '+' && c != '-'
  {
    var s := "fabric_" + v;
    forall c | c in s
      ensures c != 'm' && c != 'M' && c != '+' && c != '-'
    {
      var k :| 0 <= k < |s| && s[k] == c;
      if k >= 7 {
        assert s[k] == v[k - 7];
      }
    }
  }

  /** `fabric_` followed by a capture matches the fourth pattern at the start. */
  lemma FabricAt(s: string, v: string)
    requires |s| >= 7 && s[..7] == "fabric_" && CaptureAt(s, 7) == Some(v)
    ensures PatternAt(Fabric, s, 0) == Some(v)
  {
    assert s[0] == 'f' && s[1] == 'a' && s[2] == 'b' && s[3] == 'r' && s[4] == 'i' && s[5] == 'c' && s[6] == '_';
  }

  lemma FabricGuess(v: string, x: string, y: string, z: string)
    requires |x| > 0 && All(x, IsDigit) && |y| > 0 && All(y, IsDigit) && |z| > 0 && All(z, IsDigit)
    requires v == x + "." + y + "." + z
    requires forall c :: c in v ==> IsDigit(c) || c == '.'
    ensures GuessVersionFromFilename("fabric_" + v) == Some(v)
  {
    var s := "fabric_" + v;
    FabricChars(v);
    McAbsent(s);
    PlusAbsent(s);
    DashAbsent(s);
    assert s[7..7 + |v|] == v;
    CaptureSpelled(s, 7, x, y, z);
    FabricAt(s, v);
    MatchPatternAt(Fabric, s, 0);
    GuessByFabric(s, v);
  }

  // ----------------------------------------------- getMinecraftVersionFromJar

  /** Index of the `:` that ends the manifest key. */
  const KeyColon: nat := 24

  /** On a key line the first `:` is the key's own. */
  lemma KeyLineSplit(line: string)
    requires VersionCheck.IsKeyLine(line)
    ensures |Split(line, ':')| >= 2
    ensures Split(line, ':') == [line[..KeyColon]] + Split(line[KeyColon + 1..], ':')
  {
    assert line[..|ManifestKey|] == ManifestKey;
    assert forall k :: 0 <= k < KeyColon ==> line[k] == ManifestKey[k] != ':';
    assert line == line[..KeyColon] + [':'] + line[KeyColon + 1..];
    SplitAt(line[..KeyColon], ':', line[KeyColon + 1..]);
  }

  /** `line.split(':')[1].trim()`: the text after the key up to the next `:`,
      trimmed. It is kept as written, not reduced to a base version. */
  function ManifestValue(line: string): (r: string)
    requires VersionCheck.IsKeyLine(line)
    ensures ':' !in r
    ensures |r| > 0 ==> !IsJsSpace(r[0]) && !IsJsSpace(r[|r| - 1])
  {
    KeyLineSplit(line);
    var part := Split(line, ':')[1];
    TrimKeeps(part, ':');
    Trim(part)
  }

  /** After the key, a rest free of `:` is the whole second piece. */
  lemma KeyLineRest(rest: string)
    requires ':' !in rest
    ensures VersionCheck.IsKeyLine(ManifestKey + rest)
    ensures ManifestValue(ManifestKey + rest) == Trim(rest)
  {
    var line := ManifestKey + rest;
    assert line[..|ManifestKey|] == ManifestKey;
    KeyLineSplit(line);
    assert line[KeyColon + 1..] == rest;
    SplitNone(rest, ':');
  }

  /** The three parts of `w1 + v + w2`, none of which holds `:`. */
  lemma NoColonIn(w1: string, v: string, w2: string)
    requires All(w1, IsJsSpace) && All(w2, IsJsSpace) && ':' !in v
    ensures ':' !in w1 + v + w2
  {
    var t := w1 + v + w2;
    forall k | 0 <= k < |t|
      ensures t[k] != ':'
    {
      if k < |w1| {
        assert IsJsSpace(w1[k]);
      } else if k < |w1| + |v| {
        assert t[k] == v[k - |w1|];
      } else {
        assert IsJsSpace(w2[k - |w1| - |v|]);
      }
    }
  }

  /** A key line `Fabric-Minecraft-Version:` + white space + `v` + white space,
      with `v` free of `:`, gives `v`. */
  lemma ManifestValueOf(w1: string, v: string, w2: string)
    requires All(w1, IsJsSpace) && All(w2, IsJsSpace) && ':' !in v
    requires |v| > 0 ==> !IsJsSpace(v[0]) && !IsJsSpace(v[|v| - 1])
    ensures VersionCheck.IsKeyLine(ManifestKey + w1 + v + w2)
    ensures ManifestValue(ManifestKey + w1 + v + w2) == v
  {
    var rest := w1 + v + w2;
    assert ManifestKey + w1 + v + w2 == ManifestKey + rest;
    NoColonIn(w1, v, w2);
    KeyLineRest(rest);
    TrimStrips(w1, v, w2);
  }

  /** A dotted version holds no `:`. */
  lemma VersionHasNoColon(v: string)
    requires IsDottedVersion(v)
    ensures ':' !in v
  {
    forall k | 0 <= k < |v|
      ensures v[k] != ':'
    {
      assert IsDigit(v[k]) || v[k] == '.';
    }
  }

  /** `getMinecraftVersionFromJar`: the value of the first manifest line that
      starts with the key (even an empty one); without such a line, the first
      dotted version in a string `depends.minecraft`; otherwise, and whenever
      reading throws, `null`. */
  function GetMinecraftVersionFromJar(jar: Jar): (r: Option<string>)
    ensures jar.Unreadable? ==> r.None?
    ensures jar.Jar? && jar.manifest.Some? && FindFirst(ManifestLines(jar.manifest.value), VersionCheck.IsKeyLine) >= 0 ==>
      var lines := ManifestLines(jar.manifest.value);
      r == Some(ManifestValue(lines[FindFirst(lines, VersionCheck.IsKeyLine)]))
    ensures jar.Jar? && (jar.manifest.None? || FindFirst(ManifestLines(jar.manifest.value), VersionCheck.IsKeyLine) < 0) ==>
      r == (if jar.fabricMod.Parsed? && jar.fabricMod.minecraft.DepText? && jar.fabricMod.minecraft.s != ""
            then MatchPattern(Bare, jar.fabricMod.minecraft.s) else None)
    ensures r.Some? ==> ':' !in r.value
  {
    match jar
    case Unreadable => None
    case Jar(manifest, fabricMod) =>
      var i := if manifest.Some? then FindFirst(ManifestLines(manifest.value), VersionCheck.IsKeyLine) else -1;
      if i >= 0 then Some(ManifestValue(ManifestLines(manifest.value)[i]))
      else
        match fabricMod
        case Parsed(DepText(s)) =>
          if s == "" then None
          else
            var m := MatchPattern(Bare, s);
            if m.Some? then VersionHasNoColon(m.value); m else m
        case _ => None
  }

  /** A range such as `>=1.21.0` gives the version it holds: a prefix without
      digits is skipped and the three groups are taken. */
  lemma RangeGivesVersion(pre: string, x: string, y: string, z: string)
    requires forall c :: c in pre ==> !IsDigit(c)
    requires |x| > 0 && All(x, IsDigit) && |y| > 0 && All(y, IsDigit) && |z| > 0 && All(z, IsDigit)
    ensures MatchPattern(Bare, pre + x + "." + y + "." + z) == Some(x + "." + y + "." + z)
  {
    var v := x + "." + y + "." + z;
    var s := pre + v;
    PrefixedVersion(pre, x, y, z);
    CaptureSpelled(s, |pre|, x, y, z);
    NoBareBefore(s, |pre|);
    MatchPatternAt(Bare, s, |pre|);
  }

  /** `pre` followed by the three groups, however the concatenation is grouped. */
  lemma PrefixedVersion(pre: string, x: string, y: string, z: string)
    ensures pre + x + "." + y + "." + z == pre + (x + "." + y + "." + z)
    ensures var s := pre + (x + "." + y + "." + z);
      && s[|pre|..|pre| + |x| + |y| + |z| + 2] == x + "." + y + "." + z
      && forall j :: 0 <= j < |pre| ==> s[j] == pre[j]
  {
  }

  /** No version starts at a character that is not a digit. */
  lemma NoBareBefore(s: string, n: nat)
    requires n <= |s| && forall j :: 0 <= j < n ==> !IsDigit(s[j])
    ensures forall j :: 0 <= j < n ==> PatternAt(Bare, s, j).None?
  {
    forall j | 0 <= j < n
      ensures PatternAt(Bare, s, j).None?
    {
      assert DigitsAt(s, j) == 0;
    }
  }

  lemma WildcardPieces(x: string, y: string, tail: string)
    requires |tail| > 0
    ensures var s := x + "." + y + "." + tail;
      var e := |x| + |y| + 1;
      && s[0..e] == x + "." + y && s[e] == '.' && s[e + 1] == tail[0]
  {
  }

  /** A wildcard range such as `1.21.x` gives its first two groups. */
  lemma WildcardGivesMinor(x: string, y: string, tail: string)
    requires |x| > 0 && All(x, IsDigit) && |y| > 0 && All(y, IsDigit)
    requires |tail| > 0 && !IsDigit(tail[0])
    ensures MatchPattern(Bare, x + "." + y + "." + tail) == Some(x + "." + y)
  {
    var s := x + "." + y + "." + tail;
    WildcardPieces(x, y, tail);
    DottedIsShort(s, 0, x, y);
    assert PatternAt(Bare, s, 0) == Some(x + "." + y);
    MatchPatternAt(Bare, s, 0);
  }

  /** The characters of a base version followed by a suffix free of white space
      and of `:`. */
  lemma TokenChars(base: string, suffix: string)
    requires |base| == 6 && VersionCheck.BaseShape(base, 2, 1)
    requires |suffix| > 0 && !IsDigit(suffix[0]) && All(suffix, IsNonSpace) && ':' !in suffix
    ensures var token := base + suffix;
      && All(token, IsNonSpace) && ':' !in token
      && token[..6] == base && !IsDigit(token[6])
  {
    var token := base + suffix;
    forall k | 0 <= k < |token|
      ensures IsNonSpace(token[k]) && token[k] != ':'
    {
      if k >= |base| {
        assert token[k] == suffix[k - |base|];
      } else {
        assert IsDigit(base[k]) || base[k] == '.';
      }
    }
    assert token[..6] == base;
  }

  /** The two extractors read the same manifest line differently: for
      `Fabric-Minecraft-Version: 1.21.6-rc1` the post-download check sees `1.21.6`,
      the sorter the whole `1.21.6-rc1`. */
  lemma ExtractorsDisagree(base: string, suffix: string)
    requires |base| == 6 && VersionCheck.BaseShape(base, 2, 1)
    requires |suffix| > 0 && !IsDigit(suffix[0]) && All(suffix, IsNonSpace) && ':' !in suffix
    ensures VersionCheck.ParseVersionLine(ManifestKey + " " + (base + suffix)) == Some(base)
    ensures ManifestValue(ManifestKey + " " + (base + suffix)) == base + suffix
  {
    var token := base + suffix;
    TokenChars(base, suffix);
    var line := ManifestKey + " " + token;
    assert line + "" == line;
    VersionCheck.ParseVersionLineToken(" ", token, "");
    VersionCheck.BaseExample(token, 2, 1);
    TrimNonSpace(token);
    ManifestValueOf(" ", token, "");
  }

  // ---------------------------------------------------- sortModsByVersion

  /** One entry of `fs.readdirSync(OLD_MODS_DIR)`, with what `statSync` says. */
  datatype DirEntry = DirEntry(name: string, isFile: bool)

  predicate IsJarFile(e: DirEntry) {
    EndsWith(e.name, ".jar") && e.isFile
  }

  /** What happened to one jar. */
  datatype FileResult =
    | Moved(version: string)
    | Skipped(version: string)
    | MoveFailed(version: string, message: string)
    | Undetermined

  /** The file system as the loop sees it: the jar behind a name, whether
      `<version>/<name>` already exists, and the outcome of creating the folder and
      renaming the jar into it. */
  datatype Folder = Folder(
    jarAt: string -> Jar,
    occupied: (string, string) -> bool,
    move: (string, string) -> Outcome)

  /** The version used for a jar: from its contents when that is truthy, else
      guessed from its name. */
  function ChosenVersion(name: string, jar: Jar): (r: Option<string>)
    ensures Truthy(GetMinecraftVersionFromJar(jar)) ==> r == GetMinecraftVersionFromJar(jar)
    ensures !Truthy(GetMinecraftVersionFromJar(jar)) ==> r == GuessVersionFromFilename(name)
  {
    OrElse(GetMinecraftVersionFromJar(jar), GuessVersionFromFilename(name))
  }

  /** One iteration of the loop in `sortModsByVersion`. */
  function SortOne(name: string, folder: Folder): (r: FileResult)
    ensures r.Undetermined? <==> !Truthy(ChosenVersion(name, folder.jarAt(name)))
    ensures !r.Undetermined? ==> Some(r.version) == ChosenVersion(name, folder.jarAt(name))
    ensures r.Skipped? <==> !r.Undetermined? && folder.occupied(r.version, name)
    ensures r.Moved? ==> folder.move(r.version, name) == Pass
    ensures r.MoveFailed? ==> folder.move(r.version, name) == Threw(r.message)
  {
    var version := ChosenVersion(name, folder.jarAt(name));
    if !Truthy(version) then Undetermined
    else if folder.occupied(version.value, name) then Skipped(version.value)
    else
      match folder.move(version.value, name)
      case Pass => Moved(version.value)
      case Threw(m) => MoveFailed(version.value, m)
  }

  datatype Stats = Stats(moved: nat, skipped: nat, failed: nat)

  predicate IsMoved(r: FileResult) {
    r.Moved?
  }

  predicate IsSkipped(r: FileResult) {
    r.Skipped?
  }

  /** Counted under `failed`: a move that threw, or no version found. */
  predicate IsFailed(r: FileResult) {
    r.MoveFailed? || r.Undetermined?
  }

  /** Every result lands in exactly one of the three counts. */
  lemma {:induction false} CountsPartition(rs: seq<FileResult>)
    ensures Count(rs, IsMoved) + Count(rs, IsSkipped) + Count(rs, IsFailed) == |rs|
    decreases |rs|
  {
    if |rs| > 0 {
      CountsPartition(rs[1..]);
    }
  }

  /** The counters of the loop. */
  method Tally(rs: seq<FileResult>) returns (stats: Stats)
    ensures stats == Stats(Count(rs, IsMoved), Count(rs, IsSkipped), Count(rs, IsFailed))
    ensures stats.moved + stats.skipped + stats.failed == |rs|
  {
    stats := Stats(0, 0, 0);
    var i := 0;
    while i < |rs|
      invariant 0 <= i <= |rs|
      invariant stats == Stats(Count(rs[..i], IsMoved), Count(rs[..i], IsSkipped), Count(rs[..i], IsFailed))
      decreases |rs| - i
    {
      assert rs[..i + 1] == rs[..i] + [rs[i]];
      CountAppend(rs[..i], [rs[i]], IsMoved);
      CountAppend(rs[..i], [rs[i]], IsSkipped);
      CountAppend(rs[..i], [rs[i]], IsFailed);
      if rs[i].Moved? {
        stats := stats.(moved := stats.moved + 1);
      } else if rs[i].Skipped? {
        stats := stats.(skipped := stats.skipped + 1);
      } else {
        stats := stats.(failed := stats.failed + 1);
      }
      i := i + 1;
    }
    assert rs[..i] == rs;
    CountsPartition(rs);
  }

  /** `jarFiles`, the names of the jar entries. */
  function Names(entries: seq<DirEntry>): (r: seq<string>)
    ensures |r| == |entries|
    ensures forall k :: 0 <= k < |entries| ==> r[k] == entries[k].name
  {
    seq(|entries|, k requires 0 <= k < |entries| => entries[k].name)
  }

  /** Every jar file of the listing is among the names the loop visits, and every
      visited name ends in `.jar`. */
  lemma JarNamesListed(listing: seq<DirEntry>)
    ensures forall e :: e in listing && IsJarFile(e) ==> e.name in Names(Filter(listing, IsJarFile))
    ensures forall k :: 0 <= k < |Filter(listing, IsJarFile)| ==> EndsWith(Names(Filter(listing, IsJarFile))[k], ".jar")
  {
    var jarEntries := Filter(listing, IsJarFile);
    var names := Names(jarEntries);
    forall e | e in listing && IsJarFile(e)
      ensures e.name in names
    {
      var i :| 0 <= i < |listing| && listing[i] == e;
      assert e in jarEntries;
      var k :| 0 <= k < |jarEntries| && jarEntries[k] == e;
      assert names[k] == e.name;
    }
    forall k | 0 <= k < |jarEntries|
      ensures EndsWith(names[k], ".jar")
    {
      assert IsJarFile(jarEntries[k]);
    }
  }

  /** The loop body applied to each name in turn. */
  function SortAll(jars: seq<string>, folder: Folder): (r: seq<FileResult>)
    ensures |r| == |jars|
    ensures forall k :: 0 <= k < |jars| ==> r[k] == SortOne(jars[k], folder)
  {
    seq(|jars|, k requires 0 <= k < |jars| => SortOne(jars[k], folder))
  }

  /** How `sortModsByVersion` ends: no `mods/.old`, no jar in it, or every jar
      handled in listing order with the counts of the summary. */
  datatype SortOutcome =
    | MissingDirectory
    | NoJarFiles
    | Sorted(jars: seq<string>, results: seq<FileResult>, stats: Stats)

  /** `sortModsByVersion` over the listing of `mods/.old` (`None` when the folder
      does not exist). */
  method SortModsByVersion(listing: Option<seq<DirEntry>>, folder: Folder) returns (r: SortOutcome)
    ensures listing.None? <==> r.MissingDirectory?
    ensures r.NoJarFiles? <==> listing.Some? && Filter(listing.value, IsJarFile) == []
    ensures r.Sorted? ==>
      && |r.jars| == |r.results| > 0
      && r.jars == Names(Filter(listing.value, IsJarFile))
      && |r.jars| == Count(listing.value, IsJarFile)
      && (forall e :: e in listing.value && IsJarFile(e) ==> e.name in r.jars)
      && (forall k :: 0 <= k < |r.jars| ==> EndsWith(r.jars[k], ".jar"))
      && (forall k :: 0 <= k < |r.jars| ==> r.results[k] == SortOne(r.jars[k], folder))
      && r.stats.moved + r.stats.skipped + r.stats.failed == |r.jars|
      && r.stats.moved == Count(r.results, IsMoved)
      && r.stats.skipped == Count(r.results, IsSkipped)
  {
    if listing.None? {
      return MissingDirectory;
    }
    var jarEntries := Filter(listing.value, IsJarFile);
    if |jarEntries| == 0 {
      return NoJarFiles;
    }
    var jars := Names(jarEntries);
    var results := SortAll(jars, folder);
    var stats := Tally(results);
    CountIsFilterLength(listing.value, IsJarFile);
    JarNamesListed(listing.value);
    r := Sorted(jars, results, stats);
  }
}
