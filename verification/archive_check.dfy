/** The archive store of `archive_check.js`: the `mods/.old` directory as a
    listing of file names, the selection of the `.jar` entries to move out of
    `mods/`, and the longest-common-substring similarity between file names.
    A directory listing is a sequence of names in `readdirSync` order; `None`
    stands for a directory that does not exist. Renaming is not modelled: the
    functions return the names that would be moved. */
module ArchiveCheck {
  import opened Values
  import opened JsString

  /** `f.endsWith('.jar')`. */
  predicate IsJar(f: string) {
    EndsWith(f, ".jar")
  }

  predicate IsNotJar(f: string) {
    !IsJar(f)
  }

  /** The test `isArchived` applies to each archived name. */
  predicate ArchivedEntry(f: string, modId: string, version: string) {
    StartsWith(f, modId + "-") && Includes(f, version) && IsJar(f)
  }

  /** `isArchived(modId, version)` over the listing of `mods/.old`: false when the
      directory is absent, else whether some entry starts with `<modId>-`, contains
      the version anywhere, and ends in `.jar`. */
  function IsArchived(oldDir: Option<seq<string>>, modId: string, version: string): (r: bool)
    ensures oldDir.None? ==> !r
    ensures r <==> oldDir.Some? && exists k :: 0 <= k < |oldDir.value| && ArchivedEntry(oldDir.value[k], modId, version)
  {
    match oldDir
    case None => false
    case Some(files) => Any(files, f => ArchivedEntry(f, modId, version))
  }

  /** The version test is a substring test: once a version is archived, every
      prefix of it (and every other substring) counts as archived too. */
  lemma IsArchivedSubstring(oldDir: Option<seq<string>>, modId: string, version: string, part: string)
    requires IsArchived(oldDir, modId, version)
    requires Includes(version, part)
    ensures IsArchived(oldDir, modId, part)
  {
    var files := oldDir.value;
    var k :| 0 <= k < |files| && ArchivedEntry(files[k], modId, version);
    IncludesTransitive(files[k], version, part);
    assert ArchivedEntry(files[k], modId, part);
  }

  /** A prefix of an archived version is reported as archived. */
  lemma IsArchivedPrefix(oldDir: Option<seq<string>>, modId: string, version: string, prefix: string)
    requires IsArchived(oldDir, modId, version)
    requires StartsWith(version, prefix)
    ensures IsArchived(oldDir, modId, prefix)
  {
    IncludesWhenOccurs(version, prefix, 0);
    IsArchivedSubstring(oldDir, modId, version, prefix);
  }

  /** With `testmod-1.2.3.jar` archived, `testmod` at `1.2.3` is archived. */
  lemma IsArchivedExample(name: string)
    requires name == "testmod-1.2.3.jar"
    ensures IsArchived(Some([name]), "testmod", "1.2.3")
  {
    assert name == "testmod-" + "1.2.3" + ".jar";
    assert name[..8] == "testmod-";
    IncludesWhenOccurs(name, "1.2.3", 8);
    assert ArchivedEntry([name][0], "testmod", "1.2.3");
  }

  /** With only `testmod-1.2.3.jar` archived, another mod is not archived. */
  lemma IsArchivedOtherMod(name: string)
    requires name == "testmod-1.2.3.jar"
    ensures !IsArchived(Some([name]), "othermod", "1.2.3")
  {
    assert name[0] == 't';
  }

  /** With only `testmod-1.2.3.jar` archived, a version that does not occur in the
      name is not archived. */
  lemma IsArchivedOtherVersion(name: string)
    requires name == "testmod-1.2.3.jar"
    ensures !IsArchived(Some([name]), "testmod", "9.9.9")
  {
    assert forall t :: 0 <= t < |name| ==> name[t] != '9';
    forall i | 0 <= i
      ensures !OccursAt(name, "9.9.9", i)
    {
      if i + 5 <= |name| {
        assert name[i..i + 5][0] == name[i];
      }
    }
  }

  /** `listArchivedFiles`: `[]` when `mods/.old` is absent, else its `.jar` entries,
      each as often as it is listed. */
  function ListArchivedFiles(oldDir: Option<seq<string>>): (r: seq<string>)
    ensures oldDir.None? ==> r == []
    ensures forall k :: 0 <= k < |r| ==> IsJar(r[k]) && oldDir.Some? && r[k] in oldDir.value
    ensures oldDir.Some? ==> forall k :: 0 <= k < |oldDir.value| && IsJar(oldDir.value[k]) ==> oldDir.value[k] in r
    ensures oldDir.Some? ==> forall f :: multiset(r)[f] == if IsJar(f) then multiset(oldDir.value)[f] else 0
  {
    match oldDir
    case None => []
    case Some(files) =>
      forall f ensures multiset(Filter(files, IsJar))[f] == if IsJar(f) then multiset(files)[f] else 0 {
        FilterMultiplicity(files, IsJar, f);
      }
      Filter(files, IsJar)
  }

  /** The listing keeps `readdirSync` order: listing two runs of entries one after
      the other gives the two listings one after the other. */
  lemma ListArchivedFilesOrder(front: seq<string>, back: seq<string>)
    ensures ListArchivedFiles(Some(front + back)) == ListArchivedFiles(Some(front)) + ListArchivedFiles(Some(back))
  {
    FilterAppend(front, back, IsJar);
  }

  /** The selection of `archiveExistingMods`: every `.jar` entry of `mods/`, in
      listing order. */
  function ArchiveExistingMods(entries: seq<string>): (moved: seq<string>)
    ensures forall k :: 0 <= k < |moved| ==> moved[k] in entries && IsJar(moved[k])
    ensures forall k :: 0 <= k < |entries| && IsJar(entries[k]) ==> entries[k] in moved
    ensures forall f :: multiset(moved)[f] == if IsJar(f) then multiset(entries)[f] else 0
  {
    forall f ensures multiset(Filter(entries, IsJar))[f] == if IsJar(f) then multiset(entries)[f] else 0 {
      FilterMultiplicity(entries, IsJar, f);
    }
    Filter(entries, IsJar)
  }

  /** What moves and what stays are a partition of the directory: every entry is
      accounted for once, `.jar` entries move and the rest stay. */
  lemma ArchiveExistingModsPartition(entries: seq<string>)
    ensures multiset(ArchiveExistingMods(entries)) + multiset(Filter(entries, IsNotJar)) == multiset(entries)
  {
    FilterPartition(entries, IsJar, IsNotJar);
  }

  /** The directory the helpers of this file work on, `mods/` beside the
      directory holding the script: its listing, `None` when it does not exist,
      and whether its `.old` exists. Nothing else creates either of them. */
  datatype ModsDir = ModsDir(listing: Option<seq<string>>, oldExists: bool)

  /** What `readdirSync` throws on a missing `mods/`. */
  const NoModsDirError: string := "ENOENT: no such file or directory, scandir 'mods'"

  /** What `renameSync` throws when `mods/.old` is missing. */
  const NoOldDirError: string := "ENOENT: no such file or directory, rename to 'mods/.old'"

  /** `archiveExistingMods()` on the directory: a missing `mods/` makes the listing
      throw, and a missing `mods/.old` makes the first rename throw, before
      anything has moved; otherwise the selection of `ArchiveExistingMods` moves. */
  function ArchiveExistingModsIn(dir: ModsDir): (r: Result<seq<string>, string>)
    ensures dir.listing.None? ==> r == Err(NoModsDirError)
    ensures dir.listing.Some? && r.Err? ==> r.error == NoOldDirError
    ensures r.Ok? <==> dir.listing.Some? && (dir.oldExists || forall k :: 0 <= k < |dir.listing.value| ==> !IsJar(dir.listing.value[k]))
    ensures r.Ok? ==> r.value == ArchiveExistingMods(dir.listing.value)
  {
    match dir.listing
    case None => Err(NoModsDirError)
    case Some(entries) =>
      if !dir.oldExists && FindFirst(entries, IsJar) >= 0 then Err(NoOldDirError)
      else Ok(ArchiveExistingMods(entries))
  }

  const CheckSimilarityError: string := "ReferenceError: checkSimilarity is not defined"

  /** `archiveExistingModFiles(newFileName)` as written: the loop reads
      `checkSimilarity`, which is neither a parameter nor declared anywhere, as soon
      as it reaches a `.jar` entry other than `newFileName`. Reading an undeclared
      name throws before that entry is renamed, and the entries before it were not
      renamed either, so the call either throws or moves nothing. */
  function ArchiveExistingModFilesAsWritten(entries: seq<string>, newFileName: string): (r: Result<seq<string>, string>)
    ensures r.Err? <==> exists k :: 0 <= k < |entries| && IsJar(entries[k]) && entries[k] != newFileName
    ensures r.Err? ==> r.error == CheckSimilarityError
    ensures r.Ok? ==> r.value == []
  {
    if |entries| == 0 then Ok([])
    else if IsJar(entries[0]) && entries[0] != newFileName then Err(CheckSimilarityError)
    else
      var r := ArchiveExistingModFilesAsWritten(entries[1..], newFileName);
      assert forall k :: 1 <= k < |entries| ==> entries[k] == entries[1..][k - 1];
      r
  }

  /** The discrepancy: a `mods/` directory holding the new jar and one older jar
      makes the call throw instead of archiving the older jar. */
  lemma ArchiveExistingModFilesAsWrittenThrows(stale: string, current: string)
    requires stale == "testmod-1.0.jar" && current == "testmod-1.1.jar"
    ensures ArchiveExistingModFilesAsWritten([current, stale], current) == Err(CheckSimilarityError)
    ensures ArchiveExistingModFiles([current, stale], current, false) == [stale]
  {
    assert stale[|stale| - 4..] == ".jar";
    assert stale != current by {
      assert stale[10] != current[10];
    }
    assert [current, stale][1] == stale;
    assert Filter([current, stale], (f: string) => IsJar(f) && f != current && (!false || Similar(f, current))) == [stale] by {
      assert [current, stale][1..] == [stale];
      assert [stale][1..] == [];
    }
  }

  /** `archiveExistingModFiles(newFileName, checkSimilarity = false)` as its
      documentation describes it: every `.jar` entry other than `newFileName` moves,
      and with `checkSimilarity` only those similar enough to `newFileName`. */
  function ArchiveExistingModFiles(entries: seq<string>, newFileName: string, checkSimilarity: bool): (moved: seq<string>)
    ensures forall k :: 0 <= k < |moved| ==> moved[k] in entries && IsJar(moved[k]) && moved[k] != newFileName
    ensures checkSimilarity ==> forall k :: 0 <= k < |moved| ==> Similar(moved[k], newFileName)
    ensures forall k :: 0 <= k < |entries| && IsJar(entries[k]) && entries[k] != newFileName
                        && (checkSimilarity ==> Similar(entries[k], newFileName))
                        ==> entries[k] in moved
  {
    Filter(entries, (f: string) => IsJar(f) && f != newFileName && (!checkSimilarity || Similar(f, newFileName)))
  }

  /** Without the similarity check, the call archives what `archiveExistingMods`
      archives except the new file itself. */
  lemma ArchiveExistingModFilesKeepsNew(entries: seq<string>, newFileName: string)
    ensures ArchiveExistingModFiles(entries, newFileName, false)
         == Filter(ArchiveExistingMods(entries), (f: string) => f != newFileName)
  {
    FilterFilter(entries, IsJar, (f: string) => f != newFileName,
                 (f: string) => IsJar(f) && f != newFileName && (!false || Similar(f, newFileName)));
  }

  /** `x[i-k..i]` and `y[j-k..j]` are equal: a common substring of length `k`
      ending at `i` in `x` and at `j` in `y`. */
  predicate CommonAt(x: string, y: string, i: nat, j: nat, k: nat) {
    k <= i <= |x| && k <= j <= |y| && x[i - k..i] == y[j - k..j]
  }

  /** The cell `dp[i][j]` of `lcs`: the length of the longest common suffix of
      `x[..i]` and `y[..j]`. */
  function Suffix(x: string, y: string, i: nat, j: nat): nat
    requires i <= |x| && j <= |y|
  {
    if i == 0 || j == 0 || x[i - 1] != y[j - 1] then 0 else Suffix(x, y, i - 1, j - 1) + 1
  }

  /** The table cell is the length of a common suffix. */
  lemma {:induction false} SuffixCommon(x: string, y: string, i: nat, j: nat)
    requires i <= |x| && j <= |y|
    ensures CommonAt(x, y, i, j, Suffix(x, y, i, j))
  {
    if i > 0 && j > 0 && x[i - 1] == y[j - 1] {
      SuffixCommon(x, y, i - 1, j - 1);
      var n := Suffix(x, y, i - 1, j - 1);
      assert x[i - 1 - n..i] == x[i - 1 - n..i - 1] + [x[i - 1]];
      assert y[j - 1 - n..j] == y[j - 1 - n..j - 1] + [y[j - 1]];
    }
  }

  /** No common suffix is longer than the table cell. */
  lemma {:induction false} SuffixLongest(x: string, y: string, i: nat, j: nat, k: nat)
    requires CommonAt(x, y, i, j, k)
    ensures k <= Suffix(x, y, i, j)
    decreases k
  {
    if k > 0 {
      assert x[i - 1] == x[i - k..i][k - 1];
      assert y[j - 1] == y[j - k..j][k - 1];
      assert x[i - k..i - 1] == x[i - k..i][..k - 1];
      assert y[j - k..j - 1] == y[j - k..j][..k - 1];
      SuffixLongest(x, y, i - 1, j - 1, k - 1);
    }
  }

  function Max(a: nat, b: nat): nat {
    if a >= b then a else b
  }

  /** The largest cell of row `i` among columns `0..j`. */
  function RowBest(x: string, y: string, i: nat, j: nat): nat
    requires i <= |x| && j <= |y|
  {
    if j == 0 then Suffix(x, y, i, 0) else Max(RowBest(x, y, i, j - 1), Suffix(x, y, i, j))
  }

  lemma {:induction false} RowBestIsMax(x: string, y: string, i: nat, j: nat)
    requires i <= |x| && j <= |y|
    ensures forall c: nat :: c <= j ==> Suffix(x, y, i, c) <= RowBest(x, y, i, j)
    ensures exists c: nat :: c <= j && Suffix(x, y, i, c) == RowBest(x, y, i, j)
  {
    if j == 0 {
      assert Suffix(x, y, i, 0) == RowBest(x, y, i, 0);
    } else {
      RowBestIsMax(x, y, i, j - 1);
      if RowBest(x, y, i, j) == Suffix(x, y, i, j) {
        assert Suffix(x, y, i, j) == RowBest(x, y, i, j);
      } else {
        var c: nat :| c <= j - 1 && Suffix(x, y, i, c) == RowBest(x, y, i, j - 1);
        assert Suffix(x, y, i, c) == RowBest(x, y, i, j);
      }
    }
  }

  /** Row 0 of the table is all zeros. */
  lemma {:induction false} RowBestZero(x: string, y: string, j: nat)
    requires j <= |y|
    ensures RowBest(x, y, 0, j) == 0
  {
    if j > 0 {
      RowBestZero(x, y, j - 1);
    }
  }

  /** The largest cell in rows `0..i`. */
  function Best(x: string, y: string, i: nat): nat
    requires i <= |x|
  {
    if i == 0 then RowBest(x, y, 0, |y|) else Max(Best(x, y, i - 1), RowBest(x, y, i, |y|))
  }

  lemma {:induction false} BestIsMax(x: string, y: string, i: nat)
    requires i <= |x|
    ensures forall r: nat, c: nat :: r <= i && c <= |y| ==> Suffix(x, y, r, c) <= Best(x, y, i)
    ensures exists r: nat, c: nat :: r <= i && c <= |y| && Suffix(x, y, r, c) == Best(x, y, i)
  {
    RowBestIsMax(x, y, i, |y|);
    if i > 0 {
      BestIsMax(x, y, i - 1);
    }
  }

  /** The length `lcs(x, y)` returns: the largest cell of the whole table. */
  function Lcs(x: string, y: string): nat {
    Best(x, y, |x|)
  }

  /** `Lcs` is the length of a longest common substring: some common substring has
      that length and none is longer. */
  lemma LcsIsLongestCommonSubstring(x: string, y: string)
    ensures exists i: nat, j: nat :: i <= |x| && j <= |y| && CommonAt(x, y, i, j, Lcs(x, y))
    ensures forall i: nat, j: nat, k: nat :: CommonAt(x, y, i, j, k) ==> k <= Lcs(x, y)
  {
    BestIsMax(x, y, |x|);
    var r: nat, c: nat :| r <= |x| && c <= |y| && Suffix(x, y, r, c) == Lcs(x, y);
    SuffixCommon(x, y, r, c);
    forall i: nat, j: nat, k: nat | CommonAt(x, y, i, j, k)
      ensures k <= Lcs(x, y)
    {
      SuffixLongest(x, y, i, j, k);
    }
  }

  /** A common substring is no longer than either string. */
  lemma LcsBounded(x: string, y: string)
    ensures Lcs(x, y) <= |x| && Lcs(x, y) <= |y|
  {
    LcsIsLongestCommonSubstring(x, y);
  }

  /** A string shares all of itself with itself. */
  lemma LcsSelf(x: string)
    ensures Lcs(x, x) == |x|
  {
    LcsIsLongestCommonSubstring(x, x);
    assert CommonAt(x, x, |x|, |x|, |x|);
  }

  /** `lcs(x, y)` as the nested loops compute it. Only the previous row of `dp`
      is kept, which is all the recurrence reads. */
  method LongestCommonSubstring(x: string, y: string) returns (maxLen: nat)
    ensures maxLen == Lcs(x, y)
  {
    var prev := seq(|y| + 1, _ => 0);
    maxLen := 0;
    RowBestZero(x, y, |y|);
    var i := 1;
    while i <= |x|
      invariant 1 <= i <= |x| + 1
      invariant |prev| == |y| + 1
      invariant forall c :: 0 <= c <= |y| ==> prev[c] == Suffix(x, y, i - 1, c)
      invariant maxLen == Best(x, y, i - 1)
    {
      prev, maxLen := NextRow(x, y, i, prev, maxLen);
      i := i + 1;
    }
  }

  /** One pass of the inner loop: row `i` of `dp` from row `i - 1`, and the
      running maximum over both. */
  method NextRow(x: string, y: string, i: nat, prev: seq<nat>, maxLen: nat) returns (row: seq<nat>, best: nat)
    requires 1 <= i <= |x| && |prev| == |y| + 1
    requires forall c :: 0 <= c <= |y| ==> prev[c] == Suffix(x, y, i - 1, c)
    requires maxLen == Best(x, y, i - 1)
    ensures |row| == |y| + 1
    ensures forall c :: 0 <= c <= |y| ==> row[c] == Suffix(x, y, i, c)
    ensures best == Best(x, y, i)
  {
    row := [0];
    best := maxLen;
    var j := 1;
    while j <= |y|
      invariant 1 <= j <= |y| + 1
      invariant |row| == j
      invariant forall c :: 0 <= c < j ==> row[c] == Suffix(x, y, i, c)
      invariant best == Max(maxLen, RowBest(x, y, i, j - 1))
    {
      var cell := 0;
      if x[i - 1] == y[j - 1] {
        cell := prev[j - 1] + 1;
        if cell > best {
          best := cell;
        }
      }
      assert cell == Suffix(x, y, i, j);
      assert RowBest(x, y, i, j) == Max(RowBest(x, y, i, j - 1), cell);
      row := row + [cell];
      j := j + 1;
    }
  }

  const Threshold: real := 0.6

  /** `similarity(a, b) >= 0.6`: the common-substring length over the mean of the
      two lengths. Two empty names divide zero by zero, and NaN is never `>= 0.6`. */
  predicate Similar(a: string, b: string) {
    |a| + |b| > 0 && (Lcs(a, b) as real) / (((|a| + |b|) as real) / 2.0) >= Threshold
  }

  lemma DivAtLeast(a: real, b: real, c: real)
    requires b > 0.0
    ensures a / b >= c <==> a >= c * b
  {
    assert a / b * b == a;
    if a / b >= c {
      assert a / b * b >= c * b;
    } else {
      assert a / b * b < c * b;
    }
  }

  /** The threshold test restated in integers. */
  lemma SimilarIff(a: string, b: string)
    ensures Similar(a, b) <==> |a| + |b| > 0 && 10 * Lcs(a, b) >= 3 * (|a| + |b|)
  {
    if |a| + |b| > 0 {
      var l := Lcs(a, b) as real;
      var s := (|a| + |b|) as real;
      DivAtLeast(l, s / 2.0, Threshold);
    }
  }

  /** A name is always similar to itself. */
  lemma SimilarSelf(a: string)
    requires |a| > 0
    ensures Similar(a, a)
  {
    LcsSelf(a);
    SimilarIff(a, a);
  }
}
