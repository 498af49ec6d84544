/**
 * GitIgnoreService: the list of configured project names and the loader that
 * gathers pattern lines from the listed .gitignore files.
 *
 * The file system is replaced by its answers: each listed file is None when
 * File.Exists says it is missing, or Some(lines) with what ReadAllLines returns.
 */
module GitIgnoreService {
  import opened Text
  import opened Models

  // ---------------------------------------------------------------------------
  // GetAvailableProjects
  // ---------------------------------------------------------------------------

  function Names(projects: seq<ProjectPatternSettings>): (names: seq<string>)
    ensures |names| == |projects|
    ensures forall k :: 0 <= k < |projects| ==> names[k] == projects[k].name
  {
    if projects == [] then [] else [projects[0].name] + Names(projects[1..])
  }

  /** Enumerable.Distinct: each value once, at the place it first occurs. */
  function Distinct(xs: seq<string>): (r: seq<string>)
    ensures forall x :: x in r <==> x in xs
    ensures forall i, j :: 0 <= i < j < |r| ==> r[i] != r[j]
  {
    if xs == [] then []
    else
      var n := |xs| - 1;
      var d := Distinct(xs[..n]);
      if xs[n] in xs[..n] then d else d + [xs[n]]
  }

  /** Every configured name, each exactly once (names compared exactly). */
  function GetAvailableProjects(settings: ProjectSettings): (r: seq<string>)
    ensures forall p <- settings.projects :: p.name in r
    ensures forall x <- r :: exists p <- settings.projects :: p.name == x
    ensures forall i, j :: 0 <= i < j < |r| ==> r[i] != r[j]
  {
    var names := Names(settings.projects);
    assert forall k :: 0 <= k < |settings.projects| ==> names[k] == settings.projects[k].name;
    Distinct(names)
  }

  /** Where x first occurs in xs. */
  function FirstIndex(xs: seq<string>, x: string): (i: nat)
    requires x in xs
    ensures i < |xs| && xs[i] == x && x !in xs[..i]
  {
    if xs[0] == x then 0
    else
      var i := FirstIndex(xs[1..], x);
      assert xs[..i + 1] == [xs[0]] + xs[1..][..i];
      i + 1
  }

  /** An occurrence with no earlier one is the first occurrence. */
  lemma FirstIndexUnique(xs: seq<string>, p: int, x: string)
    requires 0 <= p < |xs| && xs[p] == x && x !in xs[..p]
    ensures FirstIndex(xs, x) == p
  {
    var i := FirstIndex(xs, x);
    assert forall k :: 0 <= k < p ==> xs[k] == xs[..p][k];
    assert forall k :: 0 <= k < i ==> xs[k] == xs[..i][k];
  }

  /** A value that occurs in a prefix first occurs there. */
  lemma FirstIndexInPrefix(xs: seq<string>, n: int, x: string)
    requires 0 <= n <= |xs| && x in xs[..n]
    ensures FirstIndex(xs, x) == FirstIndex(xs[..n], x) < n
  {
    var p := FirstIndex(xs[..n], x);
    assert xs[..n][..p] == xs[..p];
    assert xs[p] == xs[..n][p];
    FirstIndexUnique(xs, p, x);
  }

  /** Distinct lists the values in the order of their first occurrences. */
  lemma {:induction false} DistinctKeepsFirstOccurrenceOrder(xs: seq<string>)
    ensures forall i, j :: 0 <= i < j < |Distinct(xs)| ==>
      FirstIndex(xs, Distinct(xs)[i]) < FirstIndex(xs, Distinct(xs)[j])
  {
    if xs != [] {
      var n := |xs| - 1;
      var d := Distinct(xs[..n]);
      DistinctKeepsFirstOccurrenceOrder(xs[..n]);
      forall y | y in d ensures FirstIndex(xs, y) == FirstIndex(xs[..n], y) < n {
        FirstIndexInPrefix(xs, n, y);
      }
      if xs[n] !in xs[..n] {
        FirstIndexUnique(xs, n, xs[n]);
        var r := d + [xs[n]];
        assert Distinct(xs) == r;
        forall i, j | 0 <= i < j < |r| ensures FirstIndex(xs, r[i]) < FirstIndex(xs, r[j]) {
          assert r[i] == d[i];
          if j < |d| {
            assert r[j] == d[j];
          }
        }
      }
    }
  }

  /** A list without repeats is its own Distinct, so Distinct is idempotent. */
  lemma {:induction false} DistinctOfDistinct(xs: seq<string>)
    requires forall i, j :: 0 <= i < j < |xs| ==> xs[i] != xs[j]
    ensures Distinct(xs) == xs
  {
    if xs != [] {
      var n := |xs| - 1;
      DistinctOfDistinct(xs[..n]);
      assert xs[..n] + [xs[n]] == xs;
    }
  }

  /** Projects named ProjA, ProjB and ProjA are listed as ProjA, ProjB. */
  lemma RepeatedNameListedOnce()
    ensures GetAvailableProjects(ProjectSettings("", [ProjectPatternSettings("ProjA", [], []),
      ProjectPatternSettings("ProjB", [], []), ProjectPatternSettings("ProjA", [], [])])) == ["ProjA", "ProjB"]
  {
    var projects := [ProjectPatternSettings("ProjA", [], []), ProjectPatternSettings("ProjB", [], []),
                     ProjectPatternSettings("ProjA", [], [])];
    var names := Names(projects);
    assert names == ["ProjA", "ProjB", "ProjA"];
    assert names[..2] == ["ProjA", "ProjB"];
    assert names[..2][..1] == ["ProjA"];
    assert "ProjB" != "ProjA" by { assert "ProjB"[4] != "ProjA"[4]; }
    assert Distinct(names[..2][..1]) == ["ProjA"];
    assert Distinct(names[..2]) == ["ProjA", "ProjB"];
  }

  // ---------------------------------------------------------------------------
  // LoadGitIgnorePatterns
  // ---------------------------------------------------------------------------

  /** A trimmed line is kept when it is not blank and does not start with '#'. */
  predicate KeepsLine(trimmed: string)
  {
    !AllWhiteSpace(trimmed) && !StartsWith(trimmed, "#")
  }

  /** Every line of a file, trimmed. */
  function Trimmed(lines: seq<string>): (ts: seq<string>)
    ensures |ts| == |lines|
    ensures forall k :: 0 <= k < |lines| ==> ts[k] == Trim(lines[k])
  {
    seq(|lines|, k requires 0 <= k < |lines| => Trim(lines[k]))
  }

  /** The trimmed lines that are kept, in order. */
  function Kept(ts: seq<string>): seq<string>
  {
    if ts == [] then []
    else
      var n := |ts| - 1;
      Kept(ts[..n]) + (if KeepsLine(ts[n]) then [ts[n]] else [])
  }

  /** The kept, trimmed lines of one file, in order. */
  function PatternLines(lines: seq<string>): seq<string>
  {
    Kept(Trimmed(lines))
  }

  /** The kept lines of every listed file, files in list order; a missing file adds nothing. */
  function FilesPatternLines(files: seq<Option<seq<string>>>): seq<string>
  {
    if files == [] then []
    else
      var n := |files| - 1;
      FilesPatternLines(files[..n]) + (if files[n].Some? then PatternLines(files[n].value) else [])
  }

  /** gitIgnoreFiles is None for a null list. */
  method LoadGitIgnorePatterns(gitIgnoreFiles: Option<seq<Option<seq<string>>>>) returns (combinedPatterns: seq<string>)
    ensures gitIgnoreFiles.None? ==> combinedPatterns == []
    ensures gitIgnoreFiles.Some? ==> combinedPatterns == FilesPatternLines(gitIgnoreFiles.value)
  {
    combinedPatterns := [];
    if gitIgnoreFiles.None? || |gitIgnoreFiles.value| == 0 {
      return;
    }
    var files := gitIgnoreFiles.value;
    for i := 0 to |files|
      invariant combinedPatterns == FilesPatternLines(files[..i])
    {
      assert files[..i + 1][..i] == files[..i];
      if files[i].None? {
        continue;
      }
      var lines := files[i].value;
      for j := 0 to |lines|
        invariant combinedPatterns == FilesPatternLines(files[..i]) + PatternLines(lines[..j])
      {
        PatternLinesStep(lines, j);
        var trimmed := Trim(lines[j]);
        if AllWhiteSpace(trimmed) {
          continue;
        }
        if StartsWith(trimmed, "#") {
          continue;
        }
        combinedPatterns := combinedPatterns + [trimmed];
      }
      assert lines[..|lines|] == lines;
    }
    assert files[..|files|] == files;
  }

  /** One more line: it is appended, trimmed, when it is kept. */
  lemma PatternLinesStep(lines: seq<string>, j: int)
    requires 0 <= j < |lines|
    ensures PatternLines(lines[..j + 1])
         == PatternLines(lines[..j]) + (if KeepsLine(Trim(lines[j])) then [Trim(lines[j])] else [])
  {
    assert Trimmed(lines[..j + 1])[..j] == Trimmed(lines[..j]);
  }

  lemma {:induction false} KeptMembers(ts: seq<string>, x: string)
    ensures x in Kept(ts) <==> KeepsLine(x) && x in ts
  {
    if ts != [] {
      var n := |ts| - 1;
      KeptMembers(ts[..n], x);
      assert ts == ts[..n] + [ts[n]];
    }
  }

  /** Nothing else is dropped: x is returned exactly when some line trims to x and x is kept. */
  lemma PatternLinesMembers(lines: seq<string>, x: string)
    ensures x in PatternLines(lines) <==> KeepsLine(x) && exists k :: 0 <= k < |lines| && Trim(lines[k]) == x
  {
    var ts := Trimmed(lines);
    KeptMembers(ts, x);
    if x in ts {
      var k :| 0 <= k < |ts| && ts[k] == x;
      assert Trim(lines[k]) == x;
    }
  }

  /** Every returned line is trimmed (no white space at either end), not blank,
      and not a comment. */
  lemma PatternLinesAreClean(lines: seq<string>)
    ensures forall x <- PatternLines(lines) ::
      x != [] && !IsWhiteSpace(x[0]) && !IsWhiteSpace(x[|x| - 1]) && !StartsWith(x, "#")
  {
    forall x <- PatternLines(lines)
      ensures x != [] && !IsWhiteSpace(x[0]) && !IsWhiteSpace(x[|x| - 1]) && !StartsWith(x, "#")
    {
      PatternLinesMembers(lines, x);
      var k :| 0 <= k < |lines| && Trim(lines[k]) == x;
      TrimShape(lines[k]);
    }
  }

  lemma {:induction false} KeptAppend(a: seq<string>, b: seq<string>)
    ensures Kept(a + b) == Kept(a) + Kept(b)
    decreases |b|
  {
    if b == [] {
      assert a + b == a;
    } else {
      var n := |b| - 1;
      KeptAppend(a, b[..n]);
      assert (a + b)[..|a + b| - 1] == a + b[..n];
    }
  }

  /** The lines of consecutive files, or of consecutive parts of one file,
      come out in the same order, one part after the other. */
  lemma PatternLinesAppend(a: seq<string>, b: seq<string>)
    ensures PatternLines(a + b) == PatternLines(a) + PatternLines(b)
  {
    assert Trimmed(a + b) == Trimmed(a) + Trimmed(b);
    KeptAppend(Trimmed(a), Trimmed(b));
  }

  /** Listing one more file appends its kept lines, if it exists. */
  lemma FilesPatternLinesSnoc(files: seq<Option<seq<string>>>, last: Option<seq<string>>)
    ensures FilesPatternLines(files + [last])
         == FilesPatternLines(files) + (if last.Some? then PatternLines(last.value) else [])
  {
    assert (files + [last])[..|files|] == files;
  }

  lemma {:induction false} FilesPatternLinesAppend(a: seq<Option<seq<string>>>, b: seq<Option<seq<string>>>)
    ensures FilesPatternLines(a + b) == FilesPatternLines(a) + FilesPatternLines(b)
    decreases |b|
  {
    if b == [] {
      assert a + b == a;
    } else {
      var n := |b| - 1;
      FilesPatternLinesAppend(a, b[..n]);
      assert a + b == (a + b[..n]) + [b[n]];
      assert b == b[..n] + [b[n]];
      FilesPatternLinesSnoc(a + b[..n], b[n]);
      FilesPatternLinesSnoc(b[..n], b[n]);
    }
  }

  /** A line is loaded exactly when it is a kept line of some listed file that exists. */
  lemma {:induction false} FilesPatternLinesMembers(files: seq<Option<seq<string>>>, x: string)
    ensures x in FilesPatternLines(files)
        <==> exists k :: 0 <= k < |files| && files[k].Some? && x in PatternLines(files[k].value)
    decreases |files|
  {
    if files != [] {
      var n := |files| - 1;
      var before := files[..n];
      var tail := if files[n].Some? then PatternLines(files[n].value) else [];
      assert FilesPatternLines(files) == FilesPatternLines(before) + tail;
      FilesPatternLinesMembers(before, x);
      if exists k :: 0 <= k < n && before[k].Some? && x in PatternLines(before[k].value) {
        var k :| 0 <= k < n && before[k].Some? && x in PatternLines(before[k].value);
        assert files[k] == before[k];
      }
      if exists k :: 0 <= k < |files| && files[k].Some? && x in PatternLines(files[k].value) {
        var k :| 0 <= k < |files| && files[k].Some? && x in PatternLines(files[k].value);
        if k < n {
          assert before[k] == files[k];
        }
      }
    }
  }

  /** Every loaded line, whatever file it came from, is trimmed, not blank
      and not a comment. */
  lemma FilesPatternLinesAreClean(files: seq<Option<seq<string>>>)
    ensures forall x <- FilesPatternLines(files) ::
      x != [] && !IsWhiteSpace(x[0]) && !IsWhiteSpace(x[|x| - 1]) && !StartsWith(x, "#")
  {
    forall x <- FilesPatternLines(files)
      ensures x != [] && !IsWhiteSpace(x[0]) && !IsWhiteSpace(x[|x| - 1]) && !StartsWith(x, "#")
    {
      FilesPatternLinesMembers(files, x);
      var k :| 0 <= k < |files| && files[k].Some? && x in PatternLines(files[k].value);
      PatternLinesAreClean(files[k].value);
    }
  }

  /** A listed file that does not exist contributes no lines. */
  lemma MissingFileContributesNothing(before: seq<Option<seq<string>>>, after: seq<Option<seq<string>>>)
    ensures FilesPatternLines(before + [None] + after) == FilesPatternLines(before + after)
  {
    FilesPatternLinesAppend(before + [None], after);
    FilesPatternLinesAppend(before, [None]);
    FilesPatternLinesAppend(before, after);
    var missing: seq<Option<seq<string>>> := [None];
    assert missing[..0] == [];
  }

  /** One .gitignore holding "# comment", "", "bin/" and "!bin/special.dll"
      yields exactly "bin/" and "!bin/special.dll". */
  lemma CommentAndBlankLinesSkipped()
    ensures FilesPatternLines([Some(["# comment", "", "bin/", "!bin/special.dll"])]) == ["bin/", "!bin/special.dll"]
  {
    var lines := ["# comment", "", "bin/", "!bin/special.dll"];
    assert Trim("# comment") == "# comment";
    assert StartsWith("# comment", "#");
    assert Trim("") == "";
    assert Trim("bin/") == "bin/";
    assert !AllWhiteSpace("bin/") by { assert !IsWhiteSpace("bin/"[0]); }
    assert !StartsWith("bin/", "#") by { assert "bin/"[..1][0] == 'b'; }
    assert Trim("!bin/special.dll") == "!bin/special.dll";
    assert !AllWhiteSpace("!bin/special.dll") by { assert !IsWhiteSpace("!bin/special.dll"[0]); }
    assert !StartsWith("!bin/special.dll", "#") by { assert "!bin/special.dll"[..1][0] == '!'; }
    var ts := ["# comment", "", "bin/", "!bin/special.dll"];
    assert Trimmed(lines) == ts;
    assert ts[..3] == ["# comment", "", "bin/"];
    assert ts[..3][..2] == ["# comment", ""];
    assert ts[..3][..2][..1] == ["# comment"];
    assert ts[..3][..2][..1][..0] == [];
    assert Kept(ts[..3][..2][..1]) == [];
    assert Kept(ts[..3][..2]) == [];
    assert Kept(ts[..3]) == ["bin/"];
    assert PatternLines(lines) == ["bin/"] + ["!bin/special.dll"];
    var files := [Some(lines)];
    assert files[..0] == [];
  }
}
