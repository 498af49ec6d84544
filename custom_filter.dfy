/**
 * CustomFilterService: the per-project include/exclude tokens and the
 * three-tier matcher that applies them after the gitignore stage.
 */
module CustomFilter {
  import opened Text
  import opened Models

  // ---------------------------------------------------------------------------
  // Subsequences
  // ---------------------------------------------------------------------------

  /** xs can be obtained from ys by deleting elements, keeping the order. */
  predicate IsSubsequence(xs: seq<string>, ys: seq<string>)
    decreases |ys|
  {
    xs == [] || (ys != [] && ((xs[0] == ys[0] && IsSubsequence(xs[1..], ys[1..])) || IsSubsequence(xs, ys[1..])))
  }

  lemma {:induction false} SubsequenceReflexive(xs: seq<string>)
    ensures IsSubsequence(xs, xs)
    decreases |xs|
  {
    if xs != [] {
      SubsequenceReflexive(xs[1..]);
    }
  }

  lemma {:induction false} SubsequenceTransitive(xs: seq<string>, ys: seq<string>, zs: seq<string>)
    requires IsSubsequence(xs, ys) && IsSubsequence(ys, zs)
    ensures IsSubsequence(xs, zs)
    decreases |zs|
  {
    if xs != [] {
      if ys[0] == zs[0] && IsSubsequence(ys[1..], zs[1..]) {
        if xs[0] == ys[0] && IsSubsequence(xs[1..], ys[1..]) {
          SubsequenceTransitive(xs[1..], ys[1..], zs[1..]);
        } else {
          SubsequenceTransitive(xs, ys[1..], zs[1..]);
        }
      } else {
        SubsequenceTransitive(xs, ys, zs[1..]);
      }
    }
  }

  // ---------------------------------------------------------------------------
  // IsMatch
  // ---------------------------------------------------------------------------

  /** The "filename.ext" shape: split on '.', exactly two parts, neither
      empty nor white space only. */
  predicate IsNameDotExt(pattern: string)
  {
    var parts := Split(pattern, '.');
    |parts| == 2 && !AllWhiteSpace(parts[0]) && !AllWhiteSpace(parts[1])
  }

  /** The foreach over the segments: some segment equals the pattern, ignoring case. */
  predicate AnySegmentEquals(segments: seq<string>, pattern: string)
    ensures AnySegmentEquals(segments, pattern) <==> exists seg <- segments :: EqualsIgnoreCase(seg, pattern)
  {
    if segments == [] then false
    else EqualsIgnoreCase(segments[0], pattern) || AnySegmentEquals(segments[1..], pattern)
  }

  /** The path with '\' turned into '/'. */
  function NormalizePath(filePath: string): (r: string)
    ensures '\\' !in r
  {
    ReplaceChar(filePath, '\\', '/')
  }

  /** One custom pattern against one path. A "*.ext" pattern compares the
      extension and decides alone; a "filename.ext" pattern accepts an equal
      file name and otherwise falls through; every other case asks whether
      some '/'-segment equals the pattern. All comparisons ignore case. */
  predicate IsMatch(filePath: string, pattern: string)
  {
    var normPath := NormalizePath(filePath);
    if StartsWith(pattern, "*.") then
      EqualsIgnoreCase(Extension(normPath), pattern[1..])
    else if IsNameDotExt(pattern) && EqualsIgnoreCase(FileName(normPath), pattern) then
      true
    else
      AnySegmentEquals(Split(normPath, '/'), pattern)
  }

  /** A string without the separator is its own single part. */
  lemma {:induction false} SplitWithoutSeparator(s: string, c: char)
    requires c !in s
    ensures Split(s, c) == [s]
  {
    if s != [] {
      SplitWithoutSeparator(s[1..], c);
      assert [s[0]] + s[1..] == s;
    }
  }

  /** A string with the separator splits into at least two parts. */
  lemma {:induction false} SplitWithSeparator(s: string, c: char)
    requires c in s
    ensures |Split(s, c)| >= 2
  {
    if s[0] != c {
      SplitWithSeparator(s[1..], c);
    }
  }

  /** The file name is the last '/'-segment. */
  lemma {:induction false} FileNameIsLastSegment(s: string)
    ensures FileName(s) == Split(s, '/')[|Split(s, '/')| - 1]
  {
    if '/' !in s {
      SplitWithoutSeparator(s, '/');
    } else {
      FileNameIsLastSegment(s[1..]);
      if s[0] != '/' {
        SplitWithSeparator(s[1..], '/');
      }
    }
  }

  /** "*.ext" accepts exactly the paths whose file name is some n + "." + e
      with e equal to ext ignoring case; no other tier is consulted. */
  lemma ExtensionToken(filePath: string, ext: string)
    requires ext != [] && '.' !in ext
    ensures IsMatch(filePath, "*." + ext)
        <==> exists n, e :: FileName(NormalizePath(filePath)) == n + "." + e && EqualsIgnoreCase(e, ext)
  {
    var p := "*." + ext;
    assert p[..2] == "*." && p[1..] == "." + ext;
    ExtensionIs(NormalizePath(filePath), ext);
  }

  /** "*.ext" rejects a file whose own extension is another one, whatever
      the folders are called and however the other extension begins. */
  lemma OtherExtensionRejected(dir: string, name: string, other: string, ext: string)
    requires dir == [] || dir[|dir| - 1] == '/'
    requires '\\' !in dir && '\\' !in name && '/' !in name
    requires other != [] && '.' !in other && '/' !in other && '\\' !in other
    requires ext != [] && '.' !in ext && !EqualsIgnoreCase(other, ext)
    ensures !IsMatch(dir + name + "." + other, "*." + ext)
  {
    var path := dir + name + "." + other;
    var file := name + "." + other;
    assert '\\' !in path;
    assert NormalizePath(path) == path;
    assert path[|dir|..] == file;
    assert '/' !in file;
    FileNameUnique(path, |dir|);
    var dotOther, dotExt := "." + other, "." + ext;
    assert dotOther[0] == '.' && dotOther[1..] == other;
    assert dotExt[0] == '.' && dotExt[1..] == ext;
    DotSuffixOfLastDot(name, other);
    EqualsIgnoreCaseCons(dotOther, dotExt);
    assert ("*." + ext)[..2] == "*." && ("*." + ext)[1..] == dotExt;
  }

  /** "*.cs" looks only at the whole extension of the file name: a folder
      named "cs" does not count, and neither does the longer ".csproj". */
  lemma CsPatternExamples(inFolder: string, longer: string)
    requires inFolder == "temp/cs/file.txt" && longer == "src/app.csproj"
    ensures !IsMatch(inFolder, "*.cs") && !IsMatch(longer, "*.cs")
  {
    assert !IsMatch(inFolder, "*.cs") by {
      assert "*.cs" == "*." + "cs";
      assert inFolder == "temp/cs/" + "file" + "." + "txt";
      OtherExtensionRejected("temp/cs/", "file", "txt", "cs");
    }
    assert !IsMatch(longer, "*.cs") by {
      assert "*.cs" == "*." + "cs";
      assert longer == "src/" + "app" + "." + "csproj";
      OtherExtensionRejected("src/", "app", "csproj", "cs");
    }
  }

  /** Every other pattern matches exactly when some segment of the
      normalised path equals it; the file-name tier never adds a match. */
  lemma SegmentTier(filePath: string, pattern: string)
    requires !StartsWith(pattern, "*.")
    ensures IsMatch(filePath, pattern)
        <==> exists seg <- Split(NormalizePath(filePath), '/') :: EqualsIgnoreCase(seg, pattern)
  {
    var normPath := NormalizePath(filePath);
    FileNameIsLastSegment(normPath);
    var segments := Split(normPath, '/');
    assert FileName(normPath) in segments;
  }

  // ---------------------------------------------------------------------------
  // MatchesAnyPattern and ApplyPathFilters
  // ---------------------------------------------------------------------------

  predicate MatchesAnyPattern(filePath: string, patterns: seq<string>)
    ensures MatchesAnyPattern(filePath, patterns) <==> exists pat <- patterns :: IsMatch(filePath, pat)
  {
    if patterns == [] then false
    else IsMatch(filePath, patterns[0]) || MatchesAnyPattern(filePath, patterns[1..])
  }

  /** The Where stage: the paths, in order, whose MatchesAnyPattern answer is `wanted`. */
  function Select(paths: seq<string>, patterns: seq<string>, wanted: bool): seq<string>
  {
    if paths == [] then []
    else (if MatchesAnyPattern(paths[0], patterns) == wanted then [paths[0]] else [])
         + Select(paths[1..], patterns, wanted)
  }

  lemma {:induction false} SelectIsSubsequence(paths: seq<string>, patterns: seq<string>, wanted: bool)
    ensures IsSubsequence(Select(paths, patterns, wanted), paths)
  {
    if paths != [] {
      SelectIsSubsequence(paths[1..], patterns, wanted);
      var rest := Select(paths[1..], patterns, wanted);
      if MatchesAnyPattern(paths[0], patterns) == wanted {
        assert ([paths[0]] + rest)[1..] == rest;
      } else {
        assert [] + rest == rest;
      }
    }
  }

  lemma {:induction false} SelectMembers(paths: seq<string>, patterns: seq<string>, wanted: bool, x: string)
    ensures x in Select(paths, patterns, wanted) <==> x in paths && MatchesAnyPattern(x, patterns) == wanted
  {
    if paths != [] {
      SelectMembers(paths[1..], patterns, wanted, x);
      assert paths == [paths[0]] + paths[1..];
    }
  }

  /** When every path already has the wanted answer, the stage changes nothing. */
  lemma {:induction false} SelectKeepsAll(paths: seq<string>, patterns: seq<string>, wanted: bool)
    requires forall k :: 0 <= k < |paths| ==> MatchesAnyPattern(paths[k], patterns) == wanted
    ensures Select(paths, patterns, wanted) == paths
  {
    if paths != [] {
      SelectKeepsAll(paths[1..], patterns, wanted);
    }
  }

  /** Running a stage twice is running it once. */
  lemma SelectIdempotent(paths: seq<string>, patterns: seq<string>, wanted: bool)
    ensures Select(Select(paths, patterns, wanted), patterns, wanted) == Select(paths, patterns, wanted)
  {
    var once := Select(paths, patterns, wanted);
    forall k | 0 <= k < |once| ensures MatchesAnyPattern(once[k], patterns) == wanted {
      SelectMembers(paths, patterns, wanted, once[k]);
    }
    SelectKeepsAll(once, patterns, wanted);
  }

  /** Two stages can run in either order. */
  lemma {:induction false} SelectCommutes(paths: seq<string>, a: seq<string>, wa: bool, b: seq<string>, wb: bool)
    ensures Select(Select(paths, a, wa), b, wb) == Select(Select(paths, b, wb), a, wa)
  {
    if paths != [] {
      SelectCommutes(paths[1..], a, wa, b, wb);
      var p := paths[0];
      SelectCons(p, paths[1..], a, wa);
      SelectCons(p, paths[1..], b, wb);
      var ra := Select(paths[1..], a, wa);
      var rb := Select(paths[1..], b, wb);
      if MatchesAnyPattern(p, a) == wa {
        SelectCons(p, ra, b, wb);
      } else {
        assert Select(paths, a, wa) == ra;
      }
      if MatchesAnyPattern(p, b) == wb {
        SelectCons(p, rb, a, wa);
      } else {
        assert Select(paths, b, wb) == rb;
      }
    }
  }

  lemma SelectCons(p: string, rest: seq<string>, patterns: seq<string>, wanted: bool)
    ensures Select([p] + rest, patterns, wanted)
         == (if MatchesAnyPattern(p, patterns) == wanted then [p] else []) + Select(rest, patterns, wanted)
  {
    assert ([p] + rest)[1..] == rest;
  }

  /** The value ApplyPathFilters returns: the include stage when there are
      include patterns, then the exclude stage when there are exclude patterns. */
  function PathFilters(filePaths: seq<string>, includePatterns: seq<string>, excludePatterns: seq<string>): seq<string>
  {
    var included := if |includePatterns| > 0 then Select(filePaths, includePatterns, true) else filePaths;
    if |excludePatterns| > 0 then Select(included, excludePatterns, false) else included
  }

  /** The result keeps the input order, and a path is in it exactly when it
      is in the input, matches an include pattern (if there are any) and
      matches no exclude pattern: exclusion beats inclusion. */
  lemma PathFiltersSpec(filePaths: seq<string>, includePatterns: seq<string>, excludePatterns: seq<string>)
    ensures var filtered := PathFilters(filePaths, includePatterns, excludePatterns);
      && IsSubsequence(filtered, filePaths)
      && (forall x :: x in filtered <==>
            && x in filePaths
            && (|includePatterns| > 0 ==> MatchesAnyPattern(x, includePatterns))
            && (|excludePatterns| > 0 ==> !MatchesAnyPattern(x, excludePatterns)))
      && (|includePatterns| == 0 && |excludePatterns| == 0 ==> filtered == filePaths)
  {
    var included := if |includePatterns| > 0 then Select(filePaths, includePatterns, true) else filePaths;
    SubsequenceReflexive(filePaths);
    if |includePatterns| > 0 {
      SelectIsSubsequence(filePaths, includePatterns, true);
      forall x { SelectMembers(filePaths, includePatterns, true, x); }
    }
    if |excludePatterns| > 0 {
      SelectIsSubsequence(included, excludePatterns, false);
      SubsequenceTransitive(Select(included, excludePatterns, false), included, filePaths);
      forall x { SelectMembers(included, excludePatterns, false, x); }
    }
  }

  /** The list is copied, then narrowed by the include stage when there are
      include patterns, then by the exclude stage when there are exclude patterns. */
  method ApplyPathFilters(filePaths: seq<string>, includePatterns: seq<string>, excludePatterns: seq<string>)
    returns (filtered: seq<string>)
    ensures filtered == PathFilters(filePaths, includePatterns, excludePatterns)
    ensures IsSubsequence(filtered, filePaths)
    ensures forall x :: x in filtered <==>
      && x in filePaths
      && (|includePatterns| > 0 ==> MatchesAnyPattern(x, includePatterns))
      && (|excludePatterns| > 0 ==> !MatchesAnyPattern(x, excludePatterns))
    ensures |includePatterns| == 0 && |excludePatterns| == 0 ==> filtered == filePaths
  {
    PathFiltersSpec(filePaths, includePatterns, excludePatterns);
    filtered := filePaths;
    if |includePatterns| > 0 {
      filtered := Select(filtered, includePatterns, true);
    }
    if |excludePatterns| > 0 {
      filtered := Select(filtered, excludePatterns, false);
    }
  }

  /** Filtering an already filtered list changes nothing. */
  lemma PathFiltersIdempotent(filePaths: seq<string>, includePatterns: seq<string>, excludePatterns: seq<string>)
    ensures var once := PathFilters(filePaths, includePatterns, excludePatterns);
      PathFilters(once, includePatterns, excludePatterns) == once
  {
    if |includePatterns| > 0 && |excludePatterns| > 0 {
      var inc := Select(filePaths, includePatterns, true);
      var once := Select(inc, excludePatterns, false);
      SelectCommutes(once, includePatterns, true, excludePatterns, false);
      SelectCommutes(inc, includePatterns, true, excludePatterns, false);
      SelectIdempotent(filePaths, includePatterns, true);
      SelectIdempotent(Select(filePaths, includePatterns, true), excludePatterns, false);
    } else if |includePatterns| > 0 {
      SelectIdempotent(filePaths, includePatterns, true);
    } else if |excludePatterns| > 0 {
      SelectIdempotent(filePaths, excludePatterns, false);
    }
  }

  // ---------------------------------------------------------------------------
  // LoadIncludePatterns / LoadExcludePatterns
  // ---------------------------------------------------------------------------

  /** The FirstOrDefault lookup: the first project whose name equals the folder name, ignoring case. */
  function FindProject(projects: seq<ProjectPatternSettings>, folderName: string): (r: Option<ProjectPatternSettings>)
    ensures r.None? <==> forall k :: 0 <= k < |projects| ==> !EqualsIgnoreCase(projects[k].name, folderName)
    ensures r.Some? ==> exists k :: && 0 <= k < |projects| && projects[k] == r.value
                                    && EqualsIgnoreCase(projects[k].name, folderName)
                                    && forall j :: 0 <= j < k ==> !EqualsIgnoreCase(projects[j].name, folderName)
  {
    if projects == [] then None
    else if EqualsIgnoreCase(projects[0].name, folderName) then Some(projects[0])
    else
      var r := FindProject(projects[1..], folderName);
      if r.Some? then
        var k :| && 0 <= k < |projects[1..]| && projects[1..][k] == r.value
                 && EqualsIgnoreCase(projects[1..][k].name, folderName)
                 && forall j :: 0 <= j < k ==> !EqualsIgnoreCase(projects[1..][j].name, folderName);
        assert projects[k + 1] == r.value;
        r
      else
        r
  }

  function LoadIncludePatterns(settings: ProjectSettings, projectFolderName: string): seq<string>
  {
    match FindProject(settings.projects, projectFolderName)
    case Some(project) => project.onlyIncludePatterns
    case None => []
  }

  function LoadExcludePatterns(settings: ProjectSettings, projectFolderName: string): seq<string>
  {
    match FindProject(settings.projects, projectFolderName)
    case Some(project) => project.alsoExcludePatterns
    case None => []
  }

  /** Both loaders answer with the lists of the first project whose name
      matches, ignoring case, and with empty lists when none does. */
  lemma LoadPatternsOfFirstMatch(settings: ProjectSettings, projectFolderName: string, k: int)
    requires 0 <= k < |settings.projects| && EqualsIgnoreCase(settings.projects[k].name, projectFolderName)
    requires forall j :: 0 <= j < k ==> !EqualsIgnoreCase(settings.projects[j].name, projectFolderName)
    ensures LoadIncludePatterns(settings, projectFolderName) == settings.projects[k].onlyIncludePatterns
    ensures LoadExcludePatterns(settings, projectFolderName) == settings.projects[k].alsoExcludePatterns
  {
    var r := FindProject(settings.projects, projectFolderName);
    var i :| && 0 <= i < |settings.projects| && settings.projects[i] == r.value
             && EqualsIgnoreCase(settings.projects[i].name, projectFolderName)
             && forall j :: 0 <= j < i ==> !EqualsIgnoreCase(settings.projects[j].name, projectFolderName);
    assert i == k;
  }

  lemma LoadPatternsWithoutMatch(settings: ProjectSettings, projectFolderName: string)
    requires forall j :: 0 <= j < |settings.projects| ==> !EqualsIgnoreCase(settings.projects[j].name, projectFolderName)
    ensures LoadIncludePatterns(settings, projectFolderName) == []
    ensures LoadExcludePatterns(settings, projectFolderName) == []
  {
  }
}
