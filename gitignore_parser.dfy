/**
 * GitIgnoreParser: the older, first-match ignore test. Four branches are
 * tried in order (directory prefix, extension, exact text, '*' wildcard),
 * the first applicable one decides, and there is no negation.
 */
module GitIgnoreParser {
  import opened Text

  /** String.TrimEnd('/'): every trailing '/' removed. */
  function TrimTrailingSlashes(s: string): (r: string)
    ensures |r| <= |s| && r == s[..|r|]
    ensures r == [] || r[|r| - 1] != '/'
    ensures forall i :: |r| <= i < |s| ==> s[i] == '/'
  {
    if s != [] && s[|s| - 1] == '/' then TrimTrailingSlashes(s[..|s| - 1]) else s
  }

  /** The expression "^" + escaped pattern with each '*' turned into ".*" + "$",
      ignoring case, up to the anchor: '*' matches any run of characters
      other than a line break ('.' does not match '\n'), '/' included, and
      every other character (also '?') stands for itself. */
  predicate WildcardMatch(p: string, s: string)
    decreases |p| + |s|
  {
    if p == [] then s == []
    else if p[0] == '*' then WildcardMatch(p[1..], s) || (s != [] && s[0] != '\n' && WildcardMatch(p, s[1..]))
    else s != [] && Lower(p[0]) == Lower(s[0]) && WildcardMatch(p[1..], s[1..])
  }

  /** '$' matches at the end and also just before a final line break. */
  predicate AnchoredMatch(p: string, s: string)
  {
    WildcardMatch(p, s) || (s != [] && s[|s| - 1] == '\n' && WildcardMatch(p, s[..|s| - 1]))
  }

  predicate PatternMatches(relativePath: string, pattern: string)
  {
    if EndsWith(pattern, "/") then
      StartsWith(relativePath, TrimTrailingSlashes(pattern))
    else if StartsWith(pattern, "*.") then
      EqualsIgnoreCase(Extension(relativePath), pattern[1..])
    else if '*' !in pattern then
      EqualsIgnoreCase(relativePath, pattern)
    else
      AnchoredMatch(pattern, relativePath)
  }

  /** The foreach with early return: some pattern matches. */
  predicate IsIgnored(relativePath: string, patterns: seq<string>)
    ensures IsIgnored(relativePath, patterns) <==> exists p <- patterns :: PatternMatches(relativePath, p)
  {
    if patterns == [] then false
    else PatternMatches(relativePath, patterns[0]) || IsIgnored(relativePath, patterns[1..])
  }

  // ---------------------------------------------------------------------------
  // The wildcard branch
  // ---------------------------------------------------------------------------

  /** Without '*', the wildcard expression is plain case-insensitive equality,
      so the exact-text branch agrees with the wildcard branch it shortcuts. */
  lemma {:induction false} WildcardWithoutStar(p: string, s: string)
    requires '*' !in p
    ensures WildcardMatch(p, s) <==> EqualsIgnoreCase(p, s)
    decreases |p| + |s|
  {
    if p != [] && s != [] {
      WildcardWithoutStar(p[1..], s[1..]);
      if EqualsIgnoreCase(p[1..], s[1..]) && Lower(p[0]) == Lower(s[0]) {
        forall i | 0 <= i < |p| ensures Lower(p[i]) == Lower(s[i]) {
          if i > 0 {
            assert p[i] == p[1..][i - 1] && s[i] == s[1..][i - 1];
          }
        }
      }
      if EqualsIgnoreCase(p, s) {
        assert Lower(p[0]) == Lower(s[0]);
        forall i | 0 <= i < |p| - 1 ensures Lower(p[1..][i]) == Lower(s[1..][i]) {
          assert p[1..][i] == p[i + 1] && s[1..][i] == s[i + 1];
        }
      }
    }
  }

  /** A '*' absorbs any text without a line break, separators included. */
  lemma {:induction false} StarAbsorbs(rest: string, mid: string, s: string)
    requires WildcardMatch(rest, s) && '\n' !in mid
    ensures WildcardMatch("*" + rest, mid + s)
    decreases |mid|
  {
    var p := "*" + rest;
    assert p[0] == '*' && p[1..] == rest;
    if mid != [] {
      assert mid[0] in mid;
      assert '\n' !in mid[1..] by {
        assert forall k :: 0 <= k < |mid| - 1 ==> mid[1..][k] == mid[k + 1];
      }
      StarAbsorbs(rest, mid[1..], s);
      assert (mid + s)[1..] == mid[1..] + s;
    } else {
      assert mid + s == s;
    }
  }

  /** a, then '*', then b (no other '*') matches a, any text without a line
      break, then b: the wildcard may cross '/'. */
  lemma {:induction false} WildcardSpansSegments(a: string, b: string, mid: string)
    requires '*' !in a && '*' !in b && '\n' !in mid
    ensures WildcardMatch(a + "*" + b, a + mid + b)
    decreases |a|
  {
    if a == [] {
      EqualsIgnoreCaseReflexive(b);
      WildcardWithoutStar(b, b);
      StarAbsorbs(b, mid, b);
      assert a + "*" + b == "*" + b && a + mid + b == mid + b;
    } else {
      assert '*' !in a[1..] by {
        assert forall k :: 0 <= k < |a| - 1 ==> a[1..][k] == a[k + 1];
      }
      WildcardSpansSegments(a[1..], b, mid);
      assert (a + "*" + b)[1..] == a[1..] + "*" + b;
      assert (a + mid + b)[1..] == a[1..] + mid + b;
      assert (a + "*" + b)[0] == a[0] && (a + mid + b)[0] == a[0];
    }
  }

  /** The reading of a + "*" + b as its text says: the path starts with a
      and ends with b, ignoring case, the two do not overlap, and no line
      break lies between them. */
  predicate StarSpan(a: string, b: string, s: string)
  {
    && |s| >= |a| + |b|
    && EqualsIgnoreCase(s[..|a|], a)
    && EqualsIgnoreCase(s[|s| - |b|..], b)
    && '\n' !in s[|a|..|s| - |b|]
  }

  /** A leading '*' then b: exactly the texts ending in b with no line break before it. */
  lemma {:induction false} StarThenText(b: string, s: string)
    requires '*' !in b
    ensures WildcardMatch("*" + b, s) <==> StarSpan([], b, s)
    decreases |s|
  {
    var p := "*" + b;
    assert p[0] == '*' && p[1..] == b;
    WildcardWithoutStar(b, s);
    if |s| == |b| {
      assert s[|s| - |b|..] == s && s[0..|s| - |b|] == [];
    }
    if s != [] {
      var t := s[1..];
      StarThenText(b, t);
      if |s| > |b| {
        assert t[|t| - |b|..] == s[|s| - |b|..];
        assert s[0..|s| - |b|] == [s[0]] + t[0..|t| - |b|];
      }
    }
  }

  /** StarSpan consumes a non-empty a one character at a time. */
  lemma StarSpanCons(a: string, b: string, s: string)
    requires a != [] && s != []
    ensures StarSpan(a, b, s) <==> Lower(s[0]) == Lower(a[0]) && StarSpan(a[1..], b, s[1..])
  {
    var t := s[1..];
    if |s| >= |a| + |b| {
      var head := s[..|a|];
      assert head[0] == s[0] && head[1..] == t[..|a| - 1];
      EqualsIgnoreCaseCons(head, a);
      assert t[|t| - |b|..] == s[|s| - |b|..];
      assert t[|a| - 1..|t| - |b|] == s[|a|..|s| - |b|];
    }
  }

  /** Both directions for a single '*': a + "*" + b matches exactly the
      texts StarSpan describes. */
  lemma {:induction false} WildcardStarIff(a: string, b: string, s: string)
    requires '*' !in a && '*' !in b
    ensures WildcardMatch(a + "*" + b, s) <==> StarSpan(a, b, s)
    decreases |a|
  {
    if a == [] {
      assert a + "*" + b == "*" + b;
      StarThenText(b, s);
    } else {
      var p := a + "*" + b;
      assert a[0] in a;
      assert p[0] == a[0] && p[1..] == a[1..] + "*" + b;
      assert '*' !in a[1..] by {
        assert forall k :: 0 <= k < |a| - 1 ==> a[1..][k] == a[k + 1];
      }
      if s != [] {
        WildcardStarIff(a[1..], b, s[1..]);
        StarSpanCons(a, b, s);
      }
    }
  }

  /** a + "*" + b, with b not ending in '/' and not a "*." start, reaches the wildcard branch. */
  lemma ReachesWildcardBranch(a: string, b: string)
    requires '*' !in a
    requires b == [] || b[|b| - 1] != '/'
    requires a != [] || b == [] || b[0] != '.'
    ensures var p := a + "*" + b; !EndsWith(p, "/") && !StartsWith(p, "*.") && '*' in p
  {
    var p := a + "*" + b;
    assert p[|a|] == '*';
    assert p[|p| - 1] == if b == [] then '*' else b[|b| - 1];
    assert !EndsWith(p, "/") by {
      assert p[|p| - 1..] == [p[|p| - 1]];
    }
    if a == [] {
      assert p[0] == '*';
      if b != [] {
        assert p[1] == b[0];
      }
    } else {
      assert a[0] in a;
      assert p[0] == a[0];
    }
    assert !StartsWith(p, "*.") by {
      if |p| >= 2 {
        assert p[..2] == [p[0], p[1]];
      }
    }
  }

  /** A pattern with one '*' that is neither a directory nor a "*.ext"
      pattern matches the paths that start with a and end with b, ignoring
      case, with no line break between; a single line break at the very end
      is also accepted, since '$' matches before it. */
  lemma SingleStarPattern(a: string, b: string, s: string)
    requires '*' !in a && '*' !in b
    requires b == [] || b[|b| - 1] != '/'
    requires a != [] || b == [] || b[0] != '.'
    ensures PatternMatches(s, a + "*" + b)
        <==> StarSpan(a, b, s) || (s != [] && s[|s| - 1] == '\n' && StarSpan(a, b, s[..|s| - 1]))
  {
    ReachesWildcardBranch(a, b);
    WildcardStarIff(a, b, s);
    if s != [] {
      WildcardStarIff(a, b, s[..|s| - 1]);
    }
  }

  /** '*' stops at a line break: "a*" does not match "a\nb". */
  lemma StarStopsAtLineBreak()
    ensures !PatternMatches("a\nb", "a*")
  {
    var s := "a\nb";
    assert "a" + "*" + "" == "a*";
    SingleStarPattern("a", "", s);
    assert s[1..|s|][0] == '\n';
  }

  /** '$' accepts one final line break: "a*b" matches "axb\n". */
  lemma AnchorBeforeFinalLineBreak()
    ensures PatternMatches("axb\n", "a*b")
  {
    var s := "axb\n";
    var t := "axb";
    assert "a" + "*" + "b" == "a*b";
    SingleStarPattern("a", "b", s);
    assert s[..|s| - 1] == t;
    assert t[..1] == "a" && t[2..] == "b" && t[1..2] == "x";
  }

  // ---------------------------------------------------------------------------
  // The other branches
  // ---------------------------------------------------------------------------

  /** A pattern "dir/" is a raw, case-sensitive prefix test on dir: it
      matches everything beneath dir and also any path that merely begins
      with the letters of dir ("bin/" matches "binary.dll"). */
  lemma DirectoryPrefixCovers(dir: string, path: string)
    requires dir == [] || dir[|dir| - 1] != '/'
    ensures PatternMatches(path, dir + "/") <==> exists rest :: path == dir + rest
  {
    var p := dir + "/";
    assert EndsWith(p, "/") by { assert p[|p| - 1..] == "/"; }
    assert p[..|p| - 1] == dir;
    assert TrimTrailingSlashes(p) == dir;
    if StartsWith(path, dir) {
      assert path == dir + path[|dir|..];
    }
    if exists rest :: path == dir + rest {
      var rest :| path == dir + rest;
      assert path[..|dir|] == dir;
    }
  }

  /** "*.ext" compares extensions: it matches exactly the paths whose file
      name is some n + "." + e with e equal to ext ignoring case. */
  lemma ExtensionPatternIff(path: string, ext: string)
    requires ext != [] && '.' !in ext && '/' !in ext
    ensures PatternMatches(path, "*." + ext)
        <==> exists n, e :: FileName(path) == n + "." + e && EqualsIgnoreCase(e, ext)
  {
    var p := "*." + ext;
    assert p[..2] == "*." && p[1..] == "." + ext;
    assert ext[|ext| - 1] in ext;
    assert !EndsWith(p, "/") by { assert p[|p| - 1..] == [ext[|ext| - 1]]; }
    ExtensionIs(path, ext);
  }

  /** "*.ext" matches name.ext in any folder, in any case. */
  lemma ExtensionPatternMatches(folder: string, name: string, ext: string)
    requires folder == [] || folder[|folder| - 1] == '/'
    requires '/' !in name && '.' !in name && '/' !in ext && '.' !in ext && ext != ""
    ensures PatternMatches(folder + name + "." + ext, "*." + ext)
  {
    var p := "*." + ext;
    assert p[..2] == "*." && p[1..] == "." + ext;
    assert !EndsWith(p, "/") by { assert p[|p| - 1..] == [ext[|ext| - 1]]; }
    ExtensionOfName(folder, name, ext);
    EqualsIgnoreCaseReflexive("." + ext);
  }

  /** The extension of folder/name.ext is ".ext" when the name and the
      extension hold neither '.' nor '/'. */
  lemma ExtensionOfName(folder: string, name: string, ext: string)
    requires folder == [] || folder[|folder| - 1] == '/'
    requires '/' !in name && '.' !in name && '/' !in ext && '.' !in ext && ext != ""
    ensures Extension(folder + name + "." + ext) == "." + ext
  {
    var s := folder + name + "." + ext;
    var f := name + "." + ext;
    assert s[|folder|..] == f;
    FileNameUnique(s, |folder|);
    DotSuffixOfLastDot(name, ext);
  }
}
