/**
 * FileScanService: the enumeration partition of GetAllFilePaths and the
 * gitignore-dialect rule compiler and evaluator (ParseGitIgnoreEntries,
 * IsIgnored, MatchGitIgnorePattern, GlobToRegex, EscapeExceptGlob).
 *
 * The compiled regular expression is not modelled as text; its meaning is.
 * A rule is a glob body (literal characters, '*' and '?') inside an envelope:
 * the body may start at the beginning of the path or, unless the rule is
 * rooted, right after any '/'; it must end at the end of the path or, for a
 * directory rule, right before a '/'.
 */
module FileScan {
  import opened Text
  import opened Models

  // ---------------------------------------------------------------------------
  // GetAllFilePaths: relative paths and the .gitignore partition
  // ---------------------------------------------------------------------------

  function TrimLeadingSlashes(s: string): (r: string)
    ensures |r| <= |s| && r == s[|s| - |r|..]
    ensures r == [] || r[0] != '/'
    ensures forall i :: 0 <= i < |s| - |r| ==> s[i] == '/'
  {
    if s != [] && s[0] == '/' then TrimLeadingSlashes(s[1..]) else s
  }

  /** The relative path recorded for an enumerated file: the root prefix cut
      off, leading separators trimmed, backslashes turned into '/'. */
  function RelativePath(root: string, file: string): (r: string)
    requires |root| <= |file|
    ensures '\\' !in r
  {
    ReplaceChar(TrimLeadingSlashes(file[|root|..]), '\\', '/')
  }

  /** A file under the root, written as root, separators, then a normalised
      relative path, gets exactly that relative path back. */
  lemma RelativePathRoundTrip(root: string, separators: string, rel: string)
    requires forall i :: 0 <= i < |separators| ==> separators[i] == '/'
    requires rel == [] || rel[0] != '/'
    requires '\\' !in rel
    ensures RelativePath(root, root + separators + rel) == rel
  {
    var file := root + separators + rel;
    assert file[|root|..] == separators + rel;
    TrimOnlySeparators(separators, rel);
    assert ReplaceChar(rel, '\\', '/') == rel;
  }

  lemma {:induction false} TrimOnlySeparators(separators: string, rel: string)
    requires forall i :: 0 <= i < |separators| ==> separators[i] == '/'
    requires rel == [] || rel[0] != '/'
    ensures TrimLeadingSlashes(separators + rel) == rel
  {
    if separators != [] {
      assert (separators + rel)[1..] == separators[1..] + rel;
      TrimOnlySeparators(separators[1..], rel);
    } else {
      assert separators + rel == rel;
    }
  }

  /** Every enumerated file is at least as long as the root it was found under. */
  predicate UnderRoot(root: string, files: seq<string>)
  {
    forall k :: 0 <= k < |files| ==> |root| <= |files[k]|
  }

  /** Path.GetFileName(file) equals ".gitignore" ignoring case. */
  predicate IsGitIgnoreFile(file: string)
  {
    EqualsIgnoreCase(FileName(file), ".gitignore")
  }

  /** The relative path of each enumerated file. */
  function RelativePaths(root: string, files: seq<string>): (rels: seq<string>)
    requires UnderRoot(root, files)
    ensures |rels| == |files|
    ensures forall k :: 0 <= k < |files| ==> rels[k] == RelativePath(root, files[k])
  {
    seq(|files|, k requires 0 <= k < |files| => RelativePath(root, files[k]))
  }

  /** Whether each enumerated file is a .gitignore file. */
  function Kinds(files: seq<string>): (kinds: seq<bool>)
    ensures |kinds| == |files|
    ensures forall k :: 0 <= k < |files| ==> kinds[k] == IsGitIgnoreFile(files[k])
  {
    seq(|files|, k requires 0 <= k < |files| => IsGitIgnoreFile(files[k]))
  }

  /** The entries of rels, in order, whose kind is `kind`. */
  function Pick(rels: seq<string>, kinds: seq<bool>, kind: bool): seq<string>
    requires |rels| == |kinds|
  {
    if rels == [] then []
    else
      var n := |rels| - 1;
      Pick(rels[..n], kinds[..n], kind) + (if kinds[n] == kind then [rels[n]] else [])
  }

  /** The relative paths, in enumeration order, of the files that are
      .gitignore files (gitIgnore = true) or are not (gitIgnore = false). */
  function Relativized(root: string, files: seq<string>, gitIgnore: bool): seq<string>
    requires UnderRoot(root, files)
  {
    Pick(RelativePaths(root, files), Kinds(files), gitIgnore)
  }

  lemma {:induction false} PickPartition(rels: seq<string>, kinds: seq<bool>)
    requires |rels| == |kinds|
    ensures |Pick(rels, kinds, true)| + |Pick(rels, kinds, false)| == |rels|
  {
    if rels != [] {
      PickPartition(rels[..|rels| - 1], kinds[..|rels| - 1]);
    }
  }

  lemma {:induction false} PickMembers(rels: seq<string>, kinds: seq<bool>, kind: bool, x: string)
    requires |rels| == |kinds|
    ensures x in Pick(rels, kinds, kind) <==> exists k :: 0 <= k < |rels| && kinds[k] == kind && rels[k] == x
  {
    if rels != [] {
      var n := |rels| - 1;
      PickMembers(rels[..n], kinds[..n], kind, x);
      if x in Pick(rels[..n], kinds[..n], kind) {
        var k :| 0 <= k < n && kinds[..n][k] == kind && rels[..n][k] == x;
        assert kinds[k] == kind && rels[k] == x;
      }
      if exists k :: 0 <= k < |rels| && kinds[k] == kind && rels[k] == x {
        var k :| 0 <= k < |rels| && kinds[k] == kind && rels[k] == x;
        if k < n {
          assert kinds[..n][k] == kind && rels[..n][k] == x;
        }
      }
    }
  }

  /** One more file: it goes to the end of the list of its kind. */
  lemma PickStep(rels: seq<string>, kinds: seq<bool>, kind: bool, i: int)
    requires |rels| == |kinds| && 0 <= i < |rels|
    ensures Pick(rels[..i + 1], kinds[..i + 1], kind)
         == Pick(rels[..i], kinds[..i], kind) + (if kinds[i] == kind then [rels[i]] else [])
  {
    assert rels[..i + 1][..i] == rels[..i];
    assert kinds[..i + 1][..i] == kinds[..i];
  }

  /** Every enumerated file lands in exactly one of the two lists. */
  lemma PartitionIsExact(root: string, files: seq<string>)
    requires UnderRoot(root, files)
    ensures |Relativized(root, files, true)| + |Relativized(root, files, false)| == |files|
  {
    PickPartition(RelativePaths(root, files), Kinds(files));
  }

  /** A path is in a list exactly when a file of that kind has it as relative path. */
  lemma RelativizedMembers(root: string, files: seq<string>, gitIgnore: bool, x: string)
    requires UnderRoot(root, files)
    ensures x in Relativized(root, files, gitIgnore)
        <==> exists k :: 0 <= k < |files| && IsGitIgnoreFile(files[k]) == gitIgnore && RelativePath(root, files[k]) == x
  {
    PickMembers(RelativePaths(root, files), Kinds(files), gitIgnore, x);
  }

  /** Relative paths always use '/' as separator. */
  lemma RelativizedHasNoBackslash(root: string, files: seq<string>, gitIgnore: bool)
    requires UnderRoot(root, files)
    ensures forall p <- Relativized(root, files, gitIgnore) :: '\\' !in p
  {
    forall p <- Relativized(root, files, gitIgnore) ensures '\\' !in p {
      RelativizedMembers(root, files, gitIgnore, p);
    }
  }

  /** GetAllFilePaths: `folderExists` stands for Directory.Exists and `files`
      for what Directory.GetFiles enumerates (full paths under the folder). */
  method GetAllFilePaths(folderPath: string, folderExists: bool, files: seq<string>)
    returns (allFiles: seq<string>, gitIgnoreFiles: seq<string>)
    requires folderExists ==> UnderRoot(folderPath, files)
    ensures !folderExists ==> allFiles == [] && gitIgnoreFiles == []
    ensures folderExists ==> allFiles == Relativized(folderPath, files, false)
    ensures folderExists ==> gitIgnoreFiles == Relativized(folderPath, files, true)
    ensures forall p <- allFiles + gitIgnoreFiles :: '\\' !in p
  {
    allFiles, gitIgnoreFiles := [], [];
    if !folderExists {
      return;
    }
    ghost var rels := RelativePaths(folderPath, files);
    ghost var kinds := Kinds(files);
    var i := 0;
    while i < |files|
      invariant 0 <= i <= |files|
      invariant allFiles == Pick(rels[..i], kinds[..i], false)
      invariant gitIgnoreFiles == Pick(rels[..i], kinds[..i], true)
    {
      PickStep(rels, kinds, false, i);
      PickStep(rels, kinds, true, i);
      var relativePath := RelativePath(folderPath, files[i]);
      if IsGitIgnoreFile(files[i]) {
        gitIgnoreFiles := gitIgnoreFiles + [relativePath];
      } else {
        allFiles := allFiles + [relativePath];
      }
      i := i + 1;
    }
    assert rels[..|files|] == rels && kinds[..|files|] == kinds;
    RelativizedHasNoBackslash(folderPath, files, false);
    RelativizedHasNoBackslash(folderPath, files, true);
  }

  // ---------------------------------------------------------------------------
  // ParseGitIgnoreEntries
  // ---------------------------------------------------------------------------

  /** The line an entry was read from. */
  function EntryLine(e: GitIgnoreEntry): string
  {
    (if e.isNegative then "!" else "") + e.pattern
  }

  /** One line: a leading '!' makes a negative entry and is removed. */
  function ParseEntry(line: string): (e: GitIgnoreEntry)
    ensures e.isNegative <==> StartsWith(line, "!")
    ensures EntryLine(e) == line
  {
    if StartsWith(line, "!") then GitIgnoreEntry(true, line[1..]) else GitIgnoreEntry(false, line)
  }

  method ParseGitIgnoreEntries(lines: seq<string>) returns (entries: seq<GitIgnoreEntry>)
    ensures |entries| == |lines|
    ensures forall i :: 0 <= i < |lines| ==> entries[i] == ParseEntry(lines[i])
  {
    entries := [];
    for i := 0 to |lines|
      invariant |entries| == i
      invariant forall k :: 0 <= k < i ==> entries[k] == ParseEntry(lines[k])
    {
      var line := lines[i];
      if StartsWith(line, "!") {
        entries := entries + [GitIgnoreEntry(true, line[1..])];
      } else {
        entries := entries + [GitIgnoreEntry(false, line)];
      }
    }
  }

  /** The entries ParseGitIgnoreEntries builds, as a value. */
  function ParsedEntries(lines: seq<string>): (entries: seq<GitIgnoreEntry>)
    ensures |entries| == |lines|
    ensures forall i :: 0 <= i < |lines| ==> entries[i] == ParseEntry(lines[i])
  {
    if lines == [] then [] else [ParseEntry(lines[0])] + ParsedEntries(lines[1..])
  }

  // ---------------------------------------------------------------------------
  // EscapeExceptGlob
  // ---------------------------------------------------------------------------

  /** The characters EscapeExceptGlob puts a backslash before. */
  predicate NeedsEscape(c: char)
  {
    c in ".^$+=:{}()|\\"
  }

  function EscapeChar(c: char): string
  {
    if NeedsEscape(c) then ['\\', c] else [c]
  }

  function Escaped(pattern: string): string
  {
    if pattern == [] then [] else EscapeChar(pattern[0]) + Escaped(pattern[1..])
  }

  function EscapeCount(pattern: string): nat
  {
    if pattern == [] then 0 else (if NeedsEscape(pattern[0]) then 1 else 0) + EscapeCount(pattern[1..])
  }

  lemma {:induction false} EscapedAppend(pattern: string, c: char)
    ensures Escaped(pattern + [c]) == Escaped(pattern) + EscapeChar(c)
  {
    if pattern != [] {
      assert (pattern + [c])[1..] == pattern[1..] + [c];
      EscapedAppend(pattern[1..], c);
    } else {
      assert Escaped([c]) == EscapeChar(c) + Escaped([]);
    }
  }

  method EscapeExceptGlob(pattern: string) returns (escaped: string)
    ensures escaped == Escaped(pattern)
  {
    escaped := "";
    for i := 0 to |pattern|
      invariant escaped == Escaped(pattern[..i])
    {
      var ch := pattern[i];
      assert pattern[..i + 1] == pattern[..i] + [ch];
      EscapedAppend(pattern[..i], ch);
      if NeedsEscape(ch) {
        escaped := escaped + ['\\', ch];
      } else {
        escaped := escaped + [ch];
      }
    }
    assert pattern[..|pattern|] == pattern;
  }

  /** Escaping adds exactly one character per escaped character. */
  lemma {:induction false} EscapedLength(pattern: string)
    ensures |Escaped(pattern)| == |pattern| + EscapeCount(pattern)
  {
    if pattern != [] {
      EscapedLength(pattern[1..]);
    }
  }

  // ---------------------------------------------------------------------------
  // GlobToRegex: the glob body as tokens, and what they match
  // ---------------------------------------------------------------------------

  /** '*' becomes "[^/]*", '?' becomes "[^/]", every other character is literal. */
  datatype Token = Lit(c: char) | Star | One

  function TokenOf(c: char): Token
  {
    if c == '*' then Star else if c == '?' then One else Lit(c)
  }

  function Tokens(body: string): (ts: seq<Token>)
    ensures |ts| == |body|
  {
    if body == [] then [] else [TokenOf(body[0])] + Tokens(body[1..])
  }

  /** How the regular expression engine reads escaped glob text: "\c" is the
      literal c, '*' and '?' are the wildcards they are replaced by. */
  function ReadEscaped(e: string): seq<Token>
  {
    if e == [] then []
    else if e[0] == '\\' && |e| >= 2 then [Lit(e[1])] + ReadEscaped(e[2..])
    else [TokenOf(e[0])] + ReadEscaped(e[1..])
  }

  /** Escaping loses nothing: the escaped text denotes exactly the glob's
      tokens, so every escaped metacharacter is matched literally. */
  lemma {:induction false} ReadEscapedInverts(pattern: string)
    ensures ReadEscaped(Escaped(pattern)) == Tokens(pattern)
  {
    if pattern != [] {
      var c := pattern[0];
      ReadEscapedInverts(pattern[1..]);
      if NeedsEscape(c) {
        assert (EscapeChar(c) + Escaped(pattern[1..]))[2..] == Escaped(pattern[1..]);
      } else {
        assert (EscapeChar(c) + Escaped(pattern[1..]))[1..] == Escaped(pattern[1..]);
      }
    }
  }

  /** Case-insensitive glob match: a wildcard never matches '/'. */
  predicate GlobMatch(ts: seq<Token>, s: string)
    decreases |ts| + |s|
  {
    if ts == [] then s == []
    else match ts[0]
      case Star => GlobMatch(ts[1..], s) || (s != [] && s[0] != '/' && GlobMatch(ts, s[1..]))
      case One => s != [] && s[0] != '/' && GlobMatch(ts[1..], s[1..])
      case Lit(c) => s != [] && Lower(s[0]) == Lower(c) && GlobMatch(ts[1..], s[1..])
  }

  function SlashCount(s: string): nat
  {
    if s == [] then 0 else (if s[0] == '/' then 1 else 0) + SlashCount(s[1..])
  }

  function LiteralSlashCount(ts: seq<Token>): nat
  {
    if ts == [] then 0 else (if ts[0] == Lit('/') then 1 else 0) + LiteralSlashCount(ts[1..])
  }

  lemma LowerIsSlash(c: char)
    ensures Lower(c) == '/' <==> c == '/'
  {
  }

  /** Wildcards never cross a segment: matched text holds exactly the
      pattern's own '/' characters. */
  lemma {:induction false} GlobKeepsSlashes(ts: seq<Token>, s: string)
    requires GlobMatch(ts, s)
    ensures SlashCount(s) == LiteralSlashCount(ts)
    decreases |ts| + |s|
  {
    if ts != [] {
      match ts[0]
      case Star =>
        if GlobMatch(ts[1..], s) {
          GlobKeepsSlashes(ts[1..], s);
        } else {
          GlobKeepsSlashes(ts, s[1..]);
        }
      case One =>
        GlobKeepsSlashes(ts[1..], s[1..]);
      case Lit(c) =>
        LowerIsSlash(c);
        LowerIsSlash(s[0]);
        GlobKeepsSlashes(ts[1..], s[1..]);
    }
  }

  lemma {:induction false} NoSlashCount(s: string)
    ensures SlashCount(s) == 0 <==> '/' !in s
  {
    if s != [] {
      NoSlashCount(s[1..]);
      assert s == [s[0]] + s[1..];
    }
  }

  lemma {:induction false} TokensSlashCount(body: string)
    ensures LiteralSlashCount(Tokens(body)) == SlashCount(body)
  {
    if body != [] {
      TokensSlashCount(body[1..]);
    }
  }

  /** A body without '/' only ever matches text without '/'. */
  lemma SlashFreeBodyMatchesSlashFreeText(body: string, s: string)
    requires '/' !in body && GlobMatch(Tokens(body), s)
    ensures '/' !in s
  {
    GlobKeepsSlashes(Tokens(body), s);
    TokensSlashCount(body);
    NoSlashCount(body);
    NoSlashCount(s);
  }

  /** '*' matches exactly the runs of characters other than '/'. */
  lemma {:induction false} StarMatchesWithinSegment(s: string)
    ensures GlobMatch([Star], s) <==> '/' !in s
  {
    if s != [] {
      StarMatchesWithinSegment(s[1..]);
      assert s == [s[0]] + s[1..];
      assert [Star][1..] == [];
    } else {
      assert [Star][1..] == [];
    }
  }

  /** '?' matches exactly one character other than '/'. */
  lemma QuestionMarkMatchesOneCharacter(s: string)
    ensures GlobMatch([One], s) <==> |s| == 1 && s[0] != '/'
  {
    assert [One][1..] == [];
  }

  /** Without wildcards a body matches exactly the texts equal to it ignoring case. */
  lemma {:induction false} LiteralGlob(body: string, s: string)
    requires '*' !in body && '?' !in body
    ensures GlobMatch(Tokens(body), s) <==> EqualsIgnoreCase(s, body)
  {
    if body != [] && s != [] {
      assert '*' !in body[1..] && '?' !in body[1..] by {
        assert forall k :: 0 <= k < |body| - 1 ==> body[1..][k] == body[k + 1];
      }
      LiteralGlob(body[1..], s[1..]);
      if EqualsIgnoreCase(s, body) {
        assert forall k :: 0 <= k < |s| - 1 ==> Lower(s[1..][k]) == Lower(body[1..][k]) by {
          forall k | 0 <= k < |s| - 1 ensures Lower(s[1..][k]) == Lower(body[1..][k]) {
            assert s[1..][k] == s[k + 1] && body[1..][k] == body[k + 1];
          }
        }
      }
      if EqualsIgnoreCase(s[1..], body[1..]) && Lower(s[0]) == Lower(body[0]) {
        forall k | 0 <= k < |s| ensures Lower(s[k]) == Lower(body[k]) {
          if k > 0 {
            assert s[1..][k - 1] == s[k] && body[1..][k - 1] == body[k];
          }
        }
      }
    }
  }

  lemma LowerIdempotent(c: char)
    ensures Lower(Lower(c)) == Lower(c)
  {
  }

  /** Matching ignores the case of the text. */
  lemma {:induction false} GlobIgnoresCase(ts: seq<Token>, s: string)
    ensures GlobMatch(ts, s) <==> GlobMatch(ts, LowerAll(s))
    decreases |ts| + |s|
  {
    if s != [] {
      assert LowerAll(s)[1..] == LowerAll(s[1..]);
      LowerIdempotent(s[0]);
      LowerIsSlash(s[0]);
    }
    if ts != [] {
      match ts[0]
      case Star =>
        GlobIgnoresCase(ts[1..], s);
        if s != [] {
          GlobIgnoresCase(ts, s[1..]);
        }
      case One =>
        if s != [] {
          GlobIgnoresCase(ts[1..], s[1..]);
        }
      case Lit(c) =>
        if s != [] {
          GlobIgnoresCase(ts[1..], s[1..]);
        }
    }
  }

  // ---------------------------------------------------------------------------
  // MatchGitIgnorePattern
  // ---------------------------------------------------------------------------

  /** '.' in the generated expression does not match a line break, and '$'
      also matches before a final one: paths are taken without line breaks. */
  predicate SupportedPath(path: string)
  {
    '\n' !in path
  }

  /** '[' is not escaped and would open a character class (or make the
      expression invalid): patterns are taken without it. */
  predicate SupportedPattern(pattern: string)
  {
    '[' !in pattern
  }

  /** A pattern split into its anchoring flag, directory flag and glob body. */
  datatype Rule = Rule(rooted: bool, directory: bool, body: string)

  function RuleText(r: Rule): string
  {
    (if r.rooted then "/" else "") + r.body + (if r.directory then "/" else "")
  }

  /** A leading '/' is stripped and roots the rule; then a trailing '/' is
      stripped and makes it a directory rule. */
  function CompileRule(pattern: string): (r: Rule)
    ensures r.rooted <==> StartsWith(pattern, "/")
    ensures r.directory <==> EndsWith(pattern, "/") && pattern != "/"
    ensures RuleText(r) == pattern
  {
    var rooted := StartsWith(pattern, "/");
    var rest := if rooted then pattern[1..] else pattern;
    var directory := EndsWith(rest, "/");
    var body := if directory then rest[..|rest| - 1] else rest;
    assert rooted ==> pattern == "/" + rest;
    assert directory ==> rest == body + "/";
    Rule(rooted, directory, body)
  }

  /** The match may start at the path's start or, for an unrooted rule, right after a '/'. */
  predicate MatchStart(r: Rule, path: string, i: int)
    requires 0 <= i <= |path|
  {
    i == 0 || (!r.rooted && path[i - 1] == '/')
  }

  /** The match must end the path or, for a directory rule, be followed by '/'. */
  predicate MatchEnd(r: Rule, path: string, j: int)
    requires 0 <= j <= |path|
  {
    j == |path| || (r.directory && path[j] == '/')
  }

  /** The body matches path[i..j], which starts and ends where the rule allows. */
  predicate Envelope(r: Rule, path: string, i: int, j: int)
  {
    && 0 <= i <= j <= |path|
    && MatchStart(r, path, i)
    && MatchEnd(r, path, j)
    && GlobMatch(Tokens(r.body), path[i..j])
  }

  /** Some end j' >= j at which the body, started at i, can stop. */
  predicate EndsFrom(r: Rule, path: string, i: nat, j: nat)
    requires i <= j <= |path|
    decreases |path| - j
  {
    (MatchEnd(r, path, j) && GlobMatch(Tokens(r.body), path[i..j]))
    || (j < |path| && EndsFrom(r, path, i, j + 1))
  }

  /** Some start i' >= i at which the rule matches. */
  predicate MatchesFrom(r: Rule, path: string, i: nat)
    requires i <= |path|
    decreases |path| - i
  {
    (MatchStart(r, path, i) && EndsFrom(r, path, i, i))
    || (i < |path| && MatchesFrom(r, path, i + 1))
  }

  /** Regex.IsMatch of the compiled expression, ignoring case. */
  predicate MatchGitIgnorePattern(path: string, pattern: string)
    requires SupportedPath(path) && SupportedPattern(pattern)
  {
    MatchesFrom(CompileRule(pattern), path, 0)
  }

  lemma {:induction false} EndsFromIff(r: Rule, path: string, i: nat, j: nat)
    requires i <= j <= |path| && MatchStart(r, path, i)
    ensures EndsFrom(r, path, i, j) <==> exists e :: j <= e && Envelope(r, path, i, e)
    decreases |path| - j
  {
    if j < |path| {
      EndsFromIff(r, path, i, j + 1);
    }
    if MatchEnd(r, path, j) && GlobMatch(Tokens(r.body), path[i..j]) {
      assert Envelope(r, path, i, j);
    }
    if exists e :: j <= e && Envelope(r, path, i, e) {
      var e :| j <= e && Envelope(r, path, i, e);
      if e > j {
        assert j + 1 <= e;
      }
    }
  }

  lemma {:induction false} MatchesFromIff(r: Rule, path: string, i: nat)
    requires i <= |path|
    ensures MatchesFrom(r, path, i) <==> exists s, e :: i <= s && Envelope(r, path, s, e)
    decreases |path| - i
  {
    if MatchStart(r, path, i) {
      EndsFromIff(r, path, i, i);
    }
    if i < |path| {
      MatchesFromIff(r, path, i + 1);
    }
    if exists s, e :: i <= s && Envelope(r, path, s, e) {
      var s, e :| i <= s && Envelope(r, path, s, e);
      if s == i {
        assert EndsFrom(r, path, i, i);
      } else {
        assert i + 1 <= s;
      }
    }
  }

  /** The search agrees with the envelope: the rule matches exactly when some
      start and end the rule allows enclose text the body matches. */
  lemma MatchEnvelope(path: string, pattern: string)
    requires SupportedPath(path) && SupportedPattern(pattern)
    ensures MatchGitIgnorePattern(path, pattern)
        <==> exists i, j :: Envelope(CompileRule(pattern), path, i, j)
  {
    MatchesFromIff(CompileRule(pattern), path, 0);
  }

  /** A pattern with no '/' at all matches exactly the paths whose file name
      its glob matches: it must reach the end of the path. */
  lemma FilePatternMatchesFileName(path: string, pattern: string)
    requires SupportedPath(path) && SupportedPattern(pattern) && '/' !in pattern
    ensures MatchGitIgnorePattern(path, pattern) <==> GlobMatch(Tokens(pattern), FileName(path))
  {
    var r := CompileRule(pattern);
    assert !r.rooted && !r.directory && r.body == pattern;
    MatchEnvelope(path, pattern);
    FileNameSuffix(path);
    var k := |path| - |FileName(path)|;
    if MatchGitIgnorePattern(path, pattern) {
      var i, j :| Envelope(r, path, i, j);
      SlashFreeBodyMatchesSlashFreeText(pattern, path[i..j]);
      assert path[i..j] == path[i..];
      FileNameUnique(path, i);
    }
    if GlobMatch(Tokens(pattern), FileName(path)) {
      assert path[k..|path|] == FileName(path);
      assert Envelope(r, path, k, |path|);
    }
  }

  /** Adding a trailing '/' to a name only sets the directory flag. */
  lemma CompileDirectory(name: string)
    requires name != "" && !EndsWith(name, "/")
    ensures CompileRule(name + "/") == Rule(CompileRule(name).rooted, true, CompileRule(name).body)
  {
    var p := name + "/";
    assert p != "/";
    assert p[..1] == name[..1];
    if StartsWith(name, "/") {
      assert p[1..] == name[1..] + "/";
      assert (name[1..] + "/")[..|name| - 1] == name[1..];
    } else {
      assert p[..|p| - 1] == name;
    }
  }

  /** Adding a trailing '/' to a pattern keeps every path it matched. */
  lemma DirectoryRuleMatchesEntry(path: string, name: string)
    requires SupportedPath(path) && SupportedPattern(name)
    requires name != "" && !EndsWith(name, "/")
    requires MatchGitIgnorePattern(path, name)
    ensures SupportedPattern(name + "/") && MatchGitIgnorePattern(path, name + "/")
  {
    var r := CompileRule(name);
    var d := CompileRule(name + "/");
    CompileDirectory(name);
    MatchEnvelope(path, name);
    MatchEnvelope(path, name + "/");
    var i, j :| Envelope(r, path, i, j);
    assert Envelope(d, path, i, j);
  }

  /** A directory rule that matches a path also matches everything beneath it. */
  lemma DirectoryRuleCoversContents(path: string, pattern: string, rest: string)
    requires SupportedPath(path) && SupportedPath(path + "/" + rest) && SupportedPattern(pattern)
    requires EndsWith(pattern, "/") && pattern != "/"
    requires MatchGitIgnorePattern(path, pattern)
    ensures MatchGitIgnorePattern(path + "/" + rest, pattern)
  {
    var d := CompileRule(pattern);
    MatchEnvelope(path, pattern);
    MatchEnvelope(path + "/" + rest, pattern);
    var i, j :| Envelope(d, path, i, j);
    EnvelopeExtends(d, path, rest, i, j);
  }

  lemma EnvelopeExtends(r: Rule, path: string, rest: string, i: int, j: int)
    requires r.directory && Envelope(r, path, i, j)
    ensures Envelope(r, path + "/" + rest, i, j)
  {
    var longer := path + "/" + rest;
    assert longer[i..j] == path[i..j];
    if i > 0 {
      assert longer[i - 1] == path[i - 1];
    }
    if j < |path| {
      assert longer[j] == path[j];
    } else {
      assert longer[j] == '/';
    }
  }

  /** Putting a directory in front of the path moves an unrooted match along. */
  lemma EnvelopeShift(r: Rule, dir: string, path: string, i: int, j: int)
    requires !r.rooted && Envelope(r, path, i, j)
    ensures Envelope(r, dir + "/" + path, |dir| + 1 + i, |dir| + 1 + j)
  {
    var deeper := dir + "/" + path;
    var n := |dir| + 1;
    assert deeper[n + i..n + j] == path[i..j];
    if i == 0 {
      assert deeper[n - 1] == '/';
    } else {
      assert deeper[n + i - 1] == path[i - 1];
    }
    if j < |path| {
      assert deeper[n + j] == path[j];
    }
  }

  /** An unrooted rule that matches a path matches it at any depth. */
  lemma UnrootedMatchesAtAnyDepth(dir: string, path: string, pattern: string)
    requires SupportedPath(dir + "/" + path) && SupportedPattern(pattern)
    requires !StartsWith(pattern, "/")
    requires SupportedPath(path) && MatchGitIgnorePattern(path, pattern)
    ensures MatchGitIgnorePattern(dir + "/" + path, pattern)
  {
    var r := CompileRule(pattern);
    MatchEnvelope(path, pattern);
    MatchEnvelope(dir + "/" + path, pattern);
    var i, j :| Envelope(r, path, i, j);
    EnvelopeShift(r, dir, path, i, j);
  }

  /** A rooted rule matches only where its unrooted form does. */
  lemma RootedMatchIsUnrootedMatch(path: string, pattern: string)
    requires SupportedPath(path) && SupportedPattern("/" + pattern)
    requires !StartsWith(pattern, "/")
    requires MatchGitIgnorePattern(path, "/" + pattern)
    ensures SupportedPattern(pattern) && MatchGitIgnorePattern(path, pattern)
  {
    assert ("/" + pattern)[1..] == pattern;
    var r := CompileRule("/" + pattern);
    var u := CompileRule(pattern);
    assert u == Rule(false, r.directory, r.body);
    MatchEnvelope(path, "/" + pattern);
    MatchEnvelope(path, pattern);
    var i, j :| Envelope(r, path, i, j);
    assert Envelope(u, path, i, j);
  }

  /** Matching ignores the case of the path. */
  /** Lower-casing keeps a path free of newlines. */
  lemma LowerKeepsSupported(path: string)
    requires SupportedPath(path)
    ensures SupportedPath(LowerAll(path))
  {
    var lower := LowerAll(path);
    forall k | 0 <= k < |lower| ensures lower[k] != '\n' {
      assert path[k] != '\n';
    }
  }

  lemma {:induction false} LowerSlice(path: string, i: int, j: int)
    requires 0 <= i <= j <= |path|
    ensures LowerAll(path)[i..j] == LowerAll(path[i..j])
  {
    var a, b := LowerAll(path)[i..j], LowerAll(path[i..j]);
    forall k | 0 <= k < j - i ensures a[k] == b[k] {
      assert a[k] == Lower(path[i + k]);
    }
  }

  lemma BoundsIgnoreCase(r: Rule, path: string, i: int, j: int)
    requires 0 <= i <= j <= |path|
    ensures MatchStart(r, path, i) == MatchStart(r, LowerAll(path), i)
    ensures MatchEnd(r, path, j) == MatchEnd(r, LowerAll(path), j)
  {
    if i > 0 { LowerIsSlash(path[i - 1]); }
    if j < |path| { LowerIsSlash(path[j]); }
  }

  /** One candidate match of the rule: same verdict on the lower-cased path. */
  lemma EnvelopeIgnoresCase(r: Rule, path: string, i: int, j: int)
    requires 0 <= i <= j <= |path|
    ensures Envelope(r, path, i, j) <==> Envelope(r, LowerAll(path), i, j)
  {
    LowerSlice(path, i, j);
    GlobIgnoresCase(Tokens(r.body), path[i..j]);
    BoundsIgnoreCase(r, path, i, j);
  }

  lemma MatchIgnoresCase(path: string, pattern: string)
    requires SupportedPath(path) && SupportedPattern(pattern)
    ensures SupportedPath(LowerAll(path))
    ensures MatchGitIgnorePattern(path, pattern) <==> MatchGitIgnorePattern(LowerAll(path), pattern)
  {
    LowerKeepsSupported(path);
    var lower := LowerAll(path);
    var r := CompileRule(pattern);
    MatchEnvelope(path, pattern);
    MatchEnvelope(lower, pattern);
    forall i, j | 0 <= i <= j <= |path|
      ensures Envelope(r, path, i, j) <==> Envelope(r, lower, i, j)
    {
      EnvelopeIgnoresCase(r, path, i, j);
    }
  }

  // ---------------------------------------------------------------------------
  // IsIgnored: last match wins
  // ---------------------------------------------------------------------------

  predicate SupportedEntries(entries: seq<GitIgnoreEntry>)
  {
    forall e <- entries :: SupportedPattern(e.pattern)
  }

  /** Which entries' patterns match the path, in entry order. */
  function Hits(path: string, entries: seq<GitIgnoreEntry>): (hits: seq<bool>)
    requires SupportedPath(path) && SupportedEntries(entries)
    ensures |hits| == |entries|
    ensures forall k :: 0 <= k < |entries| ==> hits[k] == MatchGitIgnorePattern(path, entries[k].pattern)
  {
    seq(|entries|, k requires 0 <= k < |entries| => MatchGitIgnorePattern(path, entries[k].pattern))
  }

  /** The running flag after visiting the entries: the last entry whose
      pattern matched (hits) sets it to "not negative"; the others keep it. */
  predicate Verdict(hits: seq<bool>, entries: seq<GitIgnoreEntry>)
    requires |hits| == |entries|
  {
    if entries == [] then false
    else
      var n := |entries| - 1;
      if hits[n] then !entries[n].isNegative else Verdict(hits[..n], entries[..n])
  }

  predicate IgnoredBy(path: string, entries: seq<GitIgnoreEntry>)
    requires SupportedPath(path) && SupportedEntries(entries)
  {
    Verdict(Hits(path, entries), entries)
  }

  method IsIgnored(relativePath: string, entries: seq<GitIgnoreEntry>) returns (ignore: bool)
    requires SupportedPath(relativePath) && SupportedEntries(entries)
    ensures ignore == IgnoredBy(relativePath, entries)
  {
    ghost var hits := Hits(relativePath, entries);
    ignore := false;
    for i := 0 to |entries|
      invariant ignore == Verdict(hits[..i], entries[..i])
    {
      var matched := MatchGitIgnorePattern(relativePath, entries[i].pattern);
      if matched {
        ignore := !entries[i].isNegative;
      }
      VerdictStep(hits, entries, i, matched);
    }
    assert hits[..|entries|] == hits;
    assert entries[..|entries|] == entries;
  }

  /** One more entry: the flag is set by a hit and kept otherwise. */
  lemma VerdictStep(hits: seq<bool>, entries: seq<GitIgnoreEntry>, i: int, hit: bool)
    requires |hits| == |entries| && 0 <= i < |entries| && hits[i] == hit
    ensures Verdict(hits[..i + 1], entries[..i + 1])
         == if hit then !entries[i].isNegative else Verdict(hits[..i], entries[..i])
  {
    assert hits[..i + 1][..i] == hits[..i];
    assert entries[..i + 1][..i] == entries[..i];
  }

  /** k is the last position where hits is true. */
  predicate LastHit(hits: seq<bool>, k: int)
  {
    0 <= k < |hits| && hits[k] && forall j :: k < j < |hits| ==> !hits[j]
  }

  lemma {:induction false} LastHitDecides(hits: seq<bool>, entries: seq<GitIgnoreEntry>, k: int)
    requires |hits| == |entries| && LastHit(hits, k)
    ensures Verdict(hits, entries) == !entries[k].isNegative
    decreases |hits|
  {
    var n := |entries| - 1;
    if k < n {
      assert LastHit(hits[..n], k);
      LastHitDecides(hits[..n], entries[..n], k);
    }
  }

  lemma {:induction false} VerdictHasLastHit(hits: seq<bool>, entries: seq<GitIgnoreEntry>)
    requires |hits| == |entries| && Verdict(hits, entries)
    ensures exists k :: LastHit(hits, k) && !entries[k].isNegative
    decreases |hits|
  {
    var n := |entries| - 1;
    if hits[n] {
      assert LastHit(hits, n);
    } else {
      VerdictHasLastHit(hits[..n], entries[..n]);
      var k :| LastHit(hits[..n], k) && !entries[..n][k].isNegative;
      assert LastHit(hits, k);
    }
  }

  /** Entry k is the last one whose pattern matches the path. */
  predicate LastMatch(path: string, entries: seq<GitIgnoreEntry>, k: int)
    requires SupportedPath(path) && SupportedEntries(entries)
  {
    && 0 <= k < |entries|
    && MatchGitIgnorePattern(path, entries[k].pattern)
    && forall j :: k < j < |entries| ==> !MatchGitIgnorePattern(path, entries[j].pattern)
  }

  /** A path is ignored exactly when the last entry matching it is not
      negative; when no entry matches it is not ignored. */
  lemma LastMatchWins(path: string, entries: seq<GitIgnoreEntry>)
    requires SupportedPath(path) && SupportedEntries(entries)
    ensures IgnoredBy(path, entries) <==> exists k :: LastMatch(path, entries, k) && !entries[k].isNegative
    ensures (forall k :: 0 <= k < |entries| ==> !MatchGitIgnorePattern(path, entries[k].pattern))
            ==> !IgnoredBy(path, entries)
  {
    var hits := Hits(path, entries);
    forall k ensures LastMatch(path, entries, k) <==> LastHit(hits, k) {
    }
    if IgnoredBy(path, entries) {
      VerdictHasLastHit(hits, entries);
    }
    if exists k :: LastMatch(path, entries, k) && !entries[k].isNegative {
      var k :| LastMatch(path, entries, k) && !entries[k].isNegative;
      LastHitDecides(hits, entries, k);
    }
  }

  // ---------------------------------------------------------------------------
  // The behaviour the tests and the design describe
  // ---------------------------------------------------------------------------

  /** The entry texts of "bin/" and "!bin/SpecialFile.dll". */
  lemma ParsedExampleEntries()
    ensures ParsedEntries(["bin/", "!bin/SpecialFile.dll"])
         == [GitIgnoreEntry(false, "bin/"), GitIgnoreEntry(true, "bin/SpecialFile.dll")]
  {
    assert "bin/"[..1] != "!" by { assert "bin/"[..1][0] == 'b'; }
    assert StartsWith("!bin/SpecialFile.dll", "!");
    var e := ParsedEntries(["bin/", "!bin/SpecialFile.dll"]);
    assert e[0] == GitIgnoreEntry(false, "bin/");
    assert e[1] == GitIgnoreEntry(true, "bin/SpecialFile.dll");
  }

  /** A wildcard-free pattern without '/' matches a path no longer than itself only if it is that long. */
  lemma LiteralMatchLength(path: string, pattern: string)
    requires SupportedPath(path) && SupportedPattern(pattern)
    requires '*' !in pattern && '?' !in pattern && !StartsWith(pattern, "/") && !EndsWith(pattern, "/")
    requires |path| < |pattern|
    ensures !MatchGitIgnorePattern(path, pattern)
  {
    var r := CompileRule(pattern);
    assert r.body == pattern;
    MatchEnvelope(path, pattern);
    forall i, j | Envelope(r, path, i, j) ensures false {
      LiteralGlob(pattern, path[i..j]);
    }
  }

  /** A path segment without separators, wildcards or unsupported characters. */
  predicate PlainName(s: string)
  {
    s != "" && '/' !in s && '*' !in s && '?' !in s && '[' !in s && '\n' !in s
  }

  /** "dir/" ignores everything under the directory dir. */
  lemma DirectoryIgnoresContents(dir: string, rest: string)
    requires PlainName(dir) && SupportedPath(dir + "/" + rest)
    ensures SupportedPattern(dir + "/") && MatchGitIgnorePattern(dir + "/" + rest, dir + "/")
  {
    assert !StartsWith(dir, "/") && !EndsWith(dir, "/") by {
      assert dir[0] != '/' && dir[|dir| - 1] != '/';
    }
    LiteralMatchesItself(dir);
    DirectoryRuleMatchesEntry(dir, dir);
    DirectoryRuleCoversContents(dir, dir + "/", rest);
  }

  /** A wildcard-free pattern matches the path that is its own text. */
  lemma LiteralMatchesItself(pattern: string)
    requires SupportedPath(pattern) && SupportedPattern(pattern)
    requires '*' !in pattern && '?' !in pattern && !StartsWith(pattern, "/") && !EndsWith(pattern, "/")
    ensures MatchGitIgnorePattern(pattern, pattern)
  {
    var r := CompileRule(pattern);
    assert r == Rule(false, false, pattern);
    LiteralGlob(pattern, pattern);
    assert pattern[0..|pattern|] == pattern;
    assert Envelope(r, pattern, 0, |pattern|);
    MatchEnvelope(pattern, pattern);
  }

  /** "dir/" followed by "!dir/name", as in "bin/" then "!bin/SpecialFile.dll". */
  function DirThenNegatedFile(dir: string, name: string): seq<GitIgnoreEntry>
  {
    [GitIgnoreEntry(false, dir + "/"), GitIgnoreEntry(true, dir + "/" + name)]
  }

  lemma DirThenNegatedFileSupported(dir: string, name: string)
    requires PlainName(dir) && PlainName(name)
    ensures SupportedEntries(DirThenNegatedFile(dir, name))
  {
    PlainJoin(dir, name);
    assert SupportedPattern(dir + "/");
  }

  /** Under an ignore rule followed by a negation, the verdict on a path
      the negation matches is "not ignored"; on one only the first rule
      matches it is "ignored". */
  lemma NegationVerdicts(path: string, first: string, second: string)
    requires SupportedPath(path) && SupportedPattern(first) && SupportedPattern(second)
    ensures var entries := [GitIgnoreEntry(false, first), GitIgnoreEntry(true, second)];
      && (MatchGitIgnorePattern(path, second) ==> !IgnoredBy(path, entries))
      && (MatchGitIgnorePattern(path, first) && !MatchGitIgnorePattern(path, second) ==> IgnoredBy(path, entries))
  {
    var entries := [GitIgnoreEntry(false, first), GitIgnoreEntry(true, second)];
    assert SupportedEntries(entries);
    var hits := Hits(path, entries);
    if hits[1] {
      assert LastHit(hits, 1);
      LastHitDecides(hits, entries, 1);
    } else if hits[0] {
      assert LastHit(hits, 0);
      LastHitDecides(hits, entries, 0);
    }
  }

  /** The negated file itself is re-included: the negation is its last match. */
  lemma NegatedFileReincluded(dir: string, name: string)
    requires PlainName(dir) && PlainName(name)
    ensures SupportedEntries(DirThenNegatedFile(dir, name)) && SupportedPath(dir + "/" + name)
    ensures !IgnoredBy(dir + "/" + name, DirThenNegatedFile(dir, name))
  {
    var special := dir + "/" + name;
    DirThenNegatedFileSupported(dir, name);
    PlainJoin(dir, name);
    assert SupportedPattern(dir + "/");
    LiteralMatchesItself(special);
    NegationVerdicts(special, dir + "/", special);
  }

  /** dir/sibling of names without '/' holds its one '/' right after dir. */
  lemma OnlySlashAfterDir(dir: string, sibling: string, k: int)
    requires '/' !in dir && '/' !in sibling
    requires 0 <= k < |dir + "/" + sibling| && (dir + "/" + sibling)[k] == '/'
    ensures k == |dir|
  {
  }

  /** Where the literal dir/name matches inside dir/sibling, it covers the
      whole path, so sibling equals name ignoring case: the '/' of the
      pattern must meet the only '/' of the path. */
  lemma LiteralEnvelopeOnSibling(dir: string, name: string, sibling: string, i: int, j: int)
    requires PlainName(dir) && PlainName(name) && PlainName(sibling)
    requires Envelope(Rule(false, false, dir + "/" + name), dir + "/" + sibling, i, j)
    ensures EqualsIgnoreCase(sibling, name)
  {
    var special := dir + "/" + name;
    var other := dir + "/" + sibling;
    assert j == |other|;
    LiteralGlob(special, other[i..j]);
    assert Lower(other[i + |dir|]) == Lower(special[|dir|]) by {
      assert other[i..j][|dir|] == other[i + |dir|];
    }
    LowerIsSlash(other[i + |dir|]);
    OnlySlashAfterDir(dir, sibling, i + |dir|);
    forall k | 0 <= k < |sibling| ensures Lower(sibling[k]) == Lower(name[k]) {
      assert other[|dir| + 1 + k] == sibling[k] && special[|dir| + 1 + k] == name[k];
      assert other[i..j][|dir| + 1 + k] == other[|dir| + 1 + k];
    }
  }

  /** The literal dir/name matches no other file dir/sibling, longer or shorter. */
  lemma LiteralRejectsOtherSibling(dir: string, name: string, sibling: string)
    requires PlainName(dir) && PlainName(name) && PlainName(sibling)
    requires !EqualsIgnoreCase(sibling, name)
    ensures SupportedPath(dir + "/" + sibling) && SupportedPattern(dir + "/" + name)
    ensures !MatchGitIgnorePattern(dir + "/" + sibling, dir + "/" + name)
  {
    var special := dir + "/" + name;
    var other := dir + "/" + sibling;
    PlainJoin(dir, name);
    PlainJoin(dir, sibling);
    var r := CompileRule(special);
    assert r == Rule(false, false, special);
    MatchEnvelope(other, special);
    forall i, j | Envelope(r, other, i, j) ensures false {
      LiteralEnvelopeOnSibling(dir, name, sibling, i, j);
    }
  }

  /** Any other file in the directory stays ignored: only "dir/" matches it. */
  lemma SiblingStaysIgnored(dir: string, name: string, sibling: string)
    requires PlainName(dir) && PlainName(name) && PlainName(sibling) && !EqualsIgnoreCase(sibling, name)
    ensures SupportedEntries(DirThenNegatedFile(dir, name)) && SupportedPath(dir + "/" + sibling)
    ensures IgnoredBy(dir + "/" + sibling, DirThenNegatedFile(dir, name))
  {
    var special := dir + "/" + name;
    var other := dir + "/" + sibling;
    DirThenNegatedFileSupported(dir, name);
    PlainJoin(dir, name);
    PlainJoin(dir, sibling);
    DirectoryIgnoresContents(dir, sibling);
    LiteralRejectsOtherSibling(dir, name, sibling);
    NegationVerdicts(other, dir + "/", special);
  }

  /** dir/name carries no wildcard or unsupported character and neither starts nor ends with '/'. */
  lemma PlainJoin(dir: string, name: string)
    requires PlainName(dir) && PlainName(name)
    ensures var p := dir + "/" + name;
      && SupportedPath(p) && SupportedPattern(p) && '*' !in p && '?' !in p
      && !StartsWith(p, "/") && !EndsWith(p, "/")
  {
    var p := dir + "/" + name;
    assert p[0] == dir[0] && p[|p| - 1] == name[|name| - 1];
    assert p[..1] == [p[0]] && p[|p| - 1..] == [p[|p| - 1]];
  }

  /** "name" matches dir/name at any depth but not name/rest, which it does
      not end; "/name" matches neither, being rooted (as "build" and "/build"
      against "sub/build" and "build/x.txt"). */
  lemma AnchoringExamples(dir: string, name: string, rest: string)
    requires PlainName(dir) && PlainName(name) && PlainName(rest) && !EqualsIgnoreCase(rest, name)
    ensures SupportedPath(dir + "/" + name) && SupportedPath(name + "/" + rest)
    ensures SupportedPattern(name) && SupportedPattern("/" + name)
    ensures MatchGitIgnorePattern(dir + "/" + name, name)
    ensures !MatchGitIgnorePattern(dir + "/" + name, "/" + name)
    ensures !MatchGitIgnorePattern(name + "/" + rest, name)
    ensures !MatchGitIgnorePattern(name + "/" + rest, "/" + name)
  {
    var deep := dir + "/" + name;
    var under := name + "/" + rest;
    PlainJoin(dir, name);
    PlainJoin(name, rest);
    assert ("/" + name)[1..] == name;
    assert '[' !in "/" + name;
    assert !StartsWith(name, "/") && !EndsWith(name, "/") by {
      assert name[0] != '/' && name[|name| - 1] != '/';
    }
    // at any depth
    LiteralMatchesItself(name);
    UnrootedMatchesAtAnyDepth(dir, name, name);
    // not rooted below the top
    if MatchGitIgnorePattern(deep, "/" + name) {
      RootedOnlyAtStart(deep, name);
    }
    // must end the path
    FileNameUnique(under, |name| + 1);
    assert under[|name| + 1..] == rest;
    LiteralGlob(name, rest);
    FilePatternMatchesFileName(under, name);
    if MatchGitIgnorePattern(under, "/" + name) {
      RootedMatchIsUnrootedMatch(under, name);
    }
  }

  /** A rooted, wildcard-free file pattern matches only the path equal to it. */
  lemma RootedOnlyAtStart(path: string, name: string)
    requires SupportedPath(path) && SupportedPattern("/" + name)
    requires '/' !in name && '*' !in name && '?' !in name
    requires MatchGitIgnorePattern(path, "/" + name)
    ensures EqualsIgnoreCase(path, name)
  {
    assert ("/" + name)[1..] == name;
    var r := CompileRule("/" + name);
    assert r == Rule(true, false, name);
    MatchEnvelope(path, "/" + name);
    var i, j :| Envelope(r, path, i, j);
    assert i == 0 && j == |path| && path[i..j] == path;
    LiteralGlob(name, path);
  }
}
