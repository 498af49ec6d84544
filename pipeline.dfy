/**
 * The stage order of the console application: the gitignore entries remove
 * the paths they ignore, then the project's include/exclude tokens filter
 * what is left.
 */
module Pipeline {
  import opened Models
  import opened FileScan
  import opened CustomFilter

  /** The paths, in order, that the entries do not ignore. */
  function NotIgnored(paths: seq<string>, entries: seq<GitIgnoreEntry>): seq<string>
    requires forall p <- paths :: SupportedPath(p)
    requires SupportedEntries(entries)
  {
    if paths == [] then []
    else (if IgnoredBy(paths[0], entries) then [] else [paths[0]]) + NotIgnored(paths[1..], entries)
  }

  lemma {:induction false} NotIgnoredIsSubsequence(paths: seq<string>, entries: seq<GitIgnoreEntry>)
    requires forall p <- paths :: SupportedPath(p)
    requires SupportedEntries(entries)
    ensures IsSubsequence(NotIgnored(paths, entries), paths)
  {
    if paths != [] {
      NotIgnoredIsSubsequence(paths[1..], entries);
      var rest := NotIgnored(paths[1..], entries);
      if !IgnoredBy(paths[0], entries) {
        assert ([paths[0]] + rest)[1..] == rest;
      } else {
        assert [] + rest == rest;
      }
    }
  }

  lemma {:induction false} NotIgnoredMembers(paths: seq<string>, entries: seq<GitIgnoreEntry>, x: string)
    requires forall p <- paths :: SupportedPath(p)
    requires SupportedEntries(entries)
    ensures x in NotIgnored(paths, entries) <==> x in paths && SupportedPath(x) && !IgnoredBy(x, entries)
  {
    if paths != [] {
      NotIgnoredMembers(paths[1..], entries, x);
      assert paths == [paths[0]] + paths[1..];
    }
  }

  /** Without entries nothing is ignored. */
  lemma {:induction false} NoEntriesKeepAll(paths: seq<string>)
    requires forall p <- paths :: SupportedPath(p)
    ensures NotIgnored(paths, []) == paths
  {
    if paths != [] {
      NoEntriesKeepAll(paths[1..]);
      assert [paths[0]] + paths[1..] == paths;
    }
  }

  /** The paths the application reads: the scanned relative paths, filtered
      by the parsed gitignore lines, then by the include and exclude tokens. */
  function FilteredPaths(paths: seq<string>, gitIgnoreLines: seq<string>,
                         includePatterns: seq<string>, excludePatterns: seq<string>): seq<string>
    requires forall p <- paths :: SupportedPath(p)
    requires SupportedEntries(ParsedEntries(gitIgnoreLines))
  {
    PathFilters(NotIgnored(paths, ParsedEntries(gitIgnoreLines)), includePatterns, excludePatterns)
  }

  /** A path survives exactly when it was scanned, no gitignore entry ignores
      it, it matches an include token (if there are any), and it matches no
      exclude token; survivors keep their scan order. */
  lemma FilteredPathsSpec(paths: seq<string>, gitIgnoreLines: seq<string>,
                          includePatterns: seq<string>, excludePatterns: seq<string>)
    requires forall p <- paths :: SupportedPath(p)
    requires SupportedEntries(ParsedEntries(gitIgnoreLines))
    ensures var result := FilteredPaths(paths, gitIgnoreLines, includePatterns, excludePatterns);
      && IsSubsequence(result, paths)
      && forall x :: x in result <==>
           && x in paths
           && !IgnoredBy(x, ParsedEntries(gitIgnoreLines))
           && (|includePatterns| > 0 ==> MatchesAnyPattern(x, includePatterns))
           && (|excludePatterns| > 0 ==> !MatchesAnyPattern(x, excludePatterns))
  {
    var entries := ParsedEntries(gitIgnoreLines);
    var kept := NotIgnored(paths, entries);
    NotIgnoredIsSubsequence(paths, entries);
    forall x { NotIgnoredMembers(paths, entries, x); }
    PathFiltersSpec(kept, includePatterns, excludePatterns);
    SubsequenceTransitive(PathFilters(kept, includePatterns, excludePatterns), kept, paths);
  }

  /** With no gitignore lines and no tokens every scanned path is kept, in order. */
  lemma NothingConfiguredKeepsAll(paths: seq<string>)
    requires forall p <- paths :: SupportedPath(p)
    ensures FilteredPaths(paths, [], [], []) == paths
  {
    NoEntriesKeepAll(paths);
  }
}
