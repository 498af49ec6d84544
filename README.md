# Mo.ProjectFilesToJson: the path-filtering engine in Dafny

Mo.ProjectFilesToJson walks a source folder and collects the relative paths of
its files. It drops the paths that the project's `.gitignore` rules ignore,
then filters what is left with the include and exclude tokens configured for
the project. Finally it writes the surviving files out, either as JSON or as
"divider" text. This project models that filtering engine and the text
transforms around it, and proves what each step promises.

Modules, one per service (plus shared text helpers and the records):

- `Text` (`text.dfy`): the .NET string and `Path` operations the services rely on.
  These are ordinal-ignore-case comparison, `Trim`, `Split`,
  `Path.GetFileName`, `Path.GetExtension` and `Replace`. They are modelled on a
  Unix host, with `/` as the only separator and ASCII case folding and white space.
- `Models` (`models.dfy`): `GitIgnoreEntry`, `ProjectPatternSettings`,
  `ProjectSettings`, `FileContent` and an `Option` type. `Option` stands for a
  missing file or a null list.
- `FileScan` (`file_scan.dfy`): `FileScanService`.
  - The relative-path / `.gitignore` partition of `GetAllFilePaths`.
  - `ParseGitIgnoreEntries`.
  - The meaning of the regular expression that `MatchGitIgnorePattern`,
    `GlobToRegex` and `EscapeExceptGlob` build. It is a rule with an
    optional root anchor, an optional directory suffix, and a glob body in
    which `*` and `?` never cross `/`. Matching ignores case.
  - The last-match-wins `IsIgnored` loop.
- `CustomFilter` (`custom_filter.dfy`): `CustomFilterService`.
  - The three-tier `IsMatch`: `*.ext`, then `name.ext`, then any segment.
  - `MatchesAnyPattern`.
  - The stage-by-stage `ApplyPathFilters`.
  - The first-match project lookup behind `LoadIncludePatterns` and `LoadExcludePatterns`.
- `GitIgnoreParser` (`gitignore_parser.dfy`): the older first-match matcher, with
  four ordered branches and no negation.
- `GitIgnoreService` (`gitignore_service.dfy`):
  - `GetAvailableProjects`, which lists each distinct name once;
  - the trim / skip-blank / skip-comment line loader over several files.
- `FileFormat` (`file_format.dfy`): `FormatWithDivider`.
  - The output is one four-line block per file.
  - A reader `Undivide` proves the output can be read back.
- `Pipeline` (`pipeline.dfy`): the stage order of the console application
  (`AppEngine.cs:53-58`). Gitignore entries remove paths first, then the
  include/exclude tokens filter the rest.

The operations that work by changing local state are methods, proved
against specification functions:
- `GetAllFilePaths`, `ParseGitIgnoreEntries`, `EscapeExceptGlob` and `IsIgnored` in `FileScan` (loops);
- `LoadGitIgnorePatterns` in `GitIgnoreService` (nested loops);
- `FormatWithDivider` in `FileFormat` (a loop);
- `ApplyPathFilters` in `CustomFilter`, which has no loop: it reassigns one
  local list, stage after stage.

The expression-only code is modelled as functions, with lemmas about them:
the matchers, `GlobToRegex`, the project lookups and `GetAvailableProjects`.

The file system becomes parameters:
- `Directory.Exists` is a boolean;
- `Directory.GetFiles` is the sequence of enumerated full paths;
- each listed `.gitignore` is `None` when `File.Exists` fails, and otherwise holds the lines `File.ReadAllLines` returns.

The code and a common reading of the ignore rules disagree on anchoring, and
the model follows the code. A rule such as `/build` or `build` is sometimes
read as ignoring `build/x.txt`. The regular expression ends in `$` unless the
rule ends in `/`, so neither rule matches a path that continues past the name
(`FileScanService.cs:97`). `FileScan.AnchoringExamples` states this.

## Model

| member | source | states |
|---|---|---|
| Text.Trim | Mo.ProjectFilesToJson.Core/Services/GitIgnoreService.cs:40 | `String.Trim`; its meaning is stated by `Text.TrimShape` |
| Text.TrimShape | Mo.ProjectFilesToJson.Core/Services/GitIgnoreService.cs:40 | `Trim` removes only white space, from both ends, and leaves no white space at either end of its result |
| Text.Split | Mo.ProjectFilesToJson.Core/Services/CustomFilterService.cs:104 | `Split` yields at least one part, and no part contains the separator |
| Text.SplitJoin | Mo.ProjectFilesToJson.Core/Services/CustomFilterService.cs:104 | joining the parts with the separator gives the text back, so the parts are exactly the texts between separators, empty ones included |
| Text.FileName | Mo.ProjectFilesToJson.Core/Services/CustomFilterService.cs:98 | `Path.GetFileName`; its meaning is stated by `Text.FileNameSuffix` and `Text.FileNameUnique` |
| Text.FileNameSuffix | Mo.ProjectFilesToJson.Core/Services/FileScanService.cs:28 | `Path.GetFileName` is the suffix after the last `/`, or the whole path when there is none |
| Text.FileNameUnique | Mo.ProjectFilesToJson.Core/Services/FileFormatService.cs:20 | any suffix that follows a `/` (or starts the path) and holds no `/` is the file name |
| Text.Extension | Mo.ProjectFilesToJson.Core/Services/CustomFilterService.cs:87 | `Path.GetExtension`; its meaning is stated by `Text.DotSuffixShape` and `Text.ExtensionIs` |
| Text.DotSuffixShape | Mo.ProjectFilesToJson.Core/Services/CustomFilterService.cs:87 | an extension is empty, or is a suffix of the name of length at least 2 that starts with the name's last dot; it is empty only when there is no dot or the name ends in one |
| Text.DotSuffixOfLastDot | Mo.ProjectFilesToJson.Core/Services/GitIgnoreParser.cs:45 | the extension of a name ending in `.ext`, with no dot in `ext`, is `.ext`, whatever dots come earlier |
| Text.ExtensionIs | Mo.ProjectFilesToJson.Core/Services/CustomFilterService.cs:87-89 | the extension equals `.ext` ignoring case exactly when the file name is some `n.e` with `e` equal to `ext` ignoring case |
| Text.ReplaceChar | Mo.ProjectFilesToJson.Core/Services/CustomFilterService.cs:82 | `Replace` keeps the length and swaps exactly the occurrences of the replaced character |
| FileScan.TrimLeadingSlashes | Mo.ProjectFilesToJson.Core/Services/FileScanService.cs:24 | the result is a suffix of the input that does not start with `/`, and only `/` characters were removed |
| FileScan.RelativePath | Mo.ProjectFilesToJson.Core/Services/FileScanService.cs:23-25 | a relative path never holds `\` |
| FileScan.RelativePathRoundTrip | Mo.ProjectFilesToJson.Core/Services/FileScanService.cs:23-25 | a file written as root, separators and a normalised relative path gets exactly that relative path back |
| FileScan.TrimOnlySeparators | Mo.ProjectFilesToJson.Core/Services/FileScanService.cs:24 | trimming removes exactly the leading separators and nothing of the path after them |
| FileScan.PartitionIsExact | Mo.ProjectFilesToJson.Core/Services/FileScanService.cs:20-36 | every enumerated file lands in exactly one of the two result lists |
| FileScan.RelativizedMembers | Mo.ProjectFilesToJson.Core/Services/FileScanService.cs:27-35 | a path is in the `.gitignore` list (or the other list) exactly when some enumerated file of that kind has it as relative path |
| FileScan.RelativizedHasNoBackslash | Mo.ProjectFilesToJson.Core/Services/FileScanService.cs:25 | no path in either list holds `\` |
| FileScan.PickMembers | Mo.ProjectFilesToJson.Core/Services/FileScanService.cs:27-35 | the order-keeping selection of one kind holds exactly the entries of that kind |
| FileScan.GetAllFilePaths | Mo.ProjectFilesToJson.Core/Services/FileScanService.cs:9-39 | no folder gives two empty lists; otherwise the lists are the relative paths, in enumeration order, of the non-`.gitignore` and the `.gitignore` files, none holding `\` |
| FileScan.ParseEntry | Mo.ProjectFilesToJson.Core/Services/FileScanService.cs:46-61 | an entry is negative exactly when its line starts with `!`, and the line is the entry's pattern with `!` put back when negative |
| FileScan.ParseGitIgnoreEntries | Mo.ProjectFilesToJson.Core/Services/FileScanService.cs:41-64 | one entry per line, in line order, each the parse of its line |
| FileScan.ParsedEntries | Mo.ProjectFilesToJson.Core/Services/FileScanService.cs:41-64 | the parsed entries correspond one to one, in order, to the lines |
| FileScan.ParsedExampleEntries | tests/Mo.ProjectFilesToJson.Test/FileScanServiceTests.cs:94-98 | `bin/` and `!bin/SpecialFile.dll` parse to a positive `bin/` and a negative `bin/SpecialFile.dll` |
| FileScan.EscapedAppend | Mo.ProjectFilesToJson.Core/Services/FileScanService.cs:106-116 | escaping a pattern with one more character appends that character's escape |
| FileScan.EscapeExceptGlob | Mo.ProjectFilesToJson.Core/Services/FileScanService.cs:102-118 | the built string is the per-character escape of the pattern: `\` before each of `. ^ $ + = : { } ( ) \|` and `\`, every other character copied |
| FileScan.EscapedLength | Mo.ProjectFilesToJson.Core/Services/FileScanService.cs:102-118 | the escaped length is the pattern length plus the number of escaped characters |
| FileScan.ReadEscapedInverts | Mo.ProjectFilesToJson.Core/Services/FileScanService.cs:93-94 | reading the escaped text as regex source gives back exactly the pattern's glob tokens: escapes are literals, `*` and `?` wildcards |
| FileScan.StarMatchesWithinSegment | Mo.ProjectFilesToJson.Core/Services/FileScanService.cs:94 | `*` matches exactly the texts without `/` |
| FileScan.QuestionMarkMatchesOneCharacter | Mo.ProjectFilesToJson.Core/Services/FileScanService.cs:94 | `?` matches exactly one character other than `/` |
| FileScan.GlobKeepsSlashes | Mo.ProjectFilesToJson.Core/Services/FileScanService.cs:94 | a matched text holds exactly as many `/` as the pattern's literals: wildcards never cross a segment |
| FileScan.SlashFreeBodyMatchesSlashFreeText | Mo.ProjectFilesToJson.Core/Services/FileScanService.cs:94 | a body without `/` only matches text without `/` |
| FileScan.LiteralGlob | Mo.ProjectFilesToJson.Core/Services/FileScanService.cs:93-94 | a body without wildcards matches exactly the texts equal to it ignoring case |
| FileScan.GlobIgnoresCase | Mo.ProjectFilesToJson.Core/Services/FileScanService.cs:88 | the body matches a text exactly when it matches the text lower-cased |
| FileScan.CompileRule | Mo.ProjectFilesToJson.Core/Services/FileScanService.cs:81-85 | a rule is rooted exactly when the pattern starts with `/`, a directory rule exactly when what is left ends with `/`, and the stripped parts put back give the pattern |
| FileScan.CompileDirectory | Mo.ProjectFilesToJson.Core/Services/FileScanService.cs:84-85 | adding a trailing `/` to a pattern only turns on the directory flag |
| FileScan.EndsFromIff | Mo.ProjectFilesToJson.Core/Services/FileScanService.cs:97 | the end search succeeds exactly when the body matches up to some allowed end |
| FileScan.MatchesFromIff | Mo.ProjectFilesToJson.Core/Services/FileScanService.cs:96 | the start search succeeds exactly when some allowed start and end enclose a body match |
| FileScan.MatchGitIgnorePattern | Mo.ProjectFilesToJson.Core/Services/FileScanService.cs:79-99 | `Regex.IsMatch` of the built expression; its meaning is stated by `FileScan.MatchEnvelope` |
| FileScan.MatchEnvelope | Mo.ProjectFilesToJson.Core/Services/FileScanService.cs:87-99 | a pattern matches exactly when its body matches `path[i..j]` for some `i` at the start or after `/` (only the start when rooted) and `j` at the end or, for a directory rule, before `/` |
| FileScan.FilePatternMatchesFileName | Mo.ProjectFilesToJson.Core/Services/FileScanService.cs:96-97 | a pattern without `/` matches exactly the paths whose file name its glob matches |
| FileScan.DirectoryRuleMatchesEntry | Mo.ProjectFilesToJson.Core/Services/FileScanService.cs:97 | the directory form `name/` matches everything `name` matches (the `(?:/.*)?` suffix is optional) |
| FileScan.DirectoryRuleCoversContents | Mo.ProjectFilesToJson.Core/Services/FileScanService.cs:97 | a directory rule that matches a path also matches everything under it |
| FileScan.EnvelopeExtends | Mo.ProjectFilesToJson.Core/Services/FileScanService.cs:97 | a directory match stays a match when `/` and more follow |
| FileScan.EnvelopeShift | Mo.ProjectFilesToJson.Core/Services/FileScanService.cs:96 | an unrooted match stays a match under any parent folder |
| FileScan.UnrootedMatchesAtAnyDepth | Mo.ProjectFilesToJson.Core/Services/FileScanService.cs:96 | a pattern without leading `/` that matches a path matches it under any parent folder |
| FileScan.RootedMatchIsUnrootedMatch | Mo.ProjectFilesToJson.Core/Services/FileScanService.cs:81-82 | anchoring only removes matches: a rooted match is also an unrooted one |
| FileScan.RootedOnlyAtStart | Mo.ProjectFilesToJson.Core/Services/FileScanService.cs:96 | a rooted plain name matches only the path equal to it ignoring case |
| FileScan.AnchoringExamples | Mo.ProjectFilesToJson.Core/Services/FileScanService.cs:96-97 | `name` matches `dir/name` and `/name` does not; neither matches `name/rest` |
| FileScan.EnvelopeIgnoresCase | Mo.ProjectFilesToJson.Core/Services/FileScanService.cs:88 | each candidate match gives the same verdict on the lower-cased path |
| FileScan.MatchIgnoresCase | Mo.ProjectFilesToJson.Core/Services/FileScanService.cs:88 | a pattern matches a path exactly when it matches the path lower-cased |
| FileScan.IsIgnored | Mo.ProjectFilesToJson.Core/Services/FileScanService.cs:66-77 | the loop's flag is the fold in which every matching entry overwrites the verdict with its own polarity |
| FileScan.LastHitDecides | Mo.ProjectFilesToJson.Core/Services/FileScanService.cs:66-77 | the last matching entry decides the verdict |
| FileScan.VerdictHasLastHit | Mo.ProjectFilesToJson.Core/Services/FileScanService.cs:66-77 | an ignored path has a last matching entry, and it is positive |
| FileScan.LastMatchWins | Mo.ProjectFilesToJson.Core/Services/FileScanService.cs:66-77 | a path is ignored exactly when the last entry that matches it is positive; with no match (or no entries) it is not ignored |
| FileScan.NegationVerdicts | Mo.ProjectFilesToJson.Core/Services/FileScanService.cs:66-77 | after an ignore rule and a negation, a path the negation matches is kept, and one only the first rule matches is ignored |
| FileScan.LiteralMatchLength | Mo.ProjectFilesToJson.Core/Services/FileScanService.cs:93-99 | a literal pattern never matches a shorter path |
| FileScan.LiteralMatchesItself | Mo.ProjectFilesToJson.Core/Services/FileScanService.cs:93-99 | a literal pattern matches the path equal to it |
| FileScan.DirectoryIgnoresContents | tests/Mo.ProjectFilesToJson.Test/FileScanServiceTests.cs:64-71 | `dir/` ignores `dir/anything` (as `bin/` drops `bin/file2.dll`) |
| FileScan.DirThenNegatedFileSupported | tests/Mo.ProjectFilesToJson.Test/FileScanServiceTests.cs:94-98 | the entries `dir/` and `!dir/name` are within the modelled regex fragment |
| FileScan.NegatedFileReincluded | tests/Mo.ProjectFilesToJson.Test/FileScanServiceTests.cs:94-105 | under `dir/` then `!dir/name`, `dir/name` is not ignored (as `bin/SpecialFile.dll` survives) |
| FileScan.LiteralEnvelopeOnSibling | Mo.ProjectFilesToJson.Core/Services/FileScanService.cs:93-99 | wherever the literal `dir/name` matches inside `dir/other`, it covers the whole path, so `other` equals `name` ignoring case |
| FileScan.LiteralRejectsOtherSibling | Mo.ProjectFilesToJson.Core/Services/FileScanService.cs:93-99 | the literal `dir/name` does not match `dir/other` for any plain name `other` that differs from `name` ignoring case, longer or shorter |
| FileScan.SiblingStaysIgnored | Mo.ProjectFilesToJson.Core/Services/FileScanService.cs:66-77 | under `dir/` then `!dir/name`, every other file `dir/other` (other differing from name ignoring case) stays ignored |
| FileScan.PlainJoin | tests/Mo.ProjectFilesToJson.Test/FileScanServiceTests.cs:94-98 | `dir/name` of plain names is a supported path and a literal pattern, neither starting nor ending with `/` |
| CustomFilter.SubsequenceTransitive | Mo.ProjectFilesToJson.Core/Services/CustomFilterService.cs:54-64 | filtering a filtered list still yields a subsequence of the original |
| CustomFilter.NormalizePath | Mo.ProjectFilesToJson.Core/Services/CustomFilterService.cs:82 | the normalised path holds no `\` |
| CustomFilter.AnySegmentEquals | Mo.ProjectFilesToJson.Core/Services/CustomFilterService.cs:104-112 | the segment loop succeeds exactly when some segment equals the pattern ignoring case |
| CustomFilter.IsMatch | Mo.ProjectFilesToJson.Core/Services/CustomFilterService.cs:80-113 | the three-tier match; its meaning is stated by `CustomFilter.ExtensionToken` and `CustomFilter.SegmentTier` |
| CustomFilter.SplitWithoutSeparator | Mo.ProjectFilesToJson.Core/Services/CustomFilterService.cs:104 | a path without `/` is one segment |
| CustomFilter.SplitWithSeparator | Mo.ProjectFilesToJson.Core/Services/CustomFilterService.cs:104 | a path with `/` has at least two segments |
| CustomFilter.FileNameIsLastSegment | Mo.ProjectFilesToJson.Core/Services/CustomFilterService.cs:98-104 | the file name is the last `/`-segment, so the `name.ext` tier adds no match the segment tier misses |
| CustomFilter.ExtensionToken | Mo.ProjectFilesToJson.Core/Services/CustomFilterService.cs:84-90 | `*.ext` (ext without a dot) matches exactly the paths whose normalised file name is some `n.e` with `e` equal to `ext` ignoring case; no other tier is tried |
| CustomFilter.OtherExtensionRejected | Mo.ProjectFilesToJson.Core/Services/CustomFilterService.cs:84-90 | `*.ext` rejects `dir/name.other` when `other` differs from `ext` ignoring case, whatever the folders are named |
| CustomFilter.CsPatternExamples | Mo.ProjectFilesToJson.Core/Services/CustomFilterService.cs:85-90 | `*.cs` rejects `temp/cs/file.txt` (a folder named like the extension does not count) and `src/app.csproj` (a longer extension does not count) |
| CustomFilter.SegmentTier | Mo.ProjectFilesToJson.Core/Services/CustomFilterService.cs:93-112 | any other pattern matches exactly when some segment of the normalised path equals it ignoring case |
| CustomFilter.MatchesAnyPattern | Mo.ProjectFilesToJson.Core/Services/CustomFilterService.cs:70-78 | true exactly when some pattern matches, so false for no patterns |
| CustomFilter.SelectIsSubsequence | Mo.ProjectFilesToJson.Core/Services/CustomFilterService.cs:54-56 | a `Where` stage keeps an order-preserving subsequence |
| CustomFilter.SelectMembers | Mo.ProjectFilesToJson.Core/Services/CustomFilterService.cs:54-64 | a stage keeps exactly the input paths whose match against the patterns has the wanted value |
| CustomFilter.SelectKeepsAll | Mo.ProjectFilesToJson.Core/Services/CustomFilterService.cs:54-56 | a stage every path passes returns the list unchanged |
| CustomFilter.SelectIdempotent | Mo.ProjectFilesToJson.Core/Services/CustomFilterService.cs:54-64 | running a stage twice equals running it once |
| CustomFilter.SelectCommutes | Mo.ProjectFilesToJson.Core/Services/CustomFilterService.cs:52-65 | the include and exclude stages can run in either order |
| CustomFilter.PathFiltersSpec | Mo.ProjectFilesToJson.Core/Services/CustomFilterService.cs:44-68 | the result is an ordered subsequence holding exactly the paths that match some include token (when there are any) and no exclude token (when there are any); with both lists empty it is the input |
| CustomFilter.ApplyPathFilters | Mo.ProjectFilesToJson.Core/Services/CustomFilterService.cs:44-68 | the stage-by-stage method returns the specified filter, with the same subsequence, membership and identity guarantees |
| CustomFilter.PathFiltersIdempotent | Mo.ProjectFilesToJson.Core/Services/CustomFilterService.cs:44-68 | filtering an already filtered list changes nothing |
| CustomFilter.FindProject | Mo.ProjectFilesToJson.Core/Services/CustomFilterService.cs:19-20 | no project is found exactly when no name matches ignoring case; otherwise the first matching project is returned |
| CustomFilter.LoadIncludePatterns | Mo.ProjectFilesToJson.Core/Services/CustomFilterService.cs:16-28 | the include list of the first project whose name matches; its meaning is stated by `CustomFilter.LoadPatternsOfFirstMatch` and `CustomFilter.LoadPatternsWithoutMatch` |
| CustomFilter.LoadExcludePatterns | Mo.ProjectFilesToJson.Core/Services/CustomFilterService.cs:30-42 | the exclude list of the first project whose name matches; its meaning is stated by the same two lemmas |
| CustomFilter.LoadPatternsOfFirstMatch | Mo.ProjectFilesToJson.Core/Services/CustomFilterService.cs:16-42 | both loaders return the lists of the first project whose name matches ignoring case |
| CustomFilter.LoadPatternsWithoutMatch | Mo.ProjectFilesToJson.Core/Services/CustomFilterService.cs:16-42 | both loaders return an empty list when no name matches |
| GitIgnoreParser.TrimTrailingSlashes | Mo.ProjectFilesToJson.Core/Services/GitIgnoreParser.cs:38 | `TrimEnd('/')` gives a prefix not ending in `/`, and only `/` characters were removed |
| GitIgnoreParser.IsIgnored | Mo.ProjectFilesToJson.Core/Services/GitIgnoreParser.cs:15-29 | true exactly when some pattern matches; no negation, and false for no patterns |
| GitIgnoreParser.PatternMatches | Mo.ProjectFilesToJson.Core/Services/GitIgnoreParser.cs:31-60 | the four ordered branches; their meaning is stated by `DirectoryPrefixCovers`, `ExtensionPatternIff`, `WildcardWithoutStar` and `SingleStarPattern` |
| GitIgnoreParser.DirectoryPrefixCovers | Mo.ProjectFilesToJson.Core/Services/GitIgnoreParser.cs:34-39 | `dir/` matches exactly the paths that start with `dir`, case-sensitively: everything beneath `dir`, and also a longer name such as `binary.dll` for `bin/` |
| GitIgnoreParser.ExtensionPatternIff | Mo.ProjectFilesToJson.Core/Services/GitIgnoreParser.cs:42-48 | `*.ext` (ext without `.` or `/`) matches exactly the paths whose file name is some `n.e` with `e` equal to `ext` ignoring case |
| GitIgnoreParser.ExtensionPatternMatches | tests/Mo.ProjectFilesToJson.Test/GitIgnoreParserTests.cs:36-48 | `*.ext` matches `folder/name.ext` |
| GitIgnoreParser.ExtensionOfName | Mo.ProjectFilesToJson.Core/Services/GitIgnoreParser.cs:45 | the extension of `folder/name.ext` is `.ext` |
| GitIgnoreParser.WildcardWithoutStar | Mo.ProjectFilesToJson.Core/Services/GitIgnoreParser.cs:58-59 | without `*` the wildcard match is equality ignoring case (`?` is literal) |
| GitIgnoreParser.StarAbsorbs | Mo.ProjectFilesToJson.Core/Services/GitIgnoreParser.cs:58 | `*` absorbs any text without a line break in front of a match |
| GitIgnoreParser.WildcardSpansSegments | Mo.ProjectFilesToJson.Core/Services/GitIgnoreParser.cs:58-59 | `a*b` matches `a` + any text without a line break + `b`, `/` included |
| GitIgnoreParser.StarThenText | Mo.ProjectFilesToJson.Core/Services/GitIgnoreParser.cs:58 | `*b` matches exactly the texts that end in `b` ignoring case with no line break before it |
| GitIgnoreParser.WildcardStarIff | Mo.ProjectFilesToJson.Core/Services/GitIgnoreParser.cs:58 | `a*b` (one `*`) matches exactly the texts that start with `a` and end with `b` ignoring case, without overlap, with no line break in between |
| GitIgnoreParser.SingleStarPattern | Mo.ProjectFilesToJson.Core/Services/GitIgnoreParser.cs:57-59 | a one-`*` pattern that is neither a directory nor a `*.ext` pattern matches exactly those texts, or those texts followed by one final line break (`$` matches before it) |
| GitIgnoreParser.StarStopsAtLineBreak | Mo.ProjectFilesToJson.Core/Services/GitIgnoreParser.cs:58-59 | `a*` does not match `a`, line break, `b` |
| GitIgnoreParser.AnchorBeforeFinalLineBreak | Mo.ProjectFilesToJson.Core/Services/GitIgnoreParser.cs:58-59 | `a*b` matches `axb` followed by a line break |
| GitIgnoreService.Distinct | Mo.ProjectFilesToJson.Core/Services/GitIgnoreService.cs:20 | same elements as the input, none repeated |
| GitIgnoreService.GetAvailableProjects | Mo.ProjectFilesToJson.Core/Services/GitIgnoreService.cs:16-22 | every configured name is listed, nothing else is, and no name twice |
| GitIgnoreService.DistinctOfDistinct | Mo.ProjectFilesToJson.Core/Services/GitIgnoreService.cs:20 | `Distinct` leaves a list without repeats unchanged |
| GitIgnoreService.DistinctKeepsFirstOccurrenceOrder | Mo.ProjectFilesToJson.Core/Services/GitIgnoreService.cs:20 | `Distinct` lists the values in the order of their first occurrences in the input |
| GitIgnoreService.RepeatedNameListedOnce | tests/Mo.ProjectFilesToJson.Test/GitIgnoreServiceTests.cs:10-26 | `ProjA`, `ProjB`, `ProjA` lists as `ProjA`, `ProjB` |
| GitIgnoreService.LoadGitIgnorePatterns | Mo.ProjectFilesToJson.Core/Services/GitIgnoreService.cs:24-50 | a null list gives no lines; otherwise the result is the kept lines of the files, in list order |
| GitIgnoreService.KeptMembers | Mo.ProjectFilesToJson.Core/Services/GitIgnoreService.cs:42-45 | the kept lines are exactly the trimmed lines that are neither blank nor comments |
| GitIgnoreService.PatternLinesMembers | Mo.ProjectFilesToJson.Core/Services/GitIgnoreService.cs:38-46 | a line is returned exactly when it is kept and some line of the file trims to it |
| GitIgnoreService.PatternLinesAreClean | Mo.ProjectFilesToJson.Core/Services/GitIgnoreService.cs:40-45 | every returned line is non-empty, has no white space at either end, and does not start with `#` |
| GitIgnoreService.KeptAppend | Mo.ProjectFilesToJson.Core/Services/GitIgnoreService.cs:38-46 | the kept lines of two parts are those of the first part, then of the second |
| GitIgnoreService.PatternLinesAppend | Mo.ProjectFilesToJson.Core/Services/GitIgnoreService.cs:38-46 | lines come out in file order |
| GitIgnoreService.FilesPatternLinesAppend | Mo.ProjectFilesToJson.Core/Services/GitIgnoreService.cs:31-47 | files contribute in list order, one after the other |
| GitIgnoreService.FilesPatternLinesMembers | Mo.ProjectFilesToJson.Core/Services/GitIgnoreService.cs:31-47 | a line is loaded exactly when it is a kept line of some listed file that exists |
| GitIgnoreService.FilesPatternLinesAreClean | Mo.ProjectFilesToJson.Core/Services/GitIgnoreService.cs:40-45 | every loaded line, from any file, is non-empty, has no white space at either end, and does not start with `#` |
| GitIgnoreService.MissingFileContributesNothing | Mo.ProjectFilesToJson.Core/Services/GitIgnoreService.cs:34-35 | a listed file that does not exist adds no lines |
| GitIgnoreService.CommentAndBlankLinesSkipped | tests/Mo.ProjectFilesToJson.Test/GitIgnoreServiceTests.cs:93-107 | `# comment`, ``, `bin/`, `!bin/special.dll` yield exactly `bin/` and `!bin/special.dll` |
| FileFormat.FormatWithDivider | Mo.ProjectFilesToJson.Core/Services/FileFormatService.cs:15-27 | the output is the blocks of the files in order; no files give the empty string; otherwise it opens with `--FILE `, the first path and the newline |
| FileFormat.DividedStartsWithHeader | Mo.ProjectFilesToJson.Core/Services/FileFormatService.cs:21 | non-empty output starts with the first file's header line |
| FileFormat.ConcatAppend | Mo.ProjectFilesToJson.Core/Services/FileFormatService.cs:18-25 | the text of two block runs is the first run's text followed by the second's |
| FileFormat.DividedAppend | Mo.ProjectFilesToJson.Core/Services/FileFormatService.cs:18-25 | formatting two file lists one after the other equals formatting their concatenation |
| FileFormat.DividedCons | Mo.ProjectFilesToJson.Core/Services/FileFormatService.cs:18-25 | the output starts with the first file's block, then the rest's output |
| FileFormat.ReadLine | Mo.ProjectFilesToJson.Core/Services/FileFormatService.cs:21-24 | reading a line from non-empty text leaves strictly less |
| FileFormat.ReadLineOf | Mo.ProjectFilesToJson.Core/Services/FileFormatService.cs:21-24 | a line without `\n` followed by `\n` reads back as that line and the rest |
| FileFormat.UndivideBlock | Mo.ProjectFilesToJson.Core/Services/FileFormatService.cs:21-24 | reading a block in front of more output gives its file, then what the rest gives |
| FileFormat.UndivideInverts | Mo.ProjectFilesToJson.Core/Services/FileFormatService.cs:15-27 | with `\n` as newline and no `\n` in paths or contents, the output reads back as exactly the input files |
| Pipeline.NotIgnored | Mo.ProjectFilesToJson.Console/AppEngine.cs:53-54 | the gitignore stage; its meaning is stated by `Pipeline.NotIgnoredIsSubsequence` and `Pipeline.NotIgnoredMembers` |
| Pipeline.NotIgnoredIsSubsequence | Mo.ProjectFilesToJson.Console/AppEngine.cs:53-54 | the gitignore stage keeps an ordered subsequence of the scanned paths |
| Pipeline.NotIgnoredMembers | Mo.ProjectFilesToJson.Console/AppEngine.cs:53-54 | the gitignore stage keeps exactly the scanned paths the entries do not ignore |
| Pipeline.NoEntriesKeepAll | Mo.ProjectFilesToJson.Console/AppEngine.cs:53-54 | without gitignore entries every path is kept |
| Pipeline.FilteredPaths | Mo.ProjectFilesToJson.Console/AppEngine.cs:53-58 | the paths read; its meaning is stated by `Pipeline.FilteredPathsSpec` |
| Pipeline.FilteredPathsSpec | Mo.ProjectFilesToJson.Console/AppEngine.cs:53-58 | the paths read are an ordered subsequence of the scanned ones: exactly those not ignored, matching an include token if any are given, and matching no exclude token |
| Pipeline.NothingConfiguredKeepsAll | Mo.ProjectFilesToJson.Console/AppEngine.cs:53-58 | with no ignore lines and no tokens every scanned path is read |

## Left out

- File system access is not modelled. This covers `Directory.Exists`,
  `Directory.GetFiles`, `Path.Combine`, `File.Exists` and
  `File.ReadAllLines`. The model takes their results as parameters.
- The .NET regular-expression engine is not modelled; its meaning is specified directly.
  - Patterns holding `[` are excluded (`SupportedPattern`). `[` is not escaped
    (`FileScanService.cs:104`), so it would open a character class or make the
    regex invalid.
  - In `FileScan`, paths holding a newline are excluded (`FileScan.SupportedPath`).
    There `.` in the `^(?:.*/)?` prefix and `$` behave differently.
- Platform behaviour is fixed to one host:
  - `/` is the only directory separator (`Path.DirectorySeparatorChar` on Unix).
  - Case-insensitive comparison is ASCII lower-casing, not Unicode case folding.
  - `Trim` and `IsNullOrWhiteSpace` use ASCII white space only.
  - The `StartsWith`/`EndsWith` calls without a `StringComparison` are
    culture-sensitive in .NET: `GitIgnoreParser.cs:34`, `38` and `42`,
    `FileScanService.cs:46`, `81` and `84`, and `GitIgnoreService.cs:43`.
    All are modelled as ordinal comparisons.
- `Path.GetFileName` and `Path.GetExtension` are modelled as "after the last `/`"
  and "from the last dot of the file name, empty when that dot ends the name".
  The full Windows edge cases (drive letters, `\`) are left out.
- GitIgnoreParser.IsIgnored and GitIgnoreParser.PatternMatches: the branch on
  `*` wildcards accepts any pattern with `*`, and `Regex.Escape` leaves
  no other metacharacter live. So the model treats every other character,
  `?` included, as a literal compared ignoring case. Line breaks are modelled
  as the engine treats them: `.*` does not cross one, and `$` also matches
  before a final one (`GitIgnoreParser.AnchoredMatch`).
- `FormatAsJson` (`FileFormatService.cs:10-13`) is a direct call into a JSON
  library and is not modelled.
- Null lists: only the `.gitignore` path list of `LoadGitIgnorePatterns` can be
  null in the modelled code, and it is an `Option`. The `OnlyIncludePatterns ?? []`
  and `AlsoExcludePatterns ?? []` fallbacks are not modelled: the settings lists
  are non-null sequences.
- `GitIgnoreEntry`'s default constructor (false, empty pattern) is not modelled;
  entries are always built from a line.
- The service interfaces, `AppEngine` beyond its stage order, `Program`,
  `AppSetup` and `Helper` are not modelled. They do console prompts, settings
  files, dependency injection and file reads.
- The shown `GetAllFilePaths` takes no ignore lines, while its tests and
  `AppEngine.cs:54` pass the lines to an older two-argument form. The model keeps
  the shown one-argument form. `Pipeline.FilteredPaths` takes the scanned
  relative paths as a parameter and filters them with `IgnoredBy`, the
  function the `IsIgnored` loop is proved to compute.
- The tests' concrete ignore-rule paths (`bin/SpecialFile.dll`, `bin/file1.dll`,
  `sub/build`) are stated as lemmas over plain names (`dir`, `name`, `sibling`)
  rather than over those literal strings.
- FileFormat.UndivideInverts: the read-back is proved for `\n` as the newline
  and for paths and contents without `\n`. Other newlines and multi-line
  contents are not covered.
