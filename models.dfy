/** The records the services read and build (the Models folder and GitIgnoreEntry). */
module Models {

  datatype Option<T> = None | Some(value: T)

  /** One parsed .gitignore line: the pattern with any leading '!' removed. */
  datatype GitIgnoreEntry = GitIgnoreEntry(isNegative: bool, pattern: string)

  /** A configured project profile: its name and its custom include/exclude tokens. */
  datatype ProjectPatternSettings = ProjectPatternSettings(
    name: string,
    onlyIncludePatterns: seq<string>,
    alsoExcludePatterns: seq<string>)

  datatype ProjectSettings = ProjectSettings(
    projectGitsFileFolder: string,
    projects: seq<ProjectPatternSettings>)

  /** A file path with the text read from it. */
  datatype FileContent = FileContent(filePath: string, content: string)
}
