/**
 * FileFormatService.FormatWithDivider: every file becomes a block of four
 * lines (header, content, end marker, empty line). The line terminator that
 * AppendLine writes (Environment.NewLine) is the parameter newLine.
 */
module FileFormat {
  import opened Text
  import opened Models

  /** A line as AppendLine writes it: the text, then the terminator. */
  function Line(text: string, newLine: string): string
  {
    text + newLine
  }

  /** The block one file contributes: its header line, its content, the end
      marker naming only the file's last path segment, and an empty line. */
  function Block(fc: FileContent, newLine: string): string
  {
    Line("--FILE " + fc.filePath, newLine)
    + Line(fc.content, newLine)
    + Line("--END (" + FileName(fc.filePath) + ")", newLine)
    + Line("", newLine)
  }

  lemma AppendAssociative(a: string, b: string, c: string)
    ensures a + (b + c) == (a + b) + c
  {
  }

  /** The block of each file, in order. */
  function Blocks(files: seq<FileContent>, newLine: string): (blocks: seq<string>)
    ensures |blocks| == |files|
    ensures forall k :: 0 <= k < |files| ==> blocks[k] == Block(files[k], newLine)
  {
    seq(|files|, k requires 0 <= k < |files| => Block(files[k], newLine))
  }

  /** The strings, one after the other. */
  function Concat(parts: seq<string>): string
  {
    if parts == [] then "" else Concat(parts[..|parts| - 1]) + parts[|parts| - 1]
  }

  /** The divider output: the blocks of all files, in order. */
  function Divided(files: seq<FileContent>, newLine: string): string
  {
    Concat(Blocks(files, newLine))
  }

  method FormatWithDivider(files: seq<FileContent>, newLine: string) returns (output: string)
    ensures output == Divided(files, newLine)
    ensures files == [] ==> output == ""
    ensures files != [] ==> StartsWith(output, "--FILE " + files[0].filePath + newLine)
  {
    ghost var blocks := Blocks(files, newLine);
    output := "";
    for i := 0 to |files|
      invariant output == Concat(blocks[..i])
    {
      ConcatStep(blocks, i);
      var fc := files[i];
      var fileName := FileName(fc.filePath);
      ghost var before := output;
      output := output + Line("--FILE " + fc.filePath, newLine);
      output := output + Line(fc.content, newLine);
      output := output + Line("--END (" + fileName + ")", newLine);
      output := output + Line("", newLine);
      BlockAppended(before, fc, newLine);
    }
    assert blocks[..|files|] == blocks;
    if files != [] {
      DividedStartsWithHeader(files, newLine);
    }
  }

  /** One more part: it is appended at the end. */
  lemma ConcatStep(parts: seq<string>, i: int)
    requires 0 <= i < |parts|
    ensures Concat(parts[..i + 1]) == Concat(parts[..i]) + parts[i]
  {
    assert parts[..i + 1][..i] == parts[..i];
  }

  /** Non-empty output opens with the header line of the first file. */
  lemma DividedStartsWithHeader(files: seq<FileContent>, newLine: string)
    requires files != []
    ensures StartsWith(Divided(files, newLine), "--FILE " + files[0].filePath + newLine)
  {
    assert [files[0]] + files[1..] == files;
    DividedCons(files[0], files[1..], newLine);
    var header := Line("--FILE " + files[0].filePath, newLine);
    var output := Divided(files, newLine);
    assert output[..|header|] == header;
  }

  /** Appending the four lines one by one appends the block. */
  lemma BlockAppended(before: string, fc: FileContent, newLine: string)
    ensures before + Line("--FILE " + fc.filePath, newLine) + Line(fc.content, newLine)
            + Line("--END (" + FileName(fc.filePath) + ")", newLine) + Line("", newLine)
         == before + Block(fc, newLine)
  {
    var l1, l2, l3, l4 := Line("--FILE " + fc.filePath, newLine), Line(fc.content, newLine),
                          Line("--END (" + FileName(fc.filePath) + ")", newLine), Line("", newLine);
    AppendAssociative(before, l1, l2);
    AppendAssociative(before, l1 + l2, l3);
    AppendAssociative(before, l1 + l2 + l3, l4);
  }

  /** The output of a list is the output of its parts, one after the other. */
  lemma {:induction false} ConcatAppend(a: seq<string>, b: seq<string>)
    ensures Concat(a + b) == Concat(a) + Concat(b)
    decreases |b|
  {
    if b == [] {
      assert a + b == a;
    } else {
      var n := |b| - 1;
      ConcatAppend(a, b[..n]);
      assert (a + b)[..|a + b| - 1] == a + b[..n];
    }
  }

  lemma DividedAppend(a: seq<FileContent>, b: seq<FileContent>, newLine: string)
    ensures Divided(a + b, newLine) == Divided(a, newLine) + Divided(b, newLine)
  {
    assert Blocks(a + b, newLine) == Blocks(a, newLine) + Blocks(b, newLine);
    ConcatAppend(Blocks(a, newLine), Blocks(b, newLine));
  }

  // ---------------------------------------------------------------------------
  // Reading the output back (with "\n" as the line terminator)
  // ---------------------------------------------------------------------------

  /** The text up to the first '\n', and what follows that '\n'. */
  function ReadLine(s: string): (r: (string, string))
    ensures s != [] ==> |r.1| < |s|
  {
    if s == [] then ("", "")
    else if s[0] == '\n' then ("", s[1..])
    else
      var (line, rest) := ReadLine(s[1..]);
      ([s[0]] + line, rest)
  }

  /** Splits divider output back into files: None when a block is malformed. */
  function Undivide(s: string): Option<seq<FileContent>>
    decreases |s|
  {
    if s == [] then Some([])
    else
      var (header, s1) := ReadLine(s);
      var (content, s2) := ReadLine(s1);
      var (endMarker, s3) := ReadLine(s2);
      var (blank, s4) := ReadLine(s3);
      if !StartsWith(header, "--FILE ") || blank != [] then None
      else
        var path := header[7..];
        if endMarker != "--END (" + FileName(path) + ")" then None
        else
          match Undivide(s4)
          case None => None
          case Some(rest) => Some([FileContent(path, content)] + rest)
  }

  lemma {:induction false} ReadLineOf(line: string, rest: string)
    requires '\n' !in line
    ensures ReadLine(line + "\n" + rest) == (line, rest)
  {
    if line == [] {
      assert line + "\n" + rest == "\n" + rest;
    } else {
      ReadLineOf(line[1..], rest);
      assert (line + "\n" + rest)[1..] == line[1..] + "\n" + rest;
      assert [line[0]] + line[1..] == line;
    }
  }

  /** Files whose paths and contents hold no line break come back unchanged
      from their divider output. */
  lemma {:induction false} UndivideInverts(files: seq<FileContent>)
    requires forall fc <- files :: '\n' !in fc.filePath && '\n' !in fc.content
    ensures Undivide(Divided(files, "\n")) == Some(files)
    decreases |files|
  {
    if files != [] {
      var fc := files[0];
      var tail := files[1..];
      assert [fc] + tail == files;
      DividedCons(fc, tail, "\n");
      UndivideInverts(tail);
      UndivideBlock(fc, Divided(tail, "\n"));
    }
  }

  lemma DividedCons(fc: FileContent, tail: seq<FileContent>, newLine: string)
    ensures Divided([fc] + tail, newLine) == Block(fc, newLine) + Divided(tail, newLine)
  {
    DividedAppend([fc], tail, newLine);
    var single := Blocks([fc], newLine);
    assert single[..0] == [];
    assert Concat(single) == "" + Block(fc, newLine);
  }

  /** Reading a block in front of more output gives its file, then whatever the rest gives. */
  lemma UndivideBlock(fc: FileContent, rest: string)
    requires '\n' !in fc.filePath && '\n' !in fc.content
    ensures Undivide(Block(fc, "\n") + rest)
         == match Undivide(rest)
            case None => None
            case Some(files) => Some([fc] + files)
  {
    var header := "--FILE " + fc.filePath;
    var endMarker := "--END (" + FileName(fc.filePath) + ")";
    FileNameSuffix(fc.filePath);
    assert '\n' !in FileName(fc.filePath);
    var s3 := Line("", "\n") + rest;
    var s2 := Line(endMarker, "\n") + s3;
    var s1 := Line(fc.content, "\n") + s2;
    BlockSplit(header, fc.content, endMarker, rest);
    assert Block(fc, "\n") + rest == Line(header, "\n") + s1;
    ReadLineOf(header, s1);
    ReadLineOf(fc.content, s2);
    ReadLineOf(endMarker, s3);
    ReadLineOf("", rest);
    assert header[7..] == fc.filePath;
    assert StartsWith(header, "--FILE ");
  }

  lemma BlockSplit(header: string, content: string, endMarker: string, rest: string)
    ensures Line(header, "\n") + Line(content, "\n") + Line(endMarker, "\n") + Line("", "\n") + rest
         == Line(header, "\n") + (Line(content, "\n") + (Line(endMarker, "\n") + (Line("", "\n") + rest)))
  {
    var l1, l2, l3, l4 := Line(header, "\n"), Line(content, "\n"), Line(endMarker, "\n"), Line("", "\n");
    AppendAssociative((l1 + l2) + l3, l4, rest);
    AppendAssociative(l1 + l2, l3, l4 + rest);
    AppendAssociative(l1, l2, l3 + (l4 + rest));
  }
}
