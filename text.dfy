/**
 * String helpers standing in for the .NET members the services call:
 * ordinal case-insensitive comparison, StartsWith/EndsWith, String.Split,
 * String.Trim, Path.GetFileName and Path.GetExtension.
 *
 * The model is of .NET on a Unix host: '/' is the only directory separator.
 * Case folding is ASCII lower-casing; white space is the ASCII set.
 */
module Text {

  /** ASCII lower-casing of one character. */
  function Lower(c: char): char
  {
    if 'A' <= c <= 'Z' then (c as int - 'A' as int + 'a' as int) as char else c
  }

  function LowerAll(s: string): (r: string)
    ensures |r| == |s|
    ensures forall i :: 0 <= i < |s| ==> r[i] == Lower(s[i])
  {
    if s == [] then [] else [Lower(s[0])] + LowerAll(s[1..])
  }

  /** StringComparison.OrdinalIgnoreCase equality. */
  predicate EqualsIgnoreCase(a: string, b: string)
  {
    |a| == |b| && forall i :: 0 <= i < |a| ==> Lower(a[i]) == Lower(b[i])
  }

  lemma EqualsIgnoreCaseReflexive(a: string)
    ensures EqualsIgnoreCase(a, a)
  {
  }

  /** Equal ignoring case, one character at a time: the first characters
      and the rests. */
  lemma EqualsIgnoreCaseCons(a: string, b: string)
    requires a != [] && b != []
    ensures EqualsIgnoreCase(a, b) <==> Lower(a[0]) == Lower(b[0]) && EqualsIgnoreCase(a[1..], b[1..])
  {
    if Lower(a[0]) == Lower(b[0]) && EqualsIgnoreCase(a[1..], b[1..]) {
      forall i | 0 <= i < |a| ensures Lower(a[i]) == Lower(b[i]) {
        if i > 0 {
          assert a[i] == a[1..][i - 1] && b[i] == b[1..][i - 1];
        }
      }
    }
    if EqualsIgnoreCase(a, b) {
      forall i | 0 <= i < |a| - 1 ensures Lower(a[1..][i]) == Lower(b[1..][i]) {
        assert a[1..][i] == a[i + 1] && b[1..][i] == b[i + 1];
      }
    }
  }

  /** Lower-casing maps only 'A'..'Z', and into 'a'..'z': any character
      that is not an ASCII letter is its own and only preimage. */
  lemma LowerKeepsNonLetter(c: char, x: char)
    requires !('a' <= x <= 'z') && !('A' <= x <= 'Z')
    ensures Lower(c) == x <==> c == x
  {
  }

  predicate StartsWith(s: string, prefix: string)
  {
    |prefix| <= |s| && s[..|prefix|] == prefix
  }

  predicate EndsWith(s: string, suffix: string)
  {
    |suffix| <= |s| && s[|s| - |suffix|..] == suffix
  }

  /** Char.IsWhiteSpace, restricted to ASCII. */
  predicate IsWhiteSpace(c: char)
  {
    c == ' ' || c == '\t' || c == '\n' || c == '\r' || c == '\U{000C}' || c == '\U{000B}'
  }

  predicate AllWhiteSpace(s: string)
  {
    forall i :: 0 <= i < |s| ==> IsWhiteSpace(s[i])
  }

  function TrimStart(s: string): string
  {
    if s != [] && IsWhiteSpace(s[0]) then TrimStart(s[1..]) else s
  }

  function TrimEnd(s: string): string
  {
    if s != [] && IsWhiteSpace(s[|s| - 1]) then TrimEnd(s[..|s| - 1]) else s
  }

  /** String.Trim(): white space removed from both ends. */
  function Trim(s: string): string
  {
    TrimEnd(TrimStart(s))
  }

  /** TrimStart drops a white-space prefix and stops at the first other character. */
  lemma {:induction false} TrimStartShape(s: string)
    ensures var r := TrimStart(s);
      |r| <= |s| && r == s[|s| - |r|..] && (r == [] || !IsWhiteSpace(r[0])) && AllWhiteSpace(s[..|s| - |r|])
  {
    if s != [] && IsWhiteSpace(s[0]) {
      TrimStartShape(s[1..]);
    }
  }

  /** TrimEnd drops a white-space suffix and stops at the last other character. */
  lemma {:induction false} TrimEndShape(s: string)
    ensures var r := TrimEnd(s);
      |r| <= |s| && r == s[..|r|] && (r == [] || !IsWhiteSpace(r[|r| - 1])) && AllWhiteSpace(s[|r|..])
  {
    if s != [] && IsWhiteSpace(s[|s| - 1]) {
      TrimEndShape(s[..|s| - 1]);
    }
  }

  /** The trimmed string is the middle of the input: white space, then the result, then white space. */
  lemma TrimShape(s: string)
    ensures var t := Trim(s);
      exists i :: 0 <= i <= |s| - |t| && s[i..i + |t|] == t
                  && AllWhiteSpace(s[..i]) && AllWhiteSpace(s[i + |t|..])
    ensures Trim(s) == [] || (!IsWhiteSpace(Trim(s)[0]) && !IsWhiteSpace(Trim(s)[|Trim(s)| - 1]))
  {
    var u := TrimStart(s);
    var t := TrimEnd(u);
    TrimStartShape(s);
    TrimEndShape(u);
    var i := |s| - |u|;
    assert s[i..i + |t|] == u[..|t|];
    assert s[i + |t|..] == u[|t|..];
    if t != [] {
      assert t[0] == u[0];
    }
  }

  /** String.Split(c): n separators give n + 1 parts, empty parts included. */
  function Split(s: string, c: char): (parts: seq<string>)
    ensures |parts| >= 1
    ensures forall k :: 0 <= k < |parts| ==> c !in parts[k]
  {
    if s == [] then [""]
    else
      var rest := Split(s[1..], c);
      if s[0] == c then [""] + rest else [[s[0]] + rest[0]] + rest[1..]
  }

  /** String.Join(c, parts): the parts with one c between neighbours. */
  function Join(parts: seq<string>, c: char): string
  {
    if parts == [] then ""
    else if |parts| == 1 then parts[0]
    else parts[0] + [c] + Join(parts[1..], c)
  }

  /** Split loses nothing: joining the parts with the separator gives the text back. */
  lemma {:induction false} SplitJoin(s: string, c: char)
    ensures Join(Split(s, c), c) == s
  {
    if s != [] {
      var rest := Split(s[1..], c);
      SplitJoin(s[1..], c);
      if s[0] == c {
        assert ([""] + rest)[1..] == rest;
        assert s == [c] + s[1..];
      } else {
        var parts := [[s[0]] + rest[0]] + rest[1..];
        assert parts[1..] == rest[1..];
        if |rest| > 1 {
          assert Join(rest, c) == rest[0] + [c] + Join(rest[1..], c);
        }
        assert s == [s[0]] + s[1..];
      }
    }
  }

  /** Path.GetFileName: what follows the last '/'. */
  function FileName(s: string): (r: string)
  {
    if '/' !in s then s else FileName(s[1..])
  }

  /** FileName(s) is the last segment: a suffix without '/', preceded by a '/' or the start. */
  lemma FileNameSuffix(s: string)
    ensures |FileName(s)| <= |s| && FileName(s) == s[|s| - |FileName(s)|..]
    ensures '/' !in FileName(s)
    ensures |FileName(s)| == |s| || s[|s| - |FileName(s)| - 1] == '/'
  {
    if '/' in s {
      FileNameSuffix(s[1..]);
      if |FileName(s[1..])| == |s| - 1 {
        assert s[1..] == FileName(s[1..]);
      }
    }
  }

  /** The last segment is the only slash-free suffix that starts a segment. */
  lemma FileNameUnique(s: string, i: int)
    requires 0 <= i <= |s| && (i == 0 || s[i - 1] == '/') && '/' !in s[i..]
    ensures FileName(s) == s[i..]
  {
    FileNameSuffix(s);
  }

  /** Path.GetExtension: from the last '.' of the file name, or "" when there is
      no dot or the dot is the last character. */
  function Extension(s: string): string
  {
    DotSuffix(FileName(s))
  }

  function DotSuffix(f: string): (r: string)
  {
    if '.' !in f then ""
    else if '.' in f[1..] then DotSuffix(f[1..])
    else if |f| == 1 then ""
    else f
  }

  /** An extension is empty, or a suffix of the name that starts with its only dot and has more after it. */
  lemma {:induction false} DotSuffixShape(f: string)
    ensures |DotSuffix(f)| <= |f| && DotSuffix(f) == f[|f| - |DotSuffix(f)|..]
    ensures DotSuffix(f) != [] ==> |DotSuffix(f)| >= 2 && DotSuffix(f)[0] == '.' && '.' !in DotSuffix(f)[1..]
    ensures DotSuffix(f) == [] ==> '.' !in f || f[|f| - 1] == '.'
  {
    if '.' in f && '.' in f[1..] {
      var t := f[1..];
      DotSuffixShape(t);
      var r := DotSuffix(t);
      assert DotSuffix(f) == r;
      assert f[|f| - |r|..] == t[|t| - |r|..];
      if r == [] {
        assert f[|f| - 1] == t[|t| - 1];
      }
    }
  }

  /** A name ending in "." + ext, ext without a dot: the extension is ".ext",
      whatever dots come earlier. */
  lemma {:induction false} DotSuffixOfLastDot(name: string, ext: string)
    requires '.' !in ext && ext != ""
    ensures DotSuffix(name + "." + ext) == "." + ext
    decreases |name|
  {
    var f := name + "." + ext;
    if name == [] {
      assert f == "." + ext && f[1..] == ext;
    } else {
      assert f[1..] == name[1..] + "." + ext;
      assert f[|name|] == '.';
      DotSuffixOfLastDot(name[1..], ext);
    }
  }

  /** The extension equals ".ext" ignoring case exactly when the file name
      is some n + "." + e with e equal to ext ignoring case: the last dot
      decides, and a folder or a longer extension does not count. */
  lemma ExtensionIs(s: string, ext: string)
    requires ext != [] && '.' !in ext
    ensures EqualsIgnoreCase(Extension(s), "." + ext)
        <==> exists n, e :: FileName(s) == n + "." + e && EqualsIgnoreCase(e, ext)
  {
    var f := FileName(s);
    var r := DotSuffix(f);
    var dotExt := "." + ext;
    assert dotExt[0] == '.' && dotExt[1..] == ext;
    DotSuffixShape(f);
    if EqualsIgnoreCase(r, dotExt) {
      var n := f[..|f| - |r|];
      var e := r[1..];
      assert r == "." + e;
      assert f == n + "." + e;
      EqualsIgnoreCaseCons(r, dotExt);
    }
    if exists n, e :: f == n + "." + e && EqualsIgnoreCase(e, ext) {
      var n, e :| f == n + "." + e && EqualsIgnoreCase(e, ext);
      forall k | 0 <= k < |e| ensures e[k] != '.' {
        assert ext[k] in ext;
        LowerKeepsNonLetter(ext[k], '.');
      }
      DotSuffixOfLastDot(n, e);
      var dotE := "." + e;
      assert dotE[0] == '.' && dotE[1..] == e;
      EqualsIgnoreCaseCons(dotE, dotExt);
    }
  }

  /** String.Replace(from, to) for single characters. */
  function ReplaceChar(s: string, from: char, to: char): (r: string)
    ensures |r| == |s|
    ensures forall i :: 0 <= i < |s| ==> r[i] == if s[i] == from then to else s[i]
  {
    if s == [] then [] else [if s[0] == from then to else s[0]] + ReplaceChar(s[1..], from, to)
  }
}
