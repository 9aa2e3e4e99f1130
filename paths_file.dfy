/** `PathsStorage`: the list of managed paths kept in a text file, one path
    per line. The file is modelled by its decoded text (the byte-order mark
    of `utf-8-sig` already removed), or `None` when it cannot be opened. The
    text keeps the line ends as they are stored: reading accepts `\n`,
    `\r\n` and a lone `\r`. The program runs on Windows, where writing in
    text mode turns each `\n` into `\r\n` (`WindowsNewlines`), so a save
    stores `WindowsNewlines(Serialize(paths))`. */
module PathsFile {
  import opened Wrappers
  import opened Text

  /** Universal-newline reading ends a line at `\n`, `\r\n` or a lone `\r`. */
  predicate IsLineBreak(c: char)
  {
    c == '\n' || c == '\r'
  }

  predicate OneLine(s: string)
  {
    forall k :: 0 <= k < |s| ==> !IsLineBreak(s[k])
  }

  /** `file.writelines(x + '\n' for x in paths)`. */
  function Serialize(paths: seq<string>): (r: string)
    ensures r == [] <==> paths == []
    ensures r != [] ==> r[|r| - 1] == '\n'
  {
    if paths == [] then "" else paths[0] + "\n" + Serialize(paths[1..])
  }

  /** Length of the first line, without its terminator. */
  function LineLength(text: string): (n: nat)
    ensures n <= |text| && OneLine(text[..n])
    ensures n < |text| ==> IsLineBreak(text[n])
    decreases |text|
  {
    if text == [] || IsLineBreak(text[0]) then 0
    else
      var n := 1 + LineLength(text[1..]);
      assert text[..n] == [text[0]] + text[1..][..n - 1];
      n
  }

  /** `file.readlines()`, each line without its terminator. */
  function Lines(text: string): (r: seq<string>)
    ensures forall k :: 0 <= k < |r| ==> OneLine(r[k])
    decreases |text|
  {
    if text == [] then []
    else
      var n := LineLength(text);
      var next := if n == |text| then n
                  else if text[n] == '\r' && n + 1 < |text| && text[n + 1] == '\n' then n + 2
                  else n + 1;
      [text[..n]] + Lines(text[next..])
  }

  lemma StripKeepsOneLine(s: string)
    ensures OneLine(s) ==> OneLine(Strip(s))
  {
    if OneLine(s) {
      var t := TrimLeft(s);
      OneLineSlice(s, |s| - |t|, |s|);
      var r := TrimRight(t);
      OneLineSlice(t, 0, |r|);
    }
  }

  lemma OneLineSlice(s: string, i: nat, j: nat)
    requires OneLine(s) && i <= j <= |s|
    ensures OneLine(s[i..j])
  {
    assert forall k :: 0 <= k < j - i ==> s[i..j][k] == s[i + k];
  }

  /** Each line stripped of surrounding whitespace. */
  function StripAll(lines: seq<string>): (r: seq<string>)
    ensures |r| == |lines|
    ensures forall k :: 0 <= k < |r| ==> r[k] == Strip(lines[k])
    ensures forall k :: 0 <= k < |r| ==> Trimmed(r[k])
    ensures forall k :: 0 <= k < |r| && OneLine(lines[k]) ==> OneLine(r[k])
  {
    if lines == [] then []
    else
      StripKeepsOneLine(lines[0]);
      [Strip(lines[0])] + StripAll(lines[1..])
  }

  /** `tuple(path.strip() for path in file.readlines() if path)`. Every line
      `readlines` yields holds at least its terminator, so the `if path`
      filter keeps them all, and a blank line becomes an empty path. */
  function Parse(text: string): (r: seq<string>)
    ensures forall k :: 0 <= k < |r| ==> Trimmed(r[k]) && OneLine(r[k])
  {
    StripAll(Lines(text))
  }

  /** `load`: the parsed file, or nothing when opening it raises `OSError`. */
  function ReadPaths(file: Option<string>): (r: seq<string>)
    ensures file.None? ==> r == []
    ensures forall k :: 0 <= k < |r| ==> Trimmed(r[k]) && OneLine(r[k])
  {
    match file
    case None => []
    case Some(text) => Parse(text)
  }

  /** A line that is followed by `\n` is read back whole. */
  lemma {:induction false} LinesAfterLine(p: string, rest: string)
    requires OneLine(p)
    ensures Lines(p + "\n" + rest) == [p] + Lines(rest)
  {
    var text := p + "\n" + rest;
    LineLengthOfLine(p, '\n', rest);
    assert text[..|p|] == p;
    assert text[|p| + 1..] == rest;
  }

  /** A line that is followed by `\r\n` is read back whole, the two
      characters ending it together. */
  lemma {:induction false} LinesAfterCrLf(p: string, rest: string)
    requires OneLine(p)
    ensures Lines(p + "\r\n" + rest) == [p] + Lines(rest)
  {
    var text := p + "\r\n" + rest;
    assert text == p + ['\r'] + ("\n" + rest);
    LineLengthOfLine(p, '\r', "\n" + rest);
    assert text[..|p|] == p;
    assert text[|p| + 2..] == rest;
  }

  /** A line that is followed by a `\r` without a `\n` after it is read
      back whole. */
  lemma {:induction false} LinesAfterCr(p: string, rest: string)
    requires OneLine(p)
    requires rest == [] || rest[0] != '\n'
    ensures Lines(p + "\r" + rest) == [p] + Lines(rest)
  {
    var text := p + "\r" + rest;
    LineLengthOfLine(p, '\r', rest);
    assert text[..|p|] == p;
    assert text[|p| + 1..] == rest;
  }

  /** A last line without a terminator is read back whole. */
  lemma LinesOfLastLine(p: string)
    requires OneLine(p) && p != []
    ensures Lines(p) == [p]
  {
    assert LineLength(p + [] + []) == |p| by {
      LineLengthOfLine(p, '\n', []);
    }
    assert p + [] + [] == p && p[..|p|] == p && p[|p|..] == [];
  }

  /** All three line ends in one text. */
  lemma LinesMixedEnds()
    ensures Lines("a\r\nb\rc") == ["a", "b", "c"]
  {
    assert OneLine("a") && OneLine("b") && OneLine("c");
    LinesOfLastLine("c");
    assert "b\rc" == "b" + "\r" + "c";
    LinesAfterCr("b", "c");
    assert "a\r\nb\rc" == "a" + "\r\n" + "b\rc";
    LinesAfterCrLf("a", "b\rc");
  }

  lemma {:induction false} LineLengthOfLine(p: string, c: char, rest: string)
    requires OneLine(p) && IsLineBreak(c)
    ensures LineLength(p + [c] + rest) == |p|
    decreases |p|
  {
    if p != [] {
      assert (p + [c] + rest)[1..] == p[1..] + [c] + rest;
      LineLengthOfLine(p[1..], c, rest);
    }
  }

  /** Reading back the text `save` hands the writer, before newline
      translation, yields one line per path. */
  lemma {:induction false} LinesSerialize(paths: seq<string>)
    requires forall k :: 0 <= k < |paths| ==> OneLine(paths[k])
    ensures Lines(Serialize(paths)) == paths
    decreases |paths|
  {
    if paths != [] {
      LinesSerialize(paths[1..]);
      LinesAfterLine(paths[0], Serialize(paths[1..]));
      assert [paths[0]] + paths[1..] == paths;
    }
  }

  /** Stripping lines that are already trimmed changes nothing. */
  lemma StripAllTrimmed(lines: seq<string>)
    requires forall k :: 0 <= k < |lines| ==> Trimmed(lines[k])
    ensures StripAll(lines) == lines
  {
    forall k | 0 <= k < |lines|
      ensures StripAll(lines)[k] == lines[k]
    {
      StripFixesTrimmed(lines[k]);
    }
  }

  /** Loading the text `save` hands the writer gives back the same paths,
      provided none of them holds a line break or begins or ends with
      whitespace. */
  lemma ParseSerialize(paths: seq<string>)
    requires forall k :: 0 <= k < |paths| ==> OneLine(paths[k]) && Trimmed(paths[k])
    ensures Parse(Serialize(paths)) == paths
  {
    LinesSerialize(paths);
    StripAllTrimmed(paths);
  }

  /** The text-mode writer on Windows: each `\n` becomes `\r\n`. */
  function WindowsNewlines(s: string): string
  {
    if s == [] then []
    else (if s[0] == '\n' then "\r\n" else [s[0]]) + WindowsNewlines(s[1..])
  }

  lemma {:induction false} WindowsNewlinesAppend(a: string, b: string)
    ensures WindowsNewlines(a + b) == WindowsNewlines(a) + WindowsNewlines(b)
    decreases |a|
  {
    if a != [] {
      assert (a + b)[1..] == a[1..] + b;
      WindowsNewlinesAppend(a[1..], b);
    } else {
      assert a + b == b;
    }
  }

  lemma {:induction false} WindowsNewlinesOneLine(p: string)
    requires OneLine(p)
    ensures WindowsNewlines(p) == p
    decreases |p|
  {
    if p != [] {
      WindowsNewlinesOneLine(p[1..]);
      assert [p[0]] + p[1..] == p;
    }
  }

  /** Reading back what `save` wrote on Windows also yields one line per
      path: each `\r\n` ends a line as a whole. */
  lemma {:induction false} LinesWindowsSerialize(paths: seq<string>)
    requires forall k :: 0 <= k < |paths| ==> OneLine(paths[k])
    ensures Lines(WindowsNewlines(Serialize(paths))) == paths
    decreases |paths|
  {
    if paths != [] {
      var rest := Serialize(paths[1..]);
      LinesWindowsSerialize(paths[1..]);
      WindowsNewlinesAppend(paths[0] + "\n", rest);
      WindowsNewlinesAppend(paths[0], "\n");
      WindowsNewlinesOneLine(paths[0]);
      assert WindowsNewlines("\n") == "\r\n";
      LinesAfterCrLf(paths[0], WindowsNewlines(rest));
      assert [paths[0]] + paths[1..] == paths;
    }
  }

  /** The round trip survives the writer's newline translation: loading what
      `save` wrote on Windows gives back the same paths, under the same
      condition as `ParseSerialize`. */
  lemma ParseWindowsSerialize(paths: seq<string>)
    requires forall k :: 0 <= k < |paths| ==> OneLine(paths[k]) && Trimmed(paths[k])
    ensures Parse(WindowsNewlines(Serialize(paths))) == paths
  {
    LinesWindowsSerialize(paths);
    StripAllTrimmed(paths);
  }

  /** Whatever the file held, after one load and save the stored list
      reaches a fixed point: loading the saved list gives it back. */
  lemma LoadSaveLoadStable(file: Option<string>)
    ensures ReadPaths(Some(WindowsNewlines(Serialize(ReadPaths(file))))) == ReadPaths(file)
  {
    ParseWindowsSerialize(ReadPaths(file));
  }

  class PathsStorage {
    const filename: string
    /** `_paths`: the tuple held in memory. */
    var stored: seq<string>
    /** The text of `filename`, or `None` when it cannot be opened. */
    var file: Option<string>

    constructor (filename: string, file: Option<string>)
      ensures this.filename == filename && stored == [] && this.file == file
    {
      this.filename := filename;
      stored := [];
      this.file := file;
    }

    /** What the `paths` getter returns in this state: the stored tuple, or
        the file's contents when the stored tuple is empty. */
    function Current(): (r: seq<string>)
      reads this
      ensures stored != [] ==> r == stored
      ensures r == [] ==> stored == [] && (file.None? || Parse(file.value) == [])
    {
      if stored != [] then stored else ReadPaths(file)
    }

    method Load()
      modifies this`stored
      ensures stored == ReadPaths(file)
    {
      match file
      case None =>
        stored := [];
      case Some(text) =>
        stored := Parse(text);
    }

    method Save()
      modifies this`file
      ensures file == Some(WindowsNewlines(Serialize(stored)))
    {
      file := Some(WindowsNewlines(Serialize(stored)));
    }

    /** The `paths` getter: reloads only when the stored tuple is empty. */
    method GetPaths() returns (r: seq<string>)
      modifies this`stored
      ensures r == stored == old(Current())
      ensures old(stored) != [] ==> stored == old(stored)
    {
      if stored == [] {
        Load();
      }
      r := stored;
    }

    /** The `paths` setter: stores the tuple and saves it. */
    method SetPaths(value: seq<string>)
      modifies this
      ensures stored == value && file == Some(WindowsNewlines(Serialize(value)))
      ensures Current() == value
    {
      stored := value;
      Save();
    }
  }
}
