/** `get_program_for_file`: the command line that opens a managed file.
    Shortcuts (`.lnk`, `.url`) go through `cmd.exe /C start`; any other
    extension uses the "open" command registered for it, with the file's
    path put in place of `%1`/`%l`/`%L` and every token that still asks for
    further arguments (`%*`, `%2` … `%9`) dropped. */
module OpenCommand {
  import opened Wrappers
  import opened Text

  /** What the host answers for the launcher. Each field stands for a library
      or OS call whose workings are not part of this model:
      `splitExt` is `os.path.splitext(p)[1]`, `normPath` is `os.path.normpath`,
      `dirName` is `os.path.dirname`, `pathExists` is `os.path.exists`, and
      `openCommand(ext)` is the two `HKEY_CLASSES_ROOT` lookups for `ext`
      followed by `shlex.split` of the command found, `None` when any of them
      raises. */
  datatype Host = Host(
    splitExt: string -> string,
    normPath: string -> string,
    dirName: string -> string,
    pathExists: string -> bool,
    openCommand: string -> Option<seq<string>>)

  /** The fixed command line for a shortcut. */
  function ShortcutCommand(appPath: string): string
  {
    "cmd.exe /C start \"\" \"" + appPath + "\""
  }

  /** The guard of the rewriting loop: `"%1" in arg or "%l" in arg.lower()`. */
  predicate HasFilePlaceholder(arg: string)
  {
    Contains(arg, "%1") || Contains(Lower(arg), "%l")
  }

  /** `arg.replace("%1", p).replace("%l", p).replace("%L", p)`. */
  function Substitute(arg: string, appPath: string): string
  {
    Replace(Replace(Replace(arg, "%1", appPath), "%l", appPath), "%L", appPath)
  }

  /** The tokens after the rewriting loop: every token substituted. */
  function SubstituteAll(args: seq<string>, appPath: string): seq<string>
  {
    seq(|args|, k requires 0 <= k < |args| => Substitute(args[k], appPath))
  }

  predicate IsMultiArgChar(c: char)
  {
    c == '*' || '2' <= c <= '9'
  }

  /** `re.search(r'(?<!%)%(\*|[2-9])', arg)` finds a match: a `%` that does not
      follow another `%` and is followed by `*` or a digit from 2 to 9. */
  predicate HasMultiArgPlaceholder(arg: string)
  {
    exists i :: 1 <= i < |arg| && arg[i - 1] == '%' && IsMultiArgChar(arg[i])
                && (i == 1 || arg[i - 2] != '%')
  }

  /** `[arg for arg in args if not re.search(...)]`. */
  function Kept(args: seq<string>): (r: seq<string>)
    ensures |r| <= |args|
    ensures forall t :: t in r <==> t in args && !HasMultiArgPlaceholder(t)
  {
    if args == [] then []
    else (if HasMultiArgPlaceholder(args[0]) then [] else [args[0]]) + Kept(args[1..])
  }

  /** What `get_program_for_file(filename)` returns. The extension test is
      case-sensitive, so `.LNK` goes to the registry like any other. */
  function ProgramFor(host: Host, filename: string): (r: Option<string>)
    ensures r.None? <==> host.splitExt(filename) !in {".lnk", ".url"}
                         && host.openCommand(host.splitExt(filename)).None?
  {
    var extension := host.splitExt(filename);
    var appPath := host.normPath(filename);
    if extension == ".lnk" || extension == ".url" then Some(ShortcutCommand(appPath))
    else match host.openCommand(extension)
      case None => None
      case Some(args) => Some(Join(Kept(SubstituteAll(args, appPath))))
  }

  /** `get_program_for_file`, rewriting the token list in place as the source does. */
  method GetProgramForFile(host: Host, filename: string) returns (r: Option<string>)
    ensures r == ProgramFor(host, filename)
  {
    var extension := host.splitExt(filename);
    var appPath := host.normPath(filename);
    if extension == ".lnk" || extension == ".url" {
      return Some(ShortcutCommand(appPath));
    }
    var found := host.openCommand(extension);
    if found.None? {
      return None;
    }
    var args := found.value;
    var i := 0;
    while i < |args|
      invariant 0 <= i <= |args| == |found.value|
      invariant forall k :: 0 <= k < i ==> args[k] == Substitute(found.value[k], appPath)
      invariant forall k :: i <= k < |args| ==> args[k] == found.value[k]
    {
      var arg := args[i];
      if HasFilePlaceholder(arg) {
        args := args[i := Replace(Replace(Replace(arg, "%1", appPath), "%l", appPath), "%L", appPath)];
      } else {
        SubstituteWithoutPlaceholder(arg, appPath);
      }
      i := i + 1;
    }
    assert args == SubstituteAll(found.value, appPath);
    args := Kept(args);
    return Some(Join(args));
  }

  /** `get_program_for_file(path) or path`: the expansion, unless it is `None`
      or the empty string, in which case the raw path. */
  function Executable(host: Host, path: string): (r: string)
    ensures ProgramFor(host, path) in {None, Some("")} ==> r == path
    ensures ProgramFor(host, path) !in {None, Some("")} ==> ProgramFor(host, path) == Some(r)
    ensures r == "" ==> path == ""
  {
    match ProgramFor(host, path)
    case Some(command) => if command != "" then command else path
    case None => path
  }

  /** A shortcut's command line depends only on its extension and normalised
      path: the registry is never consulted. */
  lemma ShortcutIgnoresRegistry(h1: Host, h2: Host, filename: string)
    requires h1.splitExt(filename) in {".lnk", ".url"}
    requires h2.splitExt(filename) == h1.splitExt(filename)
    requires h2.normPath(filename) == h1.normPath(filename)
    ensures ProgramFor(h1, filename) == ProgramFor(h2, filename)
                                     == Some(ShortcutCommand(h1.normPath(filename)))
  {
  }

  /** The guard is exactly "holds `%1`, `%l` or `%L`", and a token it rejects
      is one the substitution would leave unchanged: the guard changes nothing. */
  lemma SubstituteWithoutPlaceholder(arg: string, appPath: string)
    ensures HasFilePlaceholder(arg) <==> Contains(arg, "%1") || Contains(arg, "%l") || Contains(arg, "%L")
    ensures !HasFilePlaceholder(arg) ==> Substitute(arg, appPath) == arg
  {
    LowerFindsEitherCase(arg);
    if !HasFilePlaceholder(arg) {
      ReplaceAbsent(arg, "%1", appPath);
      ReplaceAbsent(arg, "%l", appPath);
      ReplaceAbsent(arg, "%L", appPath);
    }
  }

  /** A path with no `%` that does not begin with `1`, `l` or `L` leaves no
      file placeholder in any substituted token, so a second pass of the loop
      would change nothing. */
  lemma SubstituteLeavesNoPlaceholder(arg: string, appPath: string)
    requires |appPath| > 0 && '%' !in appPath && appPath[0] !in {'1', 'l', 'L'}
    ensures !Contains(Substitute(arg, appPath), "%1")
    ensures !Contains(Substitute(arg, appPath), "%l")
    ensures !Contains(Substitute(arg, appPath), "%L")
    ensures !HasFilePlaceholder(Substitute(arg, appPath))
  {
    var s1 := Replace(arg, "%1", appPath);
    var s2 := Replace(s1, "%l", appPath);
    var s3 := Replace(s2, "%L", appPath);
    ReplaceLeavesNoPair(arg, '%', '1', '1', appPath);
    ReplaceLeavesNoPair(s1, '%', 'l', '1', appPath);
    ReplaceLeavesNoPair(s1, '%', 'l', 'l', appPath);
    ReplaceLeavesNoPair(s2, '%', 'L', '1', appPath);
    ReplaceLeavesNoPair(s2, '%', 'L', 'l', appPath);
    ReplaceLeavesNoPair(s2, '%', 'L', 'L', appPath);
    SubstituteWithoutPlaceholder(s3, appPath);
  }

  /** Without the condition on the path's first character a placeholder can
      reappear: the `%` of `%%1` meets the `1` that begins the path. */
  lemma PlaceholderCanReappear()
    ensures Substitute("%%1", "1.txt") == "%1.txt"
    ensures Contains(Substitute("%%1", "1.txt"), "%1")
  {
    assert Replace("%%1", "%1", "1.txt") == "%1.txt" by {
      assert "%%1"[..2] != "%1" && "%%1"[1..] == "%1";
      assert Replace("%1", "%1", "1.txt") == "1.txt" + Replace("", "%1", "1.txt");
    }
    assert !Contains("%1.txt", "%l") && !Contains("%1.txt", "%L") by {
      assert "%1.txt"[1..] == "1.txt";
      WithoutMarkNoPair("1.txt", '%', 'l');
      WithoutMarkNoPair("1.txt", '%', 'L');
    }
    ReplaceAbsent("%1.txt", "%l", "1.txt");
    ReplaceAbsent("%1.txt", "%L", "1.txt");
  }

  /** The filter keeps the surviving tokens in their original order. */
  lemma {:induction false} KeptAppend(a: seq<string>, b: seq<string>)
    ensures Kept(a + b) == Kept(a) + Kept(b)
    decreases |a|
  {
    if a != [] {
      assert (a + b)[1..] == a[1..] + b;
      KeptAppend(a[1..], b);
    } else {
      assert a + b == b;
    }
  }

  /** How the look-behind reads: `%*` and `%2` ask for further arguments,
      `%%2` is an escaped percent sign and `%1` is the file placeholder. */
  lemma MultiArgPlaceholderExamples()
    ensures HasMultiArgPlaceholder("%*")
    ensures HasMultiArgPlaceholder("/x%2")
    ensures !HasMultiArgPlaceholder("%%2")
    ensures !HasMultiArgPlaceholder("%1")
  {
    assert "%*"[0] == '%' && IsMultiArgChar("%*"[1]);
    assert "/x%2"[2] == '%' && IsMultiArgChar("/x%2"[3]) && "/x%2"[1] != '%';
  }

  /** A token is dropped only when it holds `%*` or `%2` … `%9`; and a `%`
      that follows another `%` never counts. */
  lemma MultiArgNeedsPair(arg: string, c: char)
    requires IsMultiArgChar(c)
    ensures HasMultiArgPlaceholder(arg) ==> exists d :: IsMultiArgChar(d) && Contains(arg, ['%', d])
    ensures HasMultiArgPlaceholder(['%', c])
    ensures !HasMultiArgPlaceholder(['%', '%', c])
  {
    if HasMultiArgPlaceholder(arg) {
      var i :| 1 <= i < |arg| && arg[i - 1] == '%' && IsMultiArgChar(arg[i])
                && (i == 1 || arg[i - 2] != '%');
      ContainsMeans(arg, ['%', arg[i]]);
      assert OccursAt(arg, ['%', arg[i]], i - 1);
    }
    assert ['%', c][0] == '%' && IsMultiArgChar(['%', c][1]);
  }

  /** When no kept token holds a space, the command line splits on spaces
      into exactly the kept tokens, in order. */
  lemma CommandLineSplitsBack(host: Host, filename: string, args: seq<string>)
    requires host.splitExt(filename) !in {".lnk", ".url"}
    requires host.openCommand(host.splitExt(filename)) == Some(args)
    requires var kept := Kept(SubstituteAll(args, host.normPath(filename)));
             |kept| >= 1 && forall k :: 0 <= k < |kept| ==> ' ' !in kept[k]
    ensures ProgramFor(host, filename).Some?
    ensures SplitOnSpace(ProgramFor(host, filename).value)
            == Kept(SubstituteAll(args, host.normPath(filename)))
  {
    SplitJoin(Kept(SubstituteAll(args, host.normPath(filename))));
  }

  /** The join puts no quotes back, so a path holding a space reaches the
      command line as two arguments. */
  lemma SpaceInPathSplitsArgument()
    ensures Join(Kept(SubstituteAll(["x", "%1"], "a b"))) == "x a b"
    ensures SplitOnSpace("x a b") == ["x", "a", "b"]
  {
    CommandLineExample();
    SplitExample();
  }

  lemma CommandLineExample()
    ensures Join(Kept(SubstituteAll(["x", "%1"], "a b"))) == "x a b"
  {
    var subst := SubstituteAll(["x", "%1"], "a b");
    SubstituteExample();
    assert subst == ["x", "a b"];
    KeptExample();
    assert ["x", "a b"][1..] == ["a b"];
  }

  lemma SplitExample()
    ensures SplitOnSpace("x a b") == ["x", "a", "b"]
  {
    SplitWithoutSpace("b");
    SplitAfterToken("a", "b");
    assert "a" + " " + "b" == "a b";
    SplitAfterToken("x", "a b");
    assert "x" + " " + "a b" == "x a b";
  }

  lemma SubstituteExample()
    ensures Substitute("%1", "a b") == "a b"
    ensures Substitute("x", "a b") == "x"
  {
    assert Replace("%1", "%1", "a b") == "a b" + Replace("", "%1", "a b");
    WithoutMarkNoPair("a b", '%', 'l');
    WithoutMarkNoPair("a b", '%', 'L');
    ReplaceAbsent("a b", "%l", "a b");
    ReplaceAbsent("a b", "%L", "a b");
    WithoutMarkNoPair("x", '%', '1');
    WithoutMarkNoPair("x", '%', 'l');
    WithoutMarkNoPair("x", '%', 'L');
    ReplaceAbsent("x", "%1", "a b");
    ReplaceAbsent("x", "%l", "a b");
    ReplaceAbsent("x", "%L", "a b");
  }

  lemma KeptExample()
    ensures Kept(["x", "a b"]) == ["x", "a b"]
  {
    assert !HasMultiArgPlaceholder("x");
    assert !HasMultiArgPlaceholder("a b") by {
      assert "a b"[0] != '%' && "a b"[1] != '%';
    }
    assert ["x", "a b"][1..] == ["a b"];
    assert ["a b"][1..] == [];
  }
}
