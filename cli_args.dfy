/** `CmdArgs::parse_args` of cli.hpp: the scan of the command-line flags,
    the collection of the file arguments after `-f`, and the extension
    filter that selects the files of the chosen mode. The file system is an
    input: what kind of file each path names, the entries of each directory
    and the non-directory entries a recursive walk of each directory finds,
    in the order the walk finds them. */
module CliArgs {
  import opened Wrappers

  datatype Mode = Invalid | Encrypt | Decrypt

  datatype Kind = Regular | Directory | Other

  datatype FileSystem = FileSystem(
    kind: string -> Kind,
    entries: string -> seq<string>,
    walk: string -> seq<string>)

  /** What the flag scan has found so far. */
  datatype Scan = Scan(mode: Mode, preserveSrc: bool, recursive: bool, verbose: bool, fileArgs: seq<string>)

  /** The parsed command line. */
  datatype CmdArgs = CmdArgs(files: seq<string>, preserveSrc: bool, verbose: bool, mode: Mode)

  /** The state before the first argument. */
  const Initial := Scan(Invalid, false, false, false, [])

  /** An argument whose first character is `-`. (The first character of an
      empty `std::string` is its terminating NUL.) */
  predicate Dash(a: string)
  {
    |a| > 0 && a[0] == '-'
  }

  /** `-e` or `-d`. */
  predicate ModeFlag(a: string)
  {
    a == "-e" || a == "-d"
  }

  /** The last component of a path. */
  function FileName(p: string): (n: string)
    ensures '/' !in n
  {
    if |p| == 0 || p[|p| - 1] == '/' then [] else FileName(p[..|p| - 1]) + [p[|p| - 1]]
  }

  /** `path.extension() == ".xrc"`: the file name ends in `.xrc` and that
      dot is not its first character (a name that starts with its only dot
      has no extension). */
  predicate IsXrc(p: string)
  {
    var n := FileName(p);
    |n| > 4 && n[|n| - 4..] == ".xrc"
  }

  /** The extension filter: `.xrc` files when decrypting, all others when
      encrypting, none in mode `Invalid`. */
  predicate Kept(mode: Mode, p: string)
  {
    (mode == Decrypt && IsXrc(p)) || (mode == Encrypt && !IsXrc(p))
  }

  /** Every path is kept by exactly one of the two modes, and by neither
      when the mode is invalid. */
  lemma KeptPartition(p: string)
    ensures Kept(Encrypt, p) != Kept(Decrypt, p)
    ensures !Kept(Invalid, p)
  {
  }

  /** The index where the file list after a `-f` ends: the first argument
      from `j` on that starts with `-`, or the end of the arguments. */
  function ListEnd(args: seq<string>, j: nat): (e: nat)
    requires j <= |args|
    ensures j <= e <= |args|
    ensures forall m :: j <= m < e ==> !Dash(args[m])
    ensures e < |args| ==> Dash(args[e])
    decreases |args| - j
  {
    if j == |args| || Dash(args[j]) then j else ListEnd(args, j + 1)
  }

  /** The scan from argument `i` on, `None` when it fails. */
  function ScanFrom(args: seq<string>, i: nat, st: Scan): Option<Scan>
    requires i <= |args|
    decreases |args| - i
  {
    if i == |args| then Some(st)
    else
      var a := args[i];
      var st := st.(preserveSrc := st.preserveSrc || a == "-p",
                    recursive := st.recursive || a == "-r",
                    verbose := st.verbose || a == "-v");
      if ModeFlag(a) then
        if st.mode != Invalid then None
        else ScanFrom(args, i + 1, st.(mode := if a == "-e" then Encrypt else Decrypt))
      else if a == "-f" then
        if i + 1 >= |args| then None
        else
          var e := ListEnd(args, i + 1);
          ScanFrom(args, e, st.(fileArgs := st.fileArgs + args[i + 1..e]))
      else ScanFrom(args, i + 1, st)
  }

  /** The entries of `s` that are regular files kept by the filter. */
  function Select(fs: FileSystem, mode: Mode, s: seq<string>): seq<string>
  {
    if |s| == 0 then []
    else
      var p := s[|s| - 1];
      Select(fs, mode, s[..|s| - 1]) + (if fs.kind(p) == Regular && Kept(mode, p) then [p] else [])
  }

  /** The files one file argument contributes: itself when it is a regular
      file that passes the filter, and when it is a directory the filtered
      files of its entries, or of its whole tree when recursing. */
  function Contribution(fs: FileSystem, mode: Mode, recursive: bool, p: string): seq<string>
  {
    (if fs.kind(p) == Regular && Kept(mode, p) then [p] else []) +
    (if fs.kind(p) == Directory then Select(fs, mode, if recursive then fs.walk(p) else fs.entries(p))
     else [])
  }

  /** The files of all file arguments, in order. */
  function Gather(fs: FileSystem, mode: Mode, recursive: bool, paths: seq<string>): seq<string>
  {
    if |paths| == 0 then []
    else Gather(fs, mode, recursive, paths[..|paths| - 1]) + Contribution(fs, mode, recursive, paths[|paths| - 1])
  }

  /** What `parse_args` returns: `None` (a null pointer) when the scan
      fails, when no file argument was given, or when no file passes the
      filter. */
  function ParseResult(args: seq<string>, fs: FileSystem): Option<CmdArgs>
  {
    match ScanFrom(args, 0, Initial)
    case None => None
    case Some(st) =>
      if |st.fileArgs| == 0 then None
      else
        var files := Gather(fs, st.mode, st.recursive, st.fileArgs);
        if |files| == 0 then None else Some(CmdArgs(files, st.preserveSrc, st.verbose, st.mode))
  }

  /** `parse_args`: one pass over the arguments, `-f` collecting the
      arguments up to the next flag, then the filter over the collected
      paths. */
  method ParseArgs(args: seq<string>, fs: FileSystem) returns (r: Option<CmdArgs>)
    ensures r == ParseResult(args, fs)
  {
    var mode := Invalid;
    var preserveSrc, recursive, verbose := false, false, false;
    var fileArgs: seq<string> := [];
    var i := 0;
    while i < |args|
      invariant i <= |args|
      invariant ScanFrom(args, 0, Initial) == ScanFrom(args, i, Scan(mode, preserveSrc, recursive, verbose, fileArgs))
      decreases |args| - i
    {
      if args[i] == "-p" { preserveSrc := true; }
      if args[i] == "-r" { recursive := true; }
      if args[i] == "-v" { verbose := true; }
      if args[i] == "-e" {
        if mode != Invalid {
          return None;
        }
        mode := Encrypt;
      }
      if args[i] == "-d" {
        if mode != Invalid {
          return None;
        }
        mode := Decrypt;
      }
      if args[i] == "-f" {
        if i + 1 >= |args| {
          return None;
        }
        i, fileArgs := CollectList(args, i + 1, fileArgs);
        i := i - 1;
      }
      i := i + 1;
    }
    if |fileArgs| == 0 {
      return None;
    }
    var files := GatherFiles(fs, mode, recursive, fileArgs);
    if |files| == 0 {
      return None;
    }
    r := Some(CmdArgs(files, preserveSrc, verbose, mode));
  }

  /** The inner loop of `-f`: the arguments from `start` up to the next
      one that starts with `-` are appended to the file arguments. */
  method CollectList(args: seq<string>, start: nat, fileArgs: seq<string>) returns (e: nat, r: seq<string>)
    requires start <= |args|
    ensures e == ListEnd(args, start) && r == fileArgs + args[start..e]
  {
    e, r := start, fileArgs;
    while e < |args| && !Dash(args[e])
      invariant start <= e <= |args| && ListEnd(args, start) == ListEnd(args, e)
      invariant r == fileArgs + args[start..e]
      decreases |args| - e
    {
      r := r + [args[e]];
      e := e + 1;
    }
  }

  /** The loop over the collected paths. */
  method GatherFiles(fs: FileSystem, mode: Mode, recursive: bool, paths: seq<string>) returns (files: seq<string>)
    ensures files == Gather(fs, mode, recursive, paths)
  {
    files := [];
    for j := 0 to |paths|
      invariant files == Gather(fs, mode, recursive, paths[..j])
    {
      GatherNext(fs, mode, recursive, paths, j);
      files := GatherOne(fs, mode, recursive, files, paths[j]);
    }
    assert paths[..|paths|] == paths;
  }

  /** One collected path: a regular file that passes the filter, or the
      files under a directory. */
  method GatherOne(fs: FileSystem, mode: Mode, recursive: bool, files: seq<string>, path: string)
    returns (r: seq<string>)
    ensures r == files + Contribution(fs, mode, recursive, path)
  {
    r := files;
    if fs.kind(path) == Regular {
      if Kept(mode, path) {
        r := r + [path];
      }
    }
    if fs.kind(path) == Directory {
      var found := if recursive then fs.walk(path) else fs.entries(path);
      r := SelectInto(fs, mode, r, found);
    }
  }

  /** One more collected path. */
  lemma GatherNext(fs: FileSystem, mode: Mode, recursive: bool, paths: seq<string>, j: nat)
    requires j < |paths|
    ensures Gather(fs, mode, recursive, paths[..j + 1])
            == Gather(fs, mode, recursive, paths[..j]) + Contribution(fs, mode, recursive, paths[j])
  {
    assert paths[..j + 1][..j] == paths[..j];
  }

  /** The loop over the entries of a directory (or of its tree): skips
      directories and keeps the regular files that pass the filter. */
  method SelectInto(fs: FileSystem, mode: Mode, files: seq<string>, found: seq<string>) returns (r: seq<string>)
    ensures r == files + Select(fs, mode, found)
  {
    r := files;
    for j := 0 to |found|
      invariant r == files + Select(fs, mode, found[..j])
    {
      var entry := found[j];
      assert found[..j + 1][..j] == found[..j];
      if fs.kind(entry) == Directory {
        continue;
      }
      if fs.kind(entry) == Regular && Kept(mode, entry) {
        r := r + [entry];
      }
    }
    assert found[..|found|] == found;
  }

  /** The filter keeps only regular files of the mode. */
  lemma {:induction false} SelectKept(fs: FileSystem, mode: Mode, s: seq<string>)
    ensures forall f :: f in Select(fs, mode, s) ==> fs.kind(f) == Regular && Kept(mode, f)
  {
    if |s| > 0 {
      SelectKept(fs, mode, s[..|s| - 1]);
    }
  }

  /** Every gathered file is a regular file the filter keeps. */
  lemma {:induction false} GatherKept(fs: FileSystem, mode: Mode, recursive: bool, paths: seq<string>)
    ensures forall f :: f in Gather(fs, mode, recursive, paths) ==> fs.kind(f) == Regular && Kept(mode, f)
  {
    if |paths| > 0 {
      var p := paths[|paths| - 1];
      GatherKept(fs, mode, recursive, paths[..|paths| - 1]);
      SelectKept(fs, mode, if recursive then fs.walk(p) else fs.entries(p));
    }
  }

  /** A successful parse names at least one file, has a valid mode, and
      every file it names is a regular file of that mode: with no `-e` or
      `-d` the filter keeps nothing and the parse fails with "No file(s)
      found". */
  lemma ParsedFiles(args: seq<string>, fs: FileSystem)
    requires ParseResult(args, fs).Some?
    ensures var c := ParseResult(args, fs).value;
            |c.files| > 0 && c.mode != Invalid &&
            forall f :: f in c.files ==> fs.kind(f) == Regular && Kept(c.mode, f)
  {
    var st := ScanFrom(args, 0, Initial).value;
    GatherKept(fs, st.mode, st.recursive, st.fileArgs);
    var files := Gather(fs, st.mode, st.recursive, st.fileArgs);
    assert files[0] in files;
    KeptPartition(files[0]);
  }

  /** The number of mode flags from argument `i` on. */
  function ModeFlagsFrom(args: seq<string>, i: nat): nat
    requires i <= |args|
    decreases |args| - i
  {
    if i == |args| then 0 else (if ModeFlag(args[i]) then 1 else 0) + ModeFlagsFrom(args, i + 1)
  }

  /** A stretch of arguments none of which starts with `-` holds no mode
      flag. */
  lemma {:induction false} NoFlagsBetween(args: seq<string>, j: nat, e: nat)
    requires j <= e <= |args|
    requires forall m :: j <= m < e ==> !Dash(args[m])
    ensures ModeFlagsFrom(args, j) == ModeFlagsFrom(args, e)
    decreases e - j
  {
    if j < e {
      NoFlagsBetween(args, j + 1, e);
    }
  }

  /** The scan sees every mode flag (the file lists after `-f` hold none),
      so a scan that succeeds has met at most one, and met one exactly when
      it ends with a valid mode; the flag it met is the one of that mode. */
  lemma {:induction false} ScanModes(args: seq<string>, i: nat, st: Scan)
    requires i <= |args| && ScanFrom(args, i, st).Some?
    ensures var r := ScanFrom(args, i, st).value;
            if st.mode != Invalid then ModeFlagsFrom(args, i) == 0 && r.mode == st.mode
            else ModeFlagsFrom(args, i) <= 1 && (r.mode == Invalid <==> ModeFlagsFrom(args, i) == 0) &&
                 (r.mode == Encrypt ==> "-e" in args[i..]) && (r.mode == Decrypt ==> "-d" in args[i..])
    decreases |args| - i
  {
    if i < |args| {
      var a := args[i];
      var st' := st.(preserveSrc := st.preserveSrc || a == "-p",
                     recursive := st.recursive || a == "-r",
                     verbose := st.verbose || a == "-v");
      assert args[i..][0] == a && args[i..][1..] == args[i + 1..];
      if ModeFlag(a) {
        ScanModes(args, i + 1, st'.(mode := if a == "-e" then Encrypt else Decrypt));
      } else if a == "-f" {
        var e := ListEnd(args, i + 1);
        ScanModes(args, e, st'.(fileArgs := st'.fileArgs + args[i + 1..e]));
        NoFlagsBetween(args, i + 1, e);
        assert args[e..] == args[i..][e - i..];
      } else {
        ScanModes(args, i + 1, st');
      }
    }
  }

  /** A second `-e` or `-d` anywhere makes the parse fail; a successful one
      met exactly one mode flag, of its own mode. */
  lemma ModeFlagsOnce(args: seq<string>, fs: FileSystem)
    ensures ModeFlagsFrom(args, 0) >= 2 ==> ParseResult(args, fs) == None
    ensures ParseResult(args, fs).Some? ==>
              ModeFlagsFrom(args, 0) == 1 &&
              (if ParseResult(args, fs).value.mode == Encrypt then "-e" else "-d") in args
  {
    if ScanFrom(args, 0, Initial).Some? {
      ScanModes(args, 0, Initial);
      assert args[0..] == args;
      if ParseResult(args, fs).Some? {
        ParsedFiles(args, fs);
      }
    }
  }

  /** Once the scan is at or before a final `-f`, it fails: the file list
      of an earlier `-f` stops at it, and at it there is no argument left. */
  lemma {:induction false} LastFileFlagFails(args: seq<string>, i: nat, st: Scan)
    requires |args| > 0 && args[|args| - 1] == "-f" && i < |args|
    ensures ScanFrom(args, i, st) == None
    decreases |args| - i
  {
    var a := args[i];
    var st' := st.(preserveSrc := st.preserveSrc || a == "-p",
                   recursive := st.recursive || a == "-r",
                   verbose := st.verbose || a == "-v");
    if ModeFlag(a) {
      if st'.mode == Invalid {
        LastFileFlagFails(args, i + 1, st'.(mode := if a == "-e" then Encrypt else Decrypt));
      }
    } else if a == "-f" {
      if i + 1 < |args| {
        var e := ListEnd(args, i + 1);
        LastFileFlagFails(args, e, st'.(fileArgs := st'.fileArgs + args[i + 1..e]));
      }
    } else {
      LastFileFlagFails(args, i + 1, st');
    }
  }

  /** `-f` as the last argument makes the parse fail. */
  lemma LastFileFlag(args: seq<string>, fs: FileSystem)
    requires |args| > 0 && args[|args| - 1] == "-f"
    ensures ParseResult(args, fs) == None
  {
    LastFileFlagFails(args, 0, Initial);
  }

  /** The collected file arguments are the arguments after each `-f` up to
      the next one starting with `-`: none of them starts with `-`. */
  lemma {:induction false} FileArgsUndashed(args: seq<string>, i: nat, st: Scan)
    requires i <= |args| && ScanFrom(args, i, st).Some?
    requires forall f :: f in st.fileArgs ==> !Dash(f)
    ensures forall f :: f in ScanFrom(args, i, st).value.fileArgs ==> !Dash(f)
    decreases |args| - i
  {
    if i < |args| {
      var a := args[i];
      var st' := st.(preserveSrc := st.preserveSrc || a == "-p",
                     recursive := st.recursive || a == "-r",
                     verbose := st.verbose || a == "-v");
      if ModeFlag(a) {
        FileArgsUndashed(args, i + 1, st'.(mode := if a == "-e" then Encrypt else Decrypt));
      } else if a == "-f" {
        var e := ListEnd(args, i + 1);
        FileArgsUndashed(args, e, st'.(fileArgs := st'.fileArgs + args[i + 1..e]));
      } else {
        FileArgsUndashed(args, i + 1, st');
      }
    }
  }
}
