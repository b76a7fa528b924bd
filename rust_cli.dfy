/** `CliArgs` of src/cli.rs: the mode check, the `-j` parse and the job
    count of `parse_args`, the file listing of `list_files` and
    `recursive_itr_dirs`, and the round-robin split of the files into one
    list per job in `get_paths`. The file system is an input, as in the
    cli.hpp model, and so is `absolutize`: the function `abs` from a path
    to the absolute path it names, under which the file is inserted into
    the `HashMap`. The order in which a `HashMap` yields its keys is
    unspecified, so the listed files are a set. */
module RustCli {
  import opened Wrappers
  import CliArgs
  import RustJob
  import RustMain
  import opened Bits

  /** The filter on a directory entry: without an extension it is taken
      only when encrypting; with one, when encrypting and the extension is
      not "xrc", or when decrypting and it is. */
  predicate Included(encrypt: bool, p: string)
  {
    match RustJob.Extension(CliArgs.FileName(p))
    case None => encrypt
    case Some(e) => if encrypt then e != RustJob.Xrc else e == RustJob.Xrc
  }

  /** Every entry is taken by exactly one of the two modes. */
  lemma IncludedPartition(p: string)
    ensures Included(true, p) != Included(false, p)
  {
  }

  /** `Path::extension` is "xrc" exactly when the name ends in ".xrc" and
      is longer than that. */
  lemma XrcExtension(n: string)
    ensures RustJob.Extension(n) == Some(RustJob.Xrc) <==> |n| > 4 && n[|n| - 4..] == RustJob.DotXrc
  {
    if |n| > 4 && n[|n| - 4..] == RustJob.DotXrc {
      var i := |n| - 4;
      assert n[i] == '.' && n[i + 1..] == RustJob.Xrc;
      RustJob.LastDotIs(n, i);
    }
    if RustJob.Extension(n) == Some(RustJob.Xrc) {
      var i := RustJob.LastDot(n).value;
      assert n[i + 1..] == RustJob.Xrc;
      assert n[|n| - 4..] == [n[i]] + n[i + 1..];
    }
  }

  /** The Rust filter selects the same files as the extension filter of
      cli.hpp in the corresponding mode. */
  lemma IncludedAsCpp(p: string)
    ensures Included(true, p) == CliArgs.Kept(CliArgs.Encrypt, p)
    ensures Included(false, p) == CliArgs.Kept(CliArgs.Decrypt, p)
  {
    XrcExtension(CliArgs.FileName(p));
  }

  /** The entries a directory argument is listed from: those `read_dir`
      gives, or the non-directory entries the breadth-first walk of
      `recursive_itr_dirs` meets. */
  function Found(fs: CliArgs.FileSystem, recursive: bool, d: string): seq<string>
  {
    if recursive then fs.walk(d) else fs.entries(d)
  }

  /** An entry the entry loop inserts: a regular file that passes the filter. */
  predicate Takes(fs: CliArgs.FileSystem, encrypt: bool, e: string)
  {
    fs.kind(e) == CliArgs.Regular && Included(encrypt, e)
  }

  /** The absolute paths of the entries of `s` the entry loop inserts. */
  function Selected(fs: CliArgs.FileSystem, abs: string -> string, encrypt: bool, s: seq<string>): set<string>
  {
    if |s| == 0 then {}
    else
      var e := s[|s| - 1];
      Selected(fs, abs, encrypt, s[..|s| - 1]) + (if Takes(fs, encrypt, e) then {abs(e)} else {})
  }

  /** A path is selected exactly when it is the absolute path of an entry
      that is a regular file and passes the filter. */
  lemma {:induction false} SelectedMembers(fs: CliArgs.FileSystem, abs: string -> string, encrypt: bool,
                                           s: seq<string>, x: string)
    ensures x in Selected(fs, abs, encrypt, s) <==> exists e :: e in s && Takes(fs, encrypt, e) && abs(e) == x
  {
    if |s| > 0 {
      var init, last := s[..|s| - 1], s[|s| - 1];
      SelectedMembers(fs, abs, encrypt, init, x);
      assert s == init + [last];
      if x in Selected(fs, abs, encrypt, s) {
        if x in Selected(fs, abs, encrypt, init) {
          var e :| e in init && Takes(fs, encrypt, e) && abs(e) == x;
          assert e in s;
        } else {
          assert last in s && Takes(fs, encrypt, last) && abs(last) == x;
        }
      } else {
        forall e | e in s
          ensures !(Takes(fs, encrypt, e) && abs(e) == x)
        {
          if e != last {
            assert e in init;
          }
        }
      }
    }
  }

  /** What one argument adds to the map: a regular file its own absolute
      path, whatever its extension; a directory its selected entries; any
      other path (its metadata cannot be read) nothing. */
  function PathFiles(fs: CliArgs.FileSystem, abs: string -> string, recursive: bool, encrypt: bool, p: string): set<string>
  {
    if fs.kind(p) == CliArgs.Regular then {abs(p)}
    else if fs.kind(p) == CliArgs.Directory then Selected(fs, abs, encrypt, Found(fs, recursive, p))
    else {}
  }

  /** The keys of the `HashMap` `list_files` fills from the arguments. */
  function Listed(fs: CliArgs.FileSystem, abs: string -> string, paths: seq<string>, recursive: bool, encrypt: bool): set<string>
  {
    if |paths| == 0 then {}
    else
      Listed(fs, abs, paths[..|paths| - 1], recursive, encrypt) + PathFiles(fs, abs, recursive, encrypt, paths[|paths| - 1])
  }

  /** A path is listed exactly when it is the absolute path of an argument
      that is a regular file, or of a filtered regular file of an argument
      that is a directory. Being a set of absolute paths, the list holds
      each file once however many arguments name it. */
  lemma {:induction false} ListFilesMembers(fs: CliArgs.FileSystem, abs: string -> string, paths: seq<string>,
                                            recursive: bool, encrypt: bool, x: string)
    ensures x in Listed(fs, abs, paths, recursive, encrypt) <==>
              (exists p :: p in paths && fs.kind(p) == CliArgs.Regular && abs(p) == x) ||
              (exists d, e :: d in paths && fs.kind(d) == CliArgs.Directory && e in Found(fs, recursive, d) &&
                              Takes(fs, encrypt, e) && abs(e) == x)
  {
    if |paths| > 0 {
      var init, last := paths[..|paths| - 1], paths[|paths| - 1];
      ListFilesMembers(fs, abs, init, recursive, encrypt, x);
      SelectedMembers(fs, abs, encrypt, Found(fs, recursive, last), x);
      assert paths == init + [last];
      if x in Listed(fs, abs, init, recursive, encrypt) {
        if exists p :: p in init && fs.kind(p) == CliArgs.Regular && abs(p) == x {
          var p :| p in init && fs.kind(p) == CliArgs.Regular && abs(p) == x;
          assert p in paths;
        } else {
          var d, e :| d in init && fs.kind(d) == CliArgs.Directory && e in Found(fs, recursive, d) &&
                      Takes(fs, encrypt, e) && abs(e) == x;
          assert d in paths;
        }
      } else if x in PathFiles(fs, abs, recursive, encrypt, last) {
        assert last in paths;
        if fs.kind(last) != CliArgs.Regular {
          var e :| e in Found(fs, recursive, last) && Takes(fs, encrypt, e) && abs(e) == x;
        }
      } else {
        forall p | p in paths
          ensures !(fs.kind(p) == CliArgs.Regular && abs(p) == x)
        {
          if p != last {
            assert p in init;
          }
        }
        forall d, e | d in paths && e in Found(fs, recursive, d)
          ensures !(fs.kind(d) == CliArgs.Directory && Takes(fs, encrypt, e) && abs(e) == x)
        {
          if d != last {
            assert d in init;
          }
        }
      }
    }
  }

  /** Two arguments naming the same file, such as `a` and `./a`, give one
      entry: its absolute path. */
  lemma AliasesOnce(fs: CliArgs.FileSystem, abs: string -> string, p: string, q: string, recursive: bool, encrypt: bool)
    requires fs.kind(p) == CliArgs.Regular && fs.kind(q) == CliArgs.Regular && abs(p) == abs(q)
    ensures Listed(fs, abs, [p, q], recursive, encrypt) == {abs(p)}
  {
    assert [p, q][..1] == [p];
    assert [p][..0] == [];
    assert Listed(fs, abs, [p], recursive, encrypt) == {abs(p)};
  }

  /** `list_files`: each argument in turn, a regular file inserted under
      its absolute path, a directory through the entry loop, over its
      `read_dir` entries or, when recursing, over its walk. */
  method ListFiles(fs: CliArgs.FileSystem, abs: string -> string, paths: seq<string>, recursive: bool, encrypt: bool)
    returns (files: set<string>)
    ensures files == Listed(fs, abs, paths, recursive, encrypt)
  {
    files := {};
    for i := 0 to |paths|
      invariant files == Listed(fs, abs, paths[..i], recursive, encrypt)
    {
      var path := paths[i];
      assert paths[..i + 1][..i] == paths[..i];
      if fs.kind(path) == CliArgs.Regular {
        files := files + {abs(path)};
      } else if fs.kind(path) == CliArgs.Directory {
        files := InsertEntries(fs, abs, encrypt, Found(fs, recursive, path), files);
      }
    }
    assert paths[..|paths|] == paths;
  }

  /** The entry loop of `list_files` and of `recursive_itr_dirs`: a
      directory entry is skipped; a regular file is inserted under its
      absolute path when it has no extension and the mode is encrypt, when
      its extension is not "xrc" and the mode is encrypt, or when its
      extension is "xrc" and the mode is decrypt. */
  method InsertEntries(fs: CliArgs.FileSystem, abs: string -> string, encrypt: bool, found: seq<string>, files: set<string>)
    returns (r: set<string>)
    ensures r == files + Selected(fs, abs, encrypt, found)
  {
    r := files;
    for j := 0 to |found|
      invariant r == files + Selected(fs, abs, encrypt, found[..j])
    {
      var entry := found[j];
      assert found[..j + 1][..j] == found[..j];
      if fs.kind(entry) == CliArgs.Directory {
        continue;
      }
      if fs.kind(entry) == CliArgs.Regular {
        var extension := RustJob.Extension(CliArgs.FileName(entry));
        if extension == None {
          if encrypt {
            r := r + {abs(entry)};
          }
          continue;
        }
        if encrypt && extension.value != RustJob.Xrc {
          r := r + {abs(entry)};
          continue;
        }
        if !encrypt && extension.value == RustJob.Xrc {
          r := r + {abs(entry)};
        }
      }
    }
    assert found[..|found|] == found;
  }

  /** A regular file named on the command line is listed whatever its
      name; one of the wrong mode (its absolute path ends in ".xrc" when
      encrypting, or does not when decrypting) is then rejected by
      `exec_cli` and removed by `main` even when `preserve` is set. */
  lemma ExplicitWrongModeRemoved(fs: CliArgs.FileSystem, abs: string -> string, paths: seq<string>,
                                 recursive: bool, encrypt: bool, p: string, len: nat)
    requires p in paths && fs.kind(p) == CliArgs.Regular
    requires encrypt == RustJob.EndsWith(abs(p), RustJob.DotXrc)
    ensures abs(p) in Listed(fs, abs, paths, recursive, encrypt)
    ensures RustMain.ExecEffect(abs(p), encrypt, len, true) == RustMain.Effect(None, {abs(p)})
  {
    ListFilesMembers(fs, abs, paths, recursive, encrypt, abs(p));
    RustMain.RejectedRemoved(abs(p), encrypt, len);
  }

  /** The loop of `parse_args` that moves the keys of the `HashMap` into
      the `Vec` of paths, in whatever order the map yields them: each
      listed file is in the list, once. */
  method CollectPaths(files: set<string>) returns (list: seq<string>)
    ensures forall x :: x in list <==> x in files
    ensures forall i, j :: 0 <= i < j < |list| ==> list[i] != list[j]
    ensures |list| == |files|
  {
    list := [];
    var rest := files;
    while rest != {}
      invariant rest <= files
      invariant forall x :: x in list <==> x in files && x !in rest
      invariant forall i, j :: 0 <= i < j < |list| ==> list[i] != list[j]
      invariant |list| + |rest| == |files|
      decreases |rest|
    {
      var x :| x in rest;
      list := list + [x];
      rest := rest - {x};
    }
  }

  /** A string of decimal digits. */
  predicate IsDigits(s: string)
  {
    forall i :: 0 <= i < |s| ==> '0' <= s[i] <= '9'
  }

  /** The value of a string of decimal digits. */
  function DigitsValue(s: string): nat
    requires IsDigits(s)
  {
    if |s| == 0 then 0 else 10 * DigitsValue(s[..|s| - 1]) + (s[|s| - 1] as int - '0' as int)
  }

  /** `usize` on a 64-bit target holds the values below 2^64. */
  const Usize: nat := 0x1_0000_0000_0000_0000

  /** `str::parse::<usize>`: an optional `+`, then one decimal digit or
      more and nothing else, of a value below 2^64; anything else (a sign
      `-`, a space, a letter, an empty string, an overflow) is an error. */
  function ParseUsize(s: string): (r: Option<nat>)
    ensures r.Some? ==> r.value < Usize
  {
    var d := if |s| > 0 && s[0] == '+' then s[1..] else s;
    if |d| == 0 || !IsDigits(d) then None
    else if DigitsValue(d) < Usize then Some(DigitsValue(d))
    else None
  }

  /** The decimal form of a number, without leading zeros. */
  function Decimal(n: nat): (s: string)
    ensures |s| > 0 && IsDigits(s)
  {
    if n < 10 then [('0' as int + n) as char]
    else
      var h := Decimal(n / 10);
      var s := h + [('0' as int + n % 10) as char];
      assert forall i :: 0 <= i < |h| ==> s[i] == h[i];
      s
  }

  /** Reading a decimal form gives the number back. */
  lemma {:induction false} DecimalValue(n: nat)
    ensures DigitsValue(Decimal(n)) == n
  {
    if n >= 10 {
      DecimalValue(n / 10);
      var s := Decimal(n);
      assert s[..|s| - 1] == Decimal(n / 10);
    }
  }

  /** Every `usize`, written in decimal, parses back to itself. */
  lemma ParseDecimal(n: nat)
    requires n < Usize
    ensures ParseUsize(Decimal(n)) == Some(n)
  {
    DecimalValue(n);
  }

  /** The result of `parse_args`: an error message, the configuration, or
      the panic of `unwrap` on a `-j` value that does not parse. */
  datatype Config = Config(preserve: bool, toEncrypt: bool, paths: set<string>, nJobs: nat)

  datatype Parsed = Err(msg: string) | Ok(config: Config) | Panic

  const BothModes := "Encrypt and Decrypt both exists, select one"
  const NoFiles := "No files/folders found"

  /** The `-j` value parses, or is not given. */
  predicate JobsParse(jobs: Option<string>)
  {
    jobs.Some? ==> ParseUsize(jobs.value).Some?
  }

  /** The job count: the parsed `-j` value when given, else the available
      parallelism when it is known, else 4. */
  function Jobs(jobs: Option<string>, parallelism: Option<nat>): nat
    requires JobsParse(jobs)
  {
    if jobs.Some? then ParseUsize(jobs.value).value else if parallelism.Some? then parallelism.value else 4
  }

  /** `parse_args` after clap has matched the flags: `jobs` is the `-j`
      string, `parallelism` what `available_parallelism` reports and `abs`
      `absolutize`. */
  function ParseArgs(encrypt: bool, decrypt: bool, recursive: bool, preserve: bool,
                     jobs: Option<string>, parallelism: Option<nat>,
                     paths: seq<string>, fs: CliArgs.FileSystem, abs: string -> string): (r: Parsed)
    ensures encrypt == decrypt ==> r == Err(BothModes)
    ensures encrypt != decrypt && !JobsParse(jobs) ==> r == Panic
    ensures encrypt != decrypt && JobsParse(jobs) && |paths| == 0 ==> r == Err(NoFiles)
    ensures r.Ok? ==> encrypt != decrypt && JobsParse(jobs) && r.config.toEncrypt == encrypt &&
                      r.config.paths != {} && r.config.nJobs == Jobs(jobs, parallelism)
  {
    if encrypt == decrypt then Err(BothModes)
    else if !JobsParse(jobs) then Panic
    else if |paths| == 0 then Err(NoFiles)
    else
      var files := Listed(fs, abs, paths, recursive, encrypt);
      if files == {} then Err(NoFiles)
      else Ok(Config(preserve, encrypt, files, Jobs(jobs, parallelism)))
  }

  /** Parsing succeeds exactly when one mode is chosen, the `-j` value
      parses and some file is listed, and then the files are those listed. */
  lemma ParseArgsOk(encrypt: bool, decrypt: bool, recursive: bool, preserve: bool,
                    jobs: Option<string>, parallelism: Option<nat>,
                    paths: seq<string>, fs: CliArgs.FileSystem, abs: string -> string)
    ensures var r := ParseArgs(encrypt, decrypt, recursive, preserve, jobs, parallelism, paths, fs, abs);
            r.Ok? <==> encrypt != decrypt && JobsParse(jobs) && Listed(fs, abs, paths, recursive, encrypt) != {}
    ensures var r := ParseArgs(encrypt, decrypt, recursive, preserve, jobs, parallelism, paths, fs, abs);
            r.Ok? ==> r.config.paths == Listed(fs, abs, paths, recursive, encrypt) && r.config.preserve == preserve
  {
    if |paths| == 0 {
      assert Listed(fs, abs, paths, recursive, encrypt) == {};
    }
  }

  /** A `-j` value that is not a number panics before any file is looked
      at, even with no file argument. */
  lemma WordJobsPanic(fs: CliArgs.FileSystem, abs: string -> string)
    ensures ParseArgs(true, false, false, false, Some("abc"), Some(8), [], fs, abs) == Panic
    ensures ParseArgs(false, true, false, false, Some("-1"), None, [], fs, abs) == Panic
  {
    assert "abc"[0] == 'a' && "-1"[0] == '-';
    assert !IsDigits("abc") && !IsDigits("-1");
  }

  /** `-j 0` is accepted: the parse succeeds with no job. */
  lemma ZeroJobsAccepted(fs: CliArgs.FileSystem, abs: string -> string, p: string)
    requires fs.kind(p) == CliArgs.Regular
    ensures var r := ParseArgs(true, false, false, false, Some("0"), Some(8), [p], fs, abs);
            r.Ok? && r.config.nJobs == 0
  {
    assert "0"[..0] == [];
    assert DigitsValue("0") == 0;
    assert [p][..0] == [];
    assert abs(p) in Listed(fs, abs, [p], false, true);
  }

  /** `parse_args` with the job count checked: `-j 0` is an error. */
  const NoJobs := "No. of jobs must be at least 1"

  function ParseArgsChecked(encrypt: bool, decrypt: bool, recursive: bool, preserve: bool,
                            jobs: Option<string>, parallelism: Option<nat>,
                            paths: seq<string>, fs: CliArgs.FileSystem, abs: string -> string): (r: Parsed)
    requires parallelism.Some? ==> parallelism.value >= 1
    ensures r.Ok? ==> r.config.nJobs >= 1
    ensures (jobs.None? || ParseUsize(jobs.value) != Some(0)) ==>
              r == ParseArgs(encrypt, decrypt, recursive, preserve, jobs, parallelism, paths, fs, abs)
    ensures jobs.Some? && ParseUsize(jobs.value) == Some(0) ==> r.Err?
  {
    match ParseArgs(encrypt, decrypt, recursive, preserve, jobs, parallelism, paths, fs, abs)
    case Err(m) => Err(m)
    case Panic => Panic
    case Ok(c) => if c.nJobs == 0 then Err(NoJobs) else Ok(c)
  }

  /** The list of job `k` of `n`: the paths whose index is `k` modulo `n`,
      in their order. */
  function Share(paths: seq<string>, n: nat, k: nat): seq<string>
    requires n >= 1
  {
    if |paths| == 0 then []
    else
      var m := |paths| - 1;
      Share(paths[..m], n, k) + (if m % n == k then [paths[m]] else [])
  }

  /** One more path grows the quotient or the remainder of its index. */
  lemma DivModNext(m: nat, n: nat)
    requires n >= 1
    ensures m % n == n - 1 ==> (m + 1) / n == m / n + 1 && (m + 1) % n == 0
    ensures m % n < n - 1 ==> (m + 1) / n == m / n && (m + 1) % n == m % n + 1
  {
    if m % n == n - 1 {
      DivModUnique(m + 1, n, m / n + 1, 0);
    } else {
      DivModUnique(m + 1, n, m / n, m % n + 1);
    }
  }

  /** List `k` holds one path per full round of `n` and one more when `k`
      is below the remainder. */
  lemma {:induction false} ShareLength(paths: seq<string>, n: nat, k: nat)
    requires n >= 1 && k < n
    ensures |Share(paths, n, k)| == |paths| / n + (if k < |paths| % n then 1 else 0)
  {
    if |paths| > 0 {
      var m := |paths| - 1;
      ShareLength(paths[..m], n, k);
      DivModNext(m, n);
    }
  }

  /** Entry `j` of list `k` is path `i = k + n * j`. */
  lemma {:induction false} ShareElement(paths: seq<string>, n: nat, k: nat, j: nat, i: nat)
    requires n >= 1 && k < n && j < |Share(paths, n, k)| && i == k + n * j
    ensures i < |paths| && Share(paths, n, k)[j] == paths[i]
  {
    var m := |paths| - 1;
    var init := paths[..m];
    if j < |Share(init, n, k)| {
      ShareElement(init, n, k, j, i);
    } else {
      ShareLength(init, n, k);
      DivModUnique(m, n, m / n, k);
    }
  }

  /** An index below a length has a quotient below the length's, or the
      same quotient and a smaller remainder. */
  lemma QuotientBelow(i: nat, len: nat, n: nat)
    requires n >= 1 && i < len
    ensures i / n < len / n || (i / n == len / n && i % n < len % n)
  {
    var a, b := i / n, i % n;
    var t := b + (len - i);
    assert len == n * a + t;
    assert t == n * (t / n) + t % n;
    assert n * (a + t / n) == n * a + n * (t / n);
    DivModUnique(len, n, a + t / n, t % n);
    if t / n == 0 {
      assert t % n == t;
    }
  }

  /** Path `i = k + n * j` (`k < n`) is entry `j` of list `k`: with
      `ShareElement`, the entries of the lists are the paths, each once. */
  lemma {:induction false} SharePosition(paths: seq<string>, n: nat, k: nat, j: nat)
    requires n >= 1 && k < n && k + n * j < |paths|
    ensures j < |Share(paths, n, k)| && Share(paths, n, k)[j] == paths[k + n * j]
  {
    var i := k + n * j;
    assert j < |Share(paths, n, k)| by {
      DivModUnique(i, n, j, k);
      ShareLength(paths, n, k);
      QuotientBelow(i, |paths|, n);
    }
    ShareElement(paths, n, k, j, i);
  }

  /** The lists are never longer than the one before and all differ by at
      most one path, so an empty list is followed only by empty lists. */
  lemma ShareSizes(paths: seq<string>, n: nat, j: nat, k: nat)
    requires n >= 1 && j < k < n
    ensures |Share(paths, n, k)| <= |Share(paths, n, j)| <= |Share(paths, n, k)| + 1
  {
    ShareLength(paths, n, j);
    ShareLength(paths, n, k);
  }

  /** The number of paths over all lists. */
  function TotalLength(pool: seq<seq<string>>): nat
  {
    if |pool| == 0 then 0 else TotalLength(pool[..|pool| - 1]) + |pool[|pool| - 1]|
  }

  /** Growing one list by one path grows the total by one. */
  lemma {:induction false} TotalGrow(pool: seq<seq<string>>, k: nat, x: string)
    requires k < |pool|
    ensures TotalLength(pool[k := pool[k] + [x]]) == TotalLength(pool) + 1
    decreases |pool|
  {
    var q := pool[k := pool[k] + [x]];
    var m := |pool| - 1;
    if k < m {
      assert q[..m] == pool[..m][k := pool[k] + [x]];
      TotalGrow(pool[..m], k, x);
    } else {
      assert q[..m] == pool[..m];
    }
  }

  /** `get_paths`: `n_jobs` empty lists, then path `i` appended to list
      `i % n_jobs`. Every path lands in exactly one list. */
  method GetPaths(paths: seq<string>, nJobs: nat) returns (pool: seq<seq<string>>)
    requires nJobs >= 1
    ensures |pool| == nJobs
    ensures forall k :: 0 <= k < nJobs ==> pool[k] == Share(paths, nJobs, k)
    ensures TotalLength(pool) == |paths|
  {
    pool := [];
    for j := 0 to nJobs
      invariant |pool| == j
      invariant forall k :: 0 <= k < j ==> pool[k] == []
      invariant TotalLength(pool) == 0
    {
      assert (pool + [[]])[..j] == pool;
      pool := pool + [[]];
    }
    for i := 0 to |paths|
      invariant |pool| == nJobs
      invariant forall k :: 0 <= k < nJobs ==> pool[k] == Share(paths[..i], nJobs, k)
      invariant TotalLength(pool) == i
    {
      assert paths[..i + 1][..i] == paths[..i];
      TotalGrow(pool, i % nJobs, paths[i]);
      pool := pool[i % nJobs := pool[i % nJobs] + [paths[i]]];
    }
    assert paths[..|paths|] == paths;
  }
}
