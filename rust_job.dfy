/** A job of src/job.rs: the destination path of a source file and the
    processing of one file, which hands chunk indexes to workers in
    batches and feeds the writer of `RustFileHandler` one batch at a
    time. Only the file name part of a path is modelled: the parent
    directory is kept as it is by `with_extension`. */
module RustJob {
  import opened Bits
  import opened Wrappers
  import opened Chunks
  import opened RustFileHandler

  /** `FileHandler::FILE_EXTENSION` and `FILE_EXTENSION_STR`. */
  const Xrc: string := "xrc"
  const DotXrc: string := ".xrc"

  function EndsWith(s: string, suffix: string): bool
  {
    |suffix| <= |s| && s[|s| - |suffix|..] == suffix
  }

  /** The index of the last '.' of a file name. */
  function LastDot(n: string): (r: Option<nat>)
    ensures r.Some? ==> r.value < |n| && n[r.value] == '.' && forall i :: r.value < i < |n| ==> n[i] != '.'
    ensures r.None? ==> forall i :: 0 <= i < |n| ==> n[i] != '.'
  {
    if |n| == 0 then None
    else if n[|n| - 1] == '.' then Some(|n| - 1)
    else LastDot(n[..|n| - 1])
  }

  /** The last dot is the one with no dot after it. */
  lemma LastDotIs(n: string, i: nat)
    requires i < |n| && n[i] == '.' && forall j :: i < j < |n| ==> n[j] != '.'
    ensures LastDot(n) == Some(i)
  {
    var r := LastDot(n);
    assert r.Some?;
    assert !(r.value < i) && !(i < r.value);
  }

  /** `Path::extension` of a file name: what follows the last dot, unless
      that dot is the first character (".bashrc") or there is none; ".."
      has no extension. */
  function Extension(n: string): Option<string>
  {
    if n == ".." then None
    else match LastDot(n)
      case Some(i) => if i > 0 then Some(n[i + 1..]) else None
      case None => None
  }

  /** `Path::file_stem`: the name without its extension and dot. */
  function Stem(n: string): string
  {
    if n == ".." then n
    else match LastDot(n)
      case Some(i) => if i > 0 then n[..i] else n
      case None => n
  }

  /** The stem and the extension make up the name. */
  lemma StemExtension(n: string)
    ensures Extension(n).Some? ==> n == Stem(n) + "." + Extension(n).value
    ensures Extension(n).None? ==> Stem(n) == n
  {
    if Extension(n).Some? {
      var i := LastDot(n).value;
      assert n == n[..i] + "." + n[i + 1..];
    }
  }

  /** `Path::with_extension`: the stem, followed by a dot and `ext` when
      `ext` is not empty. */
  function WithExtension(n: string, ext: string): string
  {
    if ext == [] then Stem(n) else Stem(n) + "." + ext
  }

  /** `compute_dest_path`: encrypting appends ".xrc" to the extension, an
      extension ending in "xrc" is kept as it is, and a name without an
      extension gets "xrc" as its extension; decrypting strips an
      extension ending in "xrc" and keeps any other name unchanged. */
  function DestName(n: string, toEncrypt: bool): string
  {
    match Extension(n)
    case Some(ext) =>
      if toEncrypt then
        if EndsWith(ext, Xrc) then n else WithExtension(n, ext + DotXrc)
      else if !EndsWith(ext, Xrc) then n
      else WithExtension(n, "")
    case None =>
      if toEncrypt then WithExtension(n, Xrc) else WithExtension(n, "")
  }

  /** The source names the encrypting job leaves as they are: those whose
      extension ends in "xrc". */
  predicate IsXrcName(n: string)
  {
    Extension(n).Some? && EndsWith(Extension(n).value, Xrc)
  }

  /** Encrypting a name whose extension does not end in "xrc" appends
      ".xrc" ("a.txt" becomes "a.txt.xrc", "a" becomes "a.xrc"); any other
      name is kept. */
  lemma EncryptedName(n: string)
    ensures !IsXrcName(n) ==> DestName(n, true) == n + DotXrc
    ensures IsXrcName(n) ==> DestName(n, true) == n
  {
    StemExtension(n);
    if Extension(n).Some? && !IsXrcName(n) {
      var e := Extension(n).value;
      assert Stem(n) + "." + (e + DotXrc) == (Stem(n) + "." + e) + DotXrc;
    }
  }

  /** Decrypting strips the extension of a name whose extension ends in
      "xrc" and keeps any other name. */
  lemma DecryptedName(n: string)
    ensures IsXrcName(n) ==> DestName(n, false) == Stem(n) && n == Stem(n) + "." + Extension(n).value
    ensures !IsXrcName(n) ==> DestName(n, false) == n
  {
    StemExtension(n);
  }

  /** A non-empty name followed by ".xrc" has the extension "xrc" and the
      name as its stem. */
  lemma AppendedXrc(n: string)
    requires n != []
    ensures Extension(n + DotXrc) == Some(Xrc) && Stem(n + DotXrc) == n
  {
    var m := n + DotXrc;
    LastDotIs(m, |n|);
    assert m[|n| + 1..] == Xrc && m[..|n|] == n;
    assert |m| > 2;
  }

  /** The names round-trip: decrypting the destination of an encrypted
      non-empty name whose extension does not end in "xrc" gives the name
      back. */
  lemma NameRoundTrip(n: string)
    requires n != [] && !IsXrcName(n)
    ensures DestName(DestName(n, true), false) == n
  {
    EncryptedName(n);
    AppendedXrc(n);
    assert EndsWith(Xrc, Xrc);
  }

  /** The two examples of the naming rule. */
  lemma NameExamples()
    ensures DestName("a.txt", true) == "a.txt.xrc"
    ensures DestName("a", true) == "a.xrc"
  {
    LastDotIs("a.txt", 1);
    assert Extension("a.txt") == Some("txt");
    assert !EndsWith("txt", Xrc);
    EncryptedName("a.txt");
    assert LastDot("a") == None;
    EncryptedName("a");
  }

  /** The consecutive indexes `a .. b`. */
  function Range(a: nat, b: nat): (r: seq<nat>)
    requires a <= b
    ensures |r| == b - a && forall j :: 0 <= j < b - a ==> r[j] == a + j
  {
    seq(b - a, j requires 0 <= j < b - a => a + j)
  }

  /** `1usize.max(self.n_jobs / 2)`: the number of workers of a batch. */
  function BatchSize(nJobs: nat): (n: nat)
    ensures n >= 1 && (nJobs >= 2 ==> n == nJobs / 2)
  {
    if nJobs / 2 > 1 then nJobs / 2 else 1
  }

  /** The inner `for _ in 0..n_jobs` loop of `process_file`: hands out the
      indexes from `start` on, one per worker, stopping after `n` of them
      or at the pool size. The first index of a batch is always read, so
      `start` must be below the pool size. */
  method NextBatch(start: nat, n: nat, poolSize: nat) returns (batch: seq<nat>, next: nat)
    requires start < poolSize
    ensures next == if start + n < poolSize && n > 0 then start + n else if n == 0 then start else poolSize
    ensures start <= next && batch == Range(start, next)
  {
    var i := start;
    batch := [];
    for t := 0 to n
      invariant i == start + t && i <= poolSize && batch == Range(start, i)
      invariant t > 0 ==> i < poolSize
    {
      batch := batch + [i];
      i := i + 1;
      if i == poolSize {
        break;
      }
    }
    next := i;
  }

  /** Storing the buffers `bs` for the indexes `a .. b` puts each at its
      index. */
  lemma {:induction false} OverlayRange(p: seq<Option<seq<byte>>>, a: nat, b: nat, bs: seq<seq<byte>>)
    requires a <= b <= |p| && |bs| == b - a
    ensures forall j :: 0 <= j < |p| ==>
              Overlay(p, Range(a, b), bs)[j] == if a <= j < b then Some(bs[j - a]) else p[j]
  {
    if a < b {
      var ids := Range(a, b);
      assert ids[..|ids| - 1] == Range(a, b - 1);
      OverlayRange(p, a, b - 1, bs[..|bs| - 1]);
    }
  }

  /** A batch of consecutive indexes into an empty pool: its least index is
      its first, the writer writes the buffers in order, and emptying the
      written slots leaves the pool empty. */
  lemma BatchWrite(p: seq<Option<seq<byte>>>, a: nat, b: nat, bs: seq<seq<byte>>, k: nat)
    requires a < b <= |p| && b <= UsizeMax && |bs| == b - a && k <= b - a
    requires forall j :: 0 <= j < |p| ==> p[j] == None
    ensures Least(Range(a, b), UsizeMax) == a
    ensures forall j :: a <= j < b ==> j in Range(a, b)
    ensures var after := Overlay(p, Range(a, b), bs);
            (forall j :: a <= j < b ==> after[j].Some?) &&
            Written(after, a, k) == bs[..k] &&
            Cleared(after, a, b - a) == p
  {
    var ids := Range(a, b);
    var m := Least(ids, UsizeMax);
    assert ids[0] == a;
    forall j | a <= j < b
      ensures j in ids
    {
      assert ids[j - a] == j;
    }
    OverlayRange(p, a, b, bs);
    var after := Overlay(p, ids, bs);
    assert Written(after, a, k) == bs[..k];
    assert Cleared(after, a, b - a) == p;
  }

  /** The chunks before `a` followed by the `k` chunks from `a` on. */
  lemma {:induction false} ConcatSplit(cs: seq<seq<byte>>, a: nat, k: nat)
    requires a + k <= |cs|
    ensures Concat(cs[..a + k]) == Concat(cs[..a]) + Concat(cs[a..a + k])
  {
    if k > 0 {
      ConcatSplit(cs, a, k - 1);
      ConcatNext(cs, a + k - 1);
      assert cs[a..a + k][..k - 1] == cs[a..a + k - 1];
    }
  }

  /** The chunks before a batch followed by the first `k` of the batch. */
  lemma BatchConcat(bufs: seq<seq<byte>>, i: nat, next: nat, k: nat)
    requires i + k <= next <= |bufs|
    ensures Concat(bufs[..i]) + Concat(bufs[i..next][..k]) == Concat(bufs[..i + k])
  {
    ConcatSplit(bufs, i, k);
    assert bufs[i..next][..k] == bufs[i..i + k];
  }

  /** With no failing index below `i`, the first failure of the `n` writes
      from `i` on is the first failure overall, or there is none below
      `i + n`. */
  lemma FailuresAfter(failing: set<nat>, i: nat, n: nat, total: nat)
    requires i + n <= total && forall j :: 0 <= j < i ==> j !in failing
    ensures var k := FirstFail(i, n, failing);
            (k < n ==> FirstFail(0, total, failing) == i + k) &&
            (k == n ==> forall j :: 0 <= j < i + n ==> j !in failing)
  {
    var k := FirstFail(i, n, failing);
    if k < n {
      FirstFailUnique(0, total, failing, i + k);
    }
  }

  /** `process_file` from the dispatch of the writer on, for a file of
      `|bufs|` chunks whose processed buffers are `bufs` (the cipher of the
      `xor_cryptor` crate is not part of this model) and whose writes to
      the destination fail exactly at the indexes in `failing`: batches of
      `BatchSize` consecutive indexes go to the writer until the writer
      reports a failed write or the last index is handed out, after which
      the trigger 0 ends the writer. The destination holds the chunks in
      index order up to the first failed write, the writer's final signal
      says whether every write succeeded, and the source is removed only
      then and only without `preserve`. An empty file never gets here
      (line 130), and a payload of no chunks would read index 0 past the
      end. */
  method ProcessChunks(bufs: seq<seq<byte>>, nJobs: nat, failing: set<nat>, preserve: bool)
    returns (dest: seq<byte>, signal: bool, removeSource: bool)
    requires 0 < |bufs| <= UsizeMax
    ensures var f := FirstFail(0, |bufs|, failing);
            (signal <==> f == |bufs|) && dest == Concat(bufs[..f]) &&
            (removeSource <==> signal && !preserve)
  {
    var poolSize := |bufs|;
    var w := new Writer(poolSize);
    var i, n := 0, BatchSize(nJobs);
    while true
      invariant fresh(w.pool) && i < poolSize
      invariant w.pool[..] == seq(poolSize, _ => None)
      invariant !w.broken && w.out == Concat(bufs[..i])
      invariant forall j :: 0 <= j < i ==> j !in failing
      decreases poolSize - i
    {
      var stop, next := RunBatch(w, bufs, i, n, failing);
      if stop {
        break;
      }
      i := next;
      if i == poolSize {
        stop := w.Trigger(0, [], [], failing);
        FirstFailUnique(0, poolSize, failing, poolSize);
        break;
      }
    }
    w.Finish();
    signal := w.signals[|w.signals| - 1];
    dest := w.out;
    removeSource := signal && !preserve;
    assert bufs[..|bufs|] == bufs;
  }

  /** One turn of the `loop` of `process_file`: the batch of indexes from
      `i` on is handed out and its buffers sent to the writer with the
      trigger value of its size. Either a write failed, and the writer has
      written the chunks up to the first failure, or the pool is empty
      again and the writer has written every chunk before the next index. */
  method RunBatch(w: Writer, bufs: seq<seq<byte>>, i: nat, n: nat, failing: set<nat>) returns (stop: bool, next: nat)
    requires i < |bufs| <= UsizeMax && n >= 1
    requires w.pool.Length == |bufs| && forall j :: 0 <= j < w.pool.Length ==> w.pool[j] == None
    requires !w.broken && w.out == Concat(bufs[..i])
    requires forall j :: 0 <= j < i ==> j !in failing
    modifies w, w.pool
    ensures stop == w.broken && i < next <= |bufs|
    ensures stop ==> FirstFail(0, |bufs|, failing) < |bufs| &&
                     w.out == Concat(bufs[..FirstFail(0, |bufs|, failing)])
    ensures !stop ==> w.pool[..] == old(w.pool[..]) && w.out == Concat(bufs[..next]) &&
                      forall j :: 0 <= j < next ==> j !in failing
  {
    var batch;
    batch, next := NextBatch(i, n, |bufs|);
    var bs := bufs[i..next];
    ghost var p, out0 := w.pool[..], w.out;
    ghost var k := FirstFail(i, next - i, failing);
    BatchWrite(p, i, next, bs, k);
    ghost var after := Overlay(p, batch, bs);
    stop := w.Trigger(|batch|, batch, bs, failing);
    if stop {
      BrokenBatch(bufs, i, next, failing, p, after, k, out0, w.out);
    } else {
      CompleteBatch(bufs, i, next, failing, p, after, k, out0, w.out, w.pool[..]);
    }
  }

  /** A batch of the consecutive indexes `i .. next` in which a write
      failed, given the writer's contract for it (`after` is the pool once
      the batch is received, `k` the number of writes that succeed): the
      destination holds the chunks up to the first failure. */
  lemma BrokenBatch(bufs: seq<seq<byte>>, i: nat, next: nat, failing: set<nat>,
                    p: seq<Option<seq<byte>>>, after: seq<Option<seq<byte>>>, k: nat,
                    out0: seq<byte>, out1: seq<byte>)
    requires i < next <= |bufs| <= UsizeMax && |p| == |bufs|
    requires forall j :: 0 <= j < |p| ==> p[j] == None
    requires out0 == Concat(bufs[..i]) && forall j :: 0 <= j < i ==> j !in failing
    requires after == Overlay(p, Range(i, next), bufs[i..next])
    requires forall j :: i <= j < next ==> after[j].Some?
    requires k == FirstFail(i, next - i, failing) && k < next - i
    requires out1 == out0 + Concat(Written(after, i, k))
    ensures FirstFail(0, |bufs|, failing) < |bufs| &&
            out1 == Concat(bufs[..FirstFail(0, |bufs|, failing)])
  {
    BatchOut(bufs, i, next, p, after, k, out0, out1);
    FailuresAfter(failing, i, next - i, |bufs|);
  }

  /** The destination after the first `k` writes of a batch. */
  lemma BatchOut(bufs: seq<seq<byte>>, i: nat, next: nat, p: seq<Option<seq<byte>>>,
                 after: seq<Option<seq<byte>>>, k: nat, out0: seq<byte>, out1: seq<byte>)
    requires i < next <= |bufs| <= UsizeMax && |p| == |bufs| && k <= next - i
    requires forall j :: 0 <= j < |p| ==> p[j] == None
    requires out0 == Concat(bufs[..i])
    requires after == Overlay(p, Range(i, next), bufs[i..next])
    requires forall j :: i <= j < next ==> after[j].Some?
    requires out1 == out0 + Concat(Written(after, i, k))
    ensures out1 == Concat(bufs[..i + k])
  {
    BatchWrite(p, i, next, bufs[i..next], k);
    BatchConcat(bufs, i, next, k);
  }

  /** A batch of the consecutive indexes `i .. next` whose writes all
      succeed: the pool is empty again and the destination holds every
      chunk before `next`. */
  lemma CompleteBatch(bufs: seq<seq<byte>>, i: nat, next: nat, failing: set<nat>,
                      p: seq<Option<seq<byte>>>, after: seq<Option<seq<byte>>>, k: nat,
                      out0: seq<byte>, out1: seq<byte>, q: seq<Option<seq<byte>>>)
    requires i < next <= |bufs| <= UsizeMax && |p| == |bufs|
    requires forall j :: 0 <= j < |p| ==> p[j] == None
    requires out0 == Concat(bufs[..i]) && forall j :: 0 <= j < i ==> j !in failing
    requires after == Overlay(p, Range(i, next), bufs[i..next])
    requires forall j :: i <= j < next ==> after[j].Some?
    requires k == FirstFail(i, next - i, failing) && k == next - i
    requires out1 == out0 + Concat(Written(after, i, k))
    requires q == Cleared(after, i, next - i)
    ensures q == p && out1 == Concat(bufs[..next]) && forall j :: 0 <= j < next ==> j !in failing
  {
    BatchWrite(p, i, next, bufs[i..next], k);
    BatchConcat(bufs, i, next, k);
    FailuresAfter(failing, i, next - i, |bufs|);
  }
}
