/** The Rust file handler of src/file_handler.rs: the payload of a source
    file is cut into chunks of `ChunkSize` bytes (the same arithmetic as
    module `Chunks`), and a writer receives processed chunks in batches,
    parks each in the slot of its index and writes the slots of the batch
    in index order, stopping at the first failed write. Channels become
    method parameters: a batch is the trigger value together with the ids
    and buffers received for it, the id and the buffer of one worker
    arriving together. */
module RustFileHandler {
  import opened Bits
  import opened Wrappers
  import opened Chunks

  /** `usize::MAX` on a 64-bit target: the start value of `ref_idx`. */
  const UsizeMax: nat := 0x1_0000_0000_0000_0000 - 1

  /** The payload length: the metadata length, less the 32-byte hash in
      front of an encrypted file. */
  function PayloadLength(fileLen: nat, toEncrypt: bool): nat
    requires !toEncrypt ==> fileLen >= 32
  {
    if toEncrypt then fileLen else fileLen - 32
  }

  /** The length `read_buffer` reads for chunk `idx`: the last chunk has
      `lastChunkLen` bytes, every other one a full chunk. */
  function BufferLen(totalChunks: nat, lastChunkLen: nat, idx: nat): nat
    requires totalChunks > 0
  {
    if idx == totalChunks - 1 then lastChunkLen else ChunkSize
  }

  class FileHandler {
    /** The source file's bytes and the read position. */
    const file: seq<byte>
    var pos: nat
    const length: nat
    const totalChunks: nat
    const lastChunkLen: nat

    /** `FileHandler::new`: the chunk count is the quotient of the payload
        length by the chunk size, plus one when there is a remainder; the
        last chunk holds the remainder, or a full chunk when there is none.
        A file shorter than the hash underflows `length -= 32`. */
    constructor (file: seq<byte>, toEncrypt: bool)
      requires !toEncrypt ==> |file| >= 32
      ensures this.file == file && pos == 0
      ensures length == PayloadLength(|file|, toEncrypt)
      ensures totalChunks == ChunkCount(length) && lastChunkLen == LastChunkLen(length)
    {
      var len := |file|;
      if !toEncrypt {
        len := len - 32;
      }
      var total := len / ChunkSize;
      var last := len % ChunkSize;
      if last != 0 {
        total := total + 1;
      } else {
        last := ChunkSize;
      }
      this.file, pos, length := file, 0, len;
      totalChunks, lastChunkLen := total, last;
    }

    /** `read_hash`: `read_exact` of 32 bytes; on a short file the read
        fails. */
    method ReadHash() returns (r: Option<seq<byte>>)
      modifies this
      ensures old(pos) + 32 <= |file| ==> r == Some(file[old(pos)..old(pos) + 32]) && pos == old(pos) + 32
      ensures old(pos) + 32 > |file| ==> r == None && pos == |file|
    {
      if pos + 32 <= |file| {
        r := Some(file[pos..pos + 32]);
        pos := pos + 32;
      } else {
        r := None;
        pos := |file|;
      }
    }

    /** `read_buffer(idx)`: a buffer of `BufferLen` bytes filled by
        `read_exact` from the read position; a read past the end fails.
        With no chunks `total_chunks - 1` underflows, hence the
        precondition. */
    method ReadBuffer(idx: nat) returns (r: Option<seq<byte>>)
      requires totalChunks > 0
      modifies this
      ensures var n := BufferLen(totalChunks, lastChunkLen, idx);
              (old(pos) + n <= |file| ==> r == Some(file[old(pos)..old(pos) + n]) && pos == old(pos) + n) &&
              (old(pos) + n > |file| ==> r == None && pos == |file|)
    {
      var n := if idx == totalChunks - 1 then lastChunkLen else ChunkSize;
      if pos + n <= |file| {
        r := Some(file[pos..pos + n]);
        pos := pos + n;
      } else {
        r := None;
        pos := |file|;
      }
    }
  }

  /** The lengths `read_buffer` reads for the indexes 0 .. `total_chunks`
      are the chunk lengths of the payload, and they add up to it. */
  lemma BufferLensSum(length: nat)
    requires length > 0
    ensures var total := ChunkCount(length);
            var lens := seq(total, i requires 0 <= i < total => BufferLen(total, LastChunkLen(length), i));
            lens == ChunkLens(length) && Sum(lens) == length
  {
    ChunkLensSum(length);
  }

  /** The smallest of `init` and the values of `s`, taken one by one as
      `ref_idx.min(recv_idx)` does. */
  function Least(s: seq<nat>, init: nat): (m: nat)
    ensures m <= init && forall k :: 0 <= k < |s| ==> m <= s[k]
    ensures m == init || exists k :: 0 <= k < |s| && m == s[k]
  {
    if |s| == 0 then init
    else
      var m := Least(s[..|s| - 1], init);
      if s[|s| - 1] < m then s[|s| - 1] else m
  }

  /** The pool after buffer `bufs[k]` was stored at slot `ids[k]` for every
      `k` in turn: a later buffer for the same slot replaces an earlier one. */
  function Overlay(p: seq<Option<seq<byte>>>, ids: seq<nat>, bufs: seq<seq<byte>>): (q: seq<Option<seq<byte>>>)
    requires |ids| == |bufs| && forall k :: 0 <= k < |ids| ==> ids[k] < |p|
    ensures |q| == |p|
    ensures forall j :: 0 <= j < |p| && (p[j].Some? || j in ids) ==> q[j].Some?
  {
    if |ids| == 0 then p
    else Overlay(p, ids[..|ids| - 1], bufs[..|bufs| - 1])[ids[|ids| - 1] := Some(bufs[|bufs| - 1])]
  }

  /** The number of writes starting at slot `r` that succeed before the
      first one of the slots in `failing`, out of `n`. */
  function FirstFail(r: nat, n: nat, failing: set<nat>): (w: nat)
    ensures w <= n
    ensures forall i :: r <= i < r + w ==> i !in failing
    ensures w < n ==> r + w in failing
    decreases n
  {
    if n == 0 then 0
    else if r in failing then 0
    else 1 + FirstFail(r + 1, n - 1, failing)
  }

  /** `FirstFail` is the only count with its three properties. */
  lemma FirstFailUnique(r: nat, n: nat, failing: set<nat>, w: nat)
    requires w <= n && (forall i :: r <= i < r + w ==> i !in failing)
    requires w < n ==> r + w in failing
    ensures FirstFail(r, n, failing) == w
  {
    var f := FirstFail(r, n, failing);
    assert f < n ==> r + f in failing;
  }

  /** The buffers of the `k` slots from `r` on, in index order. */
  function Written(p: seq<Option<seq<byte>>>, r: nat, k: nat): (s: seq<seq<byte>>)
    requires r + k <= |p| && forall j :: r <= j < r + k ==> p[j].Some?
    ensures |s| == k && forall j :: 0 <= j < k ==> s[j] == p[r + j].value
  {
    seq(k, j requires 0 <= j < k => p[r + j].value)
  }

  /** The pool with the `c` slots from `r` on emptied. */
  function Cleared(p: seq<Option<seq<byte>>>, r: nat, c: nat): (q: seq<Option<seq<byte>>>)
    ensures |q| == |p|
    ensures forall j :: 0 <= j < |p| ==> q[j] == if r <= j < r + c then None else p[j]
  {
    seq(|p|, j requires 0 <= j < |p| => if r <= j < r + c then None else p[j])
  }

  /** The writer thread of `dispatch_writer_thread`: its pool of
      `pool_size` slots, its `broken` flag, what it has written to the
      destination and the signals it has sent back. A failed `write_all` is
      taken to write nothing. */
  class Writer {
    const pool: array<Option<seq<byte>>>
    var broken: bool
    var out: seq<byte>
    var signals: seq<bool>

    /** An empty pool; nothing written or sent. */
    constructor (poolSize: nat)
      ensures fresh(pool) && pool[..] == seq(poolSize, _ => None)
      ensures !broken && out == [] && signals == []
    {
      pool := new Option<seq<byte>>[poolSize](_ => None);
      broken, out, signals := false, [], [];
    }

    /** One trigger value `trg` of the `for trg_sig in rx_trggr` loop, with
        the `trg` ids and buffers received for it; the result says whether
        the loop breaks. A trigger of 0 breaks at once. Otherwise every
        buffer is stored at its id, `r` is the least id and the writer
        writes the slots `r`, `r + 1`, ... in index order, emptying each,
        until `trg` slots are written or a write fails; it then sends
        `broken` and breaks if it is set. Every slot it writes must hold a
        buffer, or `unwrap` panics. */
    method Trigger(trg: nat, ids: seq<nat>, bufs: seq<seq<byte>>, failing: set<nat>) returns (stop: bool)
      requires !broken
      requires trg > 0 ==> |ids| == trg && |bufs| == trg
      requires trg > 0 ==> forall k :: 0 <= k < |ids| ==> ids[k] < pool.Length
      requires trg > 0 ==>
                 var r := Least(ids, UsizeMax);
                 r + trg <= pool.Length &&
                 forall j :: r <= j < r + trg ==> j in ids || pool[j].Some?
      modifies this, pool
      ensures trg == 0 ==> stop && unchanged(this) && unchanged(pool)
      ensures trg > 0 ==>
                var after := Overlay(old(pool[..]), ids, bufs);
                var r := Least(ids, UsizeMax);
                var w := FirstFail(r, trg, failing);
                stop == broken && (broken <==> w < trg) &&
                out == old(out) + Concat(Written(after, r, w)) &&
                pool[..] == Cleared(after, r, if broken then w + 1 else trg) &&
                signals == old(signals) + [broken]
    {
      if trg == 0 {
        return true;
      }
      var refIdx := Receive(trg, ids, bufs);
      stop := WriteSlots(refIdx, trg, failing);
    }

    /** The receive loop: each of the `trg` buffers is stored at its id and
        `ref_idx` ends as the least id. */
    method Receive(trg: nat, ids: seq<nat>, bufs: seq<seq<byte>>) returns (refIdx: nat)
      requires |ids| == trg && |bufs| == trg
      requires forall k :: 0 <= k < |ids| ==> ids[k] < pool.Length
      modifies pool
      ensures pool[..] == Overlay(old(pool[..]), ids, bufs)
      ensures refIdx == Least(ids, UsizeMax)
    {
      var chunks := trg;
      refIdx := UsizeMax;
      var k := 0;
      while chunks != 0
        invariant 0 <= k <= trg && chunks == trg - k
        invariant refIdx == Least(ids[..k], UsizeMax)
        invariant pool[..] == Overlay(old(pool[..]), ids[..k], bufs[..k])
      {
        var recvIdx := ids[k];
        assert ids[..k + 1][..k] == ids[..k] && bufs[..k + 1][..k] == bufs[..k];
        refIdx := if recvIdx < refIdx then recvIdx else refIdx;
        pool[recvIdx] := Some(bufs[k]);
        chunks := chunks - 1;
        k := k + 1;
      }
      assert ids[..trg] == ids && bufs[..trg] == bufs;
    }

    /** The write loop: the slots from `r` on are written in index order and
        emptied, `trg` of them or up to and including the first failed
        write, after which `broken` is sent. */
    method WriteSlots(r: nat, trg: nat, failing: set<nat>) returns (stop: bool)
      requires !broken
      requires r + trg <= pool.Length && forall j :: r <= j < r + trg ==> pool[j].Some?
      modifies this, pool
      ensures var w := FirstFail(r, trg, failing);
              stop == broken && (broken <==> w < trg) &&
              out == old(out) + Concat(Written(old(pool[..]), r, w)) &&
              pool[..] == Cleared(old(pool[..]), r, if broken then w + 1 else trg) &&
              signals == old(signals) + [broken]
    {
      var written, brk, w := WriteLoop(r, trg, failing);
      FirstFailUnique(r, trg, failing, w);
      assert pool[..] == Cleared(old(pool[..]), r, if brk then w + 1 else trg);
      out, broken := out + written, brk;
      signals := signals + [broken];
      stop := broken;
    }

    /** The `while chunks != 0 && !broken` loop itself: the bytes written,
        whether a write failed, and (ghost) how many writes succeeded. */
    method WriteLoop(r: nat, trg: nat, failing: set<nat>) returns (written: seq<byte>, brk: bool, ghost w: nat)
      requires r + trg <= pool.Length && forall j :: r <= j < r + trg ==> pool[j].Some?
      modifies pool
      ensures w <= trg && (brk ==> w < trg && r + w in failing) && (!brk ==> w == trg)
      ensures forall i :: r <= i < r + w ==> i !in failing
      ensures written == Concat(Written(old(pool[..]), r, w))
      ensures forall j :: 0 <= j < pool.Length ==>
                pool[j] == if r <= j < r + (if brk then w + 1 else w) then None else old(pool[j])
    {
      ghost var vals := Written(pool[..], r, trg);
      ghost var c := 0;
      w := 0;
      var chunks, refIdx := trg, r;
      written, brk := [], false;
      while chunks != 0 && !brk
        invariant 0 <= c <= trg && chunks == trg - c && refIdx == r + c
        invariant if brk then w + 1 == c && r + w in failing else w == c
        invariant forall i :: r <= i < r + w ==> i !in failing
        invariant written == Concat(vals[..w])
        invariant forall j :: 0 <= j < pool.Length ==> pool[j] == if r <= j < r + c then None else old(pool[j])
      {
        var buff := pool[refIdx].value;
        var err := refIdx in failing;
        if !err {
          ConcatNext(vals, c);
          written := written + buff;
          w := w + 1;
        }
        brk := err;
        pool[refIdx] := None;
        refIdx := refIdx + 1;
        chunks := chunks - 1;
        c := c + 1;
      }
      assert vals[..w] == Written(old(pool[..]), r, w);
    }

    /** After the loop: every slot is emptied and the final signal is
        `!broken`. */
    method Finish()
      modifies this, pool
      ensures pool[..] == seq(pool.Length, _ => None)
      ensures signals == old(signals) + [!old(broken)]
      ensures broken == old(broken) && out == old(out)
    {
      for i := 0 to pool.Length
        invariant forall j :: 0 <= j < i ==> pool[j] == None
        invariant signals == old(signals) && broken == old(broken) && out == old(out)
      {
        pool[i] := None;
      }
      signals := signals + [!broken];
    }
  }
}
