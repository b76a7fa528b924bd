/** Chunk arithmetic shared by the C++ file handler of cli.hpp and the Rust
    one of src/file_handler.rs: a payload of `len` bytes is cut into chunks
    of `ChunkSize` bytes, the last one holding the remainder (or a full
    chunk when the length is a multiple of the chunk size). */
module Chunks {
  import opened Bits

  /** 64 MiB. */
  const ChunkSize: nat := 1024 * 1024 * 64

  /** `total_chunks`: the quotient, plus one when there is a remainder. */
  function ChunkCount(len: nat): (n: nat)
    ensures n * ChunkSize >= len
    ensures n > 0 ==> (n - 1) * ChunkSize < len
    ensures n == 0 <==> len == 0
  {
    if len % ChunkSize != 0 then len / ChunkSize + 1 else len / ChunkSize
  }

  /** `last_chunk`: the remainder, or a whole chunk when there is none. */
  function LastChunkLen(len: nat): nat
  {
    if len % ChunkSize != 0 then len % ChunkSize else ChunkSize
  }

  /** The length of chunk `i`: every chunk but the last is full. */
  function ChunkLen(len: nat, i: nat): nat
  {
    if i == ChunkCount(len) - 1 then LastChunkLen(len) else ChunkSize
  }

  /** The full chunks before the last one and the last one make up the
      payload, and the last one is non-empty and at most a chunk long. */
  lemma LastChunk(len: nat)
    requires len > 0
    ensures var n := ChunkCount(len);
            (n - 1) * ChunkSize + LastChunkLen(len) == len && 0 < LastChunkLen(len) <= ChunkSize
  {
    var q, r := len / ChunkSize, len % ChunkSize;
    assert len == ChunkSize * q + r;
  }

  /** The lengths of the chunks of a payload, in index order. */
  function ChunkLens(len: nat): (r: seq<nat>)
    ensures |r| == ChunkCount(len)
  {
    seq(ChunkCount(len), i requires 0 <= i < ChunkCount(len) => ChunkLen(len, i))
  }

  /** Sum of a sequence of naturals. */
  function Sum(s: seq<nat>): nat
  {
    if |s| == 0 then 0 else Sum(s[..|s| - 1]) + s[|s| - 1]
  }

  /** Summing one more element adds it. */
  lemma SumNext(s: seq<nat>, k: nat)
    requires k < |s|
    ensures Sum(s[..k + 1]) == Sum(s[..k]) + s[k]
  {
    assert s[..k + 1][..k] == s[..k];
  }

  /** Every chunk before the last is full: the first `k` lengths add up to
      `k` chunks. */
  lemma {:induction false} ChunkLensPrefix(len: nat, k: nat)
    requires k < ChunkCount(len)
    ensures Sum(ChunkLens(len)[..k]) == k * ChunkSize
  {
    if k > 0 {
      var l := ChunkLens(len);
      assert l[..k][..k - 1] == l[..k - 1];
      ChunkLensPrefix(len, k - 1);
    }
  }

  /** The chunk lengths add up to the payload length. */
  lemma ChunkLensSum(len: nat)
    ensures Sum(ChunkLens(len)) == len
  {
    var n := ChunkCount(len);
    if n > 0 {
      var l := ChunkLens(len);
      assert l[..n] == l;
      ChunkLensPrefix(len, n - 1);
      LastChunk(len);
    }
  }

  /** Concatenation of a sequence of chunks, in index order. */
  function Concat(cs: seq<seq<byte>>): seq<byte>
  {
    if |cs| == 0 then [] else Concat(cs[..|cs| - 1]) + cs[|cs| - 1]
  }

  /** Concatenating one more chunk appends it. */
  lemma ConcatNext(cs: seq<seq<byte>>, k: nat)
    requires k < |cs|
    ensures Concat(cs[..k + 1]) == Concat(cs[..k]) + cs[k]
  {
    assert cs[..k + 1][..k] == cs[..k];
  }

  /** The concatenation only depends on the chunks it takes. */
  lemma {:induction false} ConcatEqual(cs: seq<seq<byte>>, ds: seq<seq<byte>>, k: nat)
    requires k <= |cs| && k <= |ds|
    requires forall i :: 0 <= i < k ==> cs[i] == ds[i]
    ensures Concat(cs[..k]) == Concat(ds[..k])
  {
    if k > 0 {
      ConcatEqual(cs, ds, k - 1);
      ConcatNext(cs, k - 1);
      ConcatNext(ds, k - 1);
    }
  }
}
