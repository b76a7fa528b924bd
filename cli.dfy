/** The command-line front end of cli.hpp: the buffer pool that holds the
    chunks of a file, the file handler whose writer puts the chunks into
    the destination in index order whatever order the workers finish in,
    and the argument scanner with its extension filter.

    Buffers are values: a slot of the pool holds the bytes of its buffer,
    and writing through the pointer `get_buffer` returns is the explicit
    `Store` step. */
module Cli {
  import opened Bits
  import opened Wrappers
  import opened Chunks

  /** The `buff_queue` entry of a chunk that has not been queued. */
  const Unqueued: int := -1

  /** `BufferManager`: one slot per chunk of the payload, holding the
      chunk's buffer (`None` for a null pointer) and its length. */
  class BufferManager {
    const poolSize: nat
    const pool: array<Option<seq<byte>>>
    const lens: array<nat>

    /** The arrays have one entry per chunk, and an allocated buffer has the
        length recorded for its slot. */
    ghost predicate Valid()
      reads this, pool, lens
    {
      pool.Length == poolSize && lens.Length == poolSize &&
      forall i :: 0 <= i < poolSize && pool[i].Some? ==> |pool[i].value| == lens[i]
    }

    /** The constructor: one slot per chunk of `completeLength` bytes, all
        empty, every slot a full chunk long except the last, which holds the
        rest; the lengths add up to `completeLength` (`ChunkLensSum`). */
    constructor (completeLength: nat)
      ensures Valid() && fresh(pool) && fresh(lens)
      ensures poolSize == ChunkCount(completeLength)
      ensures forall i :: 0 <= i < poolSize ==> pool[i] == None
      ensures lens[..] == ChunkLens(completeLength)
    {
      var totalChunks := completeLength / ChunkSize;
      var lastChunk := completeLength % ChunkSize;
      if lastChunk != 0 {
        totalChunks := totalChunks + 1;
      } else {
        lastChunk := ChunkSize;
      }
      poolSize := totalChunks;
      var p := new Option<seq<byte>>[totalChunks](_ => None);
      var l := new nat[totalChunks];
      for i := 0 to totalChunks
        invariant forall j :: 0 <= j < i ==> l[j] == ChunkLen(completeLength, j)
        invariant forall j :: 0 <= j < totalChunks ==> p[j] == None
      {
        l[i] := if i == totalChunks - 1 then lastChunk else ChunkSize;
      }
      pool, lens := p, l;
    }

    /** `get_buffer`: allocates a buffer of the slot's length only when the
        slot is empty; otherwise returns the buffer already there. The bytes
        of a new buffer are indeterminate. */
    method GetBuffer(index: nat) returns (b: seq<byte>)
      requires Valid() && index < poolSize
      modifies pool
      ensures Valid()
      ensures old(pool[index]).Some? ==> b == old(pool[index]).value && pool[..] == old(pool[..])
      ensures old(pool[index]).None? ==>
                |b| == lens[index] && pool[..] == old(pool[..])[index := Some(b)]
    {
      if pool[index] == None {
        b := seq(lens[index], _ => 0);
        pool[index] := Some(b);
      } else {
        b := pool[index].value;
      }
    }

    /** Writing `data` through the pointer of an allocated slot. */
    method Store(index: nat, data: seq<byte>)
      requires Valid() && index < poolSize && pool[index].Some? && |data| == lens[index]
      modifies pool
      ensures Valid()
      ensures pool[..] == old(pool[..])[index := Some(data)]
    {
      pool[index] := Some(data);
    }

    /** `free_buffer`: empties the slot and sets its length to 0; every
        other slot is unchanged. */
    method FreeBuffer(index: nat)
      requires Valid() && index < poolSize
      modifies pool, lens
      ensures Valid()
      ensures pool[..] == old(pool[..])[index := None]
      ensures lens[..] == old(lens[..])[index := 0]
    {
      pool[index] := None;
      lens[index] := 0;
    }
  }

  /** `FileHandler`: the source file, the buffer pool of its payload, the
      queue of finished chunks and the writer's state. `queue_chunk` marks a
      chunk by storing `index + offset` in `buff_queue`: the offset is 1 in
      cli.hpp and 0 in the `FileManager` of xor_cryptor.cpp, and both marks
      differ from `Unqueued`. `out` is what the writer has written to the
      destination; `chunks` records, for each queued chunk, the bytes its
      buffer held when it was queued. */
  class FileHandler {
    const buffers: BufferManager
    const queue: array<int>
    const offset: nat
    const file: seq<byte>
    const length: nat
    var readPos: nat
    var cur: nat
    var out: seq<byte>
    ghost var chunks: seq<seq<byte>>

    /** The writer has written exactly the queued chunks before `cur`, in
        index order, and each queued chunk not yet written is still in its
        buffer as it was when queued. */
    ghost predicate Valid()
      reads this, buffers, buffers.pool, buffers.lens, queue
    {
      buffers.Valid() && queue.Length == buffers.poolSize && |chunks| == buffers.poolSize &&
      cur <= queue.Length && readPos <= |file| &&
      (forall i :: 0 <= i < queue.Length ==> queue[i] == Unqueued || queue[i] == i + offset) &&
      (forall i :: 0 <= i < cur ==> queue[i] != Unqueued) &&
      (forall i :: cur <= i < queue.Length && queue[i] != Unqueued ==>
         buffers.pool[i] == Some(chunks[i])) &&
      out == Concat(chunks[..cur])
    }

    /** The constructor: the payload is the whole file when encrypting and
        the file without its 32-byte digest when decrypting; the pool has one
        empty slot per chunk of it and every queue entry is `Unqueued`. A file
        shorter than the digest would make the unsigned length wrap. */
    constructor (file: seq<byte>, decrypt: bool, offset: nat)
      requires decrypt ==> |file| >= 32
      ensures Valid() && fresh(buffers) && fresh(buffers.pool) && fresh(buffers.lens) && fresh(queue)
      ensures this.file == file && this.offset == offset
      ensures length == if decrypt then |file| - 32 else |file|
      ensures buffers.poolSize == ChunkCount(length) && buffers.lens[..] == ChunkLens(length)
      ensures forall i :: 0 <= i < buffers.poolSize ==> buffers.pool[i] == None
      ensures forall i :: 0 <= i < queue.Length ==> queue[i] == Unqueued
      ensures readPos == 0 && cur == 0 && out == []
    {
      var fileLength := |file|;
      if decrypt {
        fileLength := fileLength - 32;
      }
      var bm := new BufferManager(fileLength);
      buffers := bm;
      queue := new int[bm.poolSize](_ => Unqueued);
      this.offset := offset;
      this.file := file;
      length := fileLength;
      readPos, cur, out := 0, 0, [];
      chunks := seq(bm.poolSize, _ => []);
    }

    /** `read_hash`: the next 32 bytes of the file. */
    method ReadHash() returns (hash: seq<byte>)
      requires Valid() && readPos + 32 <= |file|
      modifies this
      ensures Valid()
      ensures hash == file[old(readPos)..old(readPos) + 32] && readPos == old(readPos) + 32
      ensures cur == old(cur) && out == old(out) && chunks == old(chunks)
    {
      hash := file[readPos..readPos + 32];
      readPos := readPos + 32;
    }

    /** `read_file`: fills the buffer of chunk `index` (allocating it when
        needed) with the next bytes of the file, as many as the slot's
        length; fails, as the source throws, when the file has fewer left. A
        chunk read while it is queued and not yet written would change what
        the writer writes, hence the precondition. */
    method ReadFile(index: nat) returns (ok: bool)
      requires Valid() && index < queue.Length
      requires index >= cur ==> queue[index] == Unqueued
      modifies this, buffers.pool
      ensures Valid()
      ensures ok <==> old(readPos) + buffers.lens[index] <= |file|
      ensures ok ==> readPos == old(readPos) + buffers.lens[index] &&
                     buffers.pool[..] == old(buffers.pool[..])[index := Some(file[old(readPos)..readPos])]
      ensures !ok ==> readPos == |file| && buffers.pool[index].Some? &&
                      forall i :: 0 <= i < queue.Length && i != index ==> buffers.pool[i] == old(buffers.pool[i])
      ensures cur == old(cur) && out == old(out) && chunks == old(chunks)
    {
      var b := buffers.GetBuffer(index);
      var len := buffers.lens[index];
      if readPos + len <= |file| {
        buffers.Store(index, file[readPos..readPos + len]);
        readPos := readPos + len;
        ok := true;
      } else {
        readPos := |file|;
        ok := false;
      }
    }

    /** A worker writing the processed bytes of chunk `index` into its
        buffer, through the pointer `get_buffer` returned. */
    method StoreChunk(index: nat, data: seq<byte>)
      requires Valid() && index < queue.Length
      requires buffers.pool[index].Some? && |data| == buffers.lens[index]
      requires index >= cur ==> queue[index] == Unqueued
      modifies buffers.pool
      ensures Valid()
      ensures buffers.pool[..] == old(buffers.pool[..])[index := Some(data)]
    {
      buffers.Store(index, data);
    }

    /** `queue_chunk`: marks chunk `index`, and only it, as finished. From
        then on the writer may write it; the bytes it will write are those
        the buffer holds now. */
    method QueueChunk(index: nat)
      requires Valid() && index < queue.Length
      requires index >= cur ==> buffers.pool[index].Some?
      modifies this, queue
      ensures Valid()
      ensures queue[..] == old(queue[..])[index := index + offset]
      ensures chunks == if index >= cur then old(chunks)[index := buffers.pool[index].value] else old(chunks)
      ensures cur == old(cur) && out == old(out) && readPos == old(readPos)
    {
      queue[index] := index + offset;
      if index >= cur {
        chunks := chunks[index := buffers.pool[index].value];
        assert chunks[..cur] == old(chunks)[..cur];
      }
    }

    /** One poll of the writer loop: when the current chunk has been queued
        the writer appends its buffer to the destination, frees it and moves
        to the next chunk; otherwise it waits and nothing changes. */
    method WriterStep() returns (wrote: bool)
      requires Valid()
      modifies this, buffers.pool, buffers.lens
      ensures Valid()
      ensures wrote <==> old(cur) < queue.Length && queue[old(cur)] != Unqueued
      ensures wrote ==> cur == old(cur) + 1 && out == old(out) + chunks[old(cur)] &&
                        buffers.pool[..] == old(buffers.pool[..])[old(cur) := None] &&
                        buffers.lens[..] == old(buffers.lens[..])[old(cur) := 0]
      ensures !wrote ==> cur == old(cur) && out == old(out) && unchanged(buffers.pool, buffers.lens)
      ensures chunks == old(chunks) && readPos == old(readPos)
    {
      if cur < buffers.poolSize && queue[cur] != Unqueued {
        var b := buffers.GetBuffer(cur);
        out := out + b;
        buffers.FreeBuffer(cur);
        ConcatNext(chunks, cur);
        cur := cur + 1;
        wrote := true;
      } else {
        wrote := false;
      }
    }

    /** The writer polling until it has to wait or has written every chunk. */
    method Drain()
      requires Valid()
      modifies this, buffers.pool, buffers.lens
      ensures Valid()
      ensures cur >= old(cur) && (cur == queue.Length || queue[cur] == Unqueued)
      ensures out == Concat(chunks[..cur]) && chunks == old(chunks) && readPos == old(readPos)
      ensures forall i :: cur <= i < queue.Length ==> buffers.pool[i] == old(buffers.pool[i])
    {
      var wrote := true;
      while wrote
        invariant Valid() && cur >= old(cur) && chunks == old(chunks) && readPos == old(readPos)
        invariant !wrote ==> cur == queue.Length || queue[cur] == Unqueued
        invariant forall i :: cur <= i < queue.Length ==> buffers.pool[i] == old(buffers.pool[i])
        decreases queue.Length - cur, wrote
      {
        wrote := WriterStep();
      }
    }
  }

  /** The sequential schedule of a file job: read every chunk in index
      order (after the digest when decrypting), then queue the chunks in any
      `order` that names each of them, the writer polling after each. The
      destination is the payload: the chunks in index order, whatever order
      they were queued in. */
  method WriteChunks(file: seq<byte>, decrypt: bool, offset: nat, order: seq<nat>) returns (dest: seq<byte>)
    requires decrypt ==> |file| >= 32
    requires var n := ChunkCount(if decrypt then |file| - 32 else |file|);
             (forall k :: 0 <= k < |order| ==> order[k] < n) && (forall i :: 0 <= i < n ==> i in order)
    ensures dest == if decrypt then file[32..] else file
  {
    var h := new FileHandler(file, decrypt, offset);
    if decrypt {
      var hash := h.ReadHash();
    }
    ghost var parts := ReadChunks(h);
    QueueChunks(h, order, parts);
    dest := h.out;
  }

  /** Reading one more stretch of `f` extends the chunks read so far. */
  lemma ReadMore(parts: seq<seq<byte>>, f: seq<byte>, base: nat, pos: nat, end: nat)
    requires base <= pos <= end <= |f| && Concat(parts) == f[base..pos]
    ensures Concat(parts + [f[pos..end]]) == f[base..end]
  {
    var next := parts + [f[pos..end]];
    assert next[..|parts|] == parts;
    ConcatNext(next, |parts|);
    assert next[..|parts| + 1] == next;
    assert f[base..end] == f[base..pos] + f[pos..end];
  }

  /** One turn of the read loop: chunk `i`, the next stretch of the file,
      is read into its buffer. */
  method ReadNext(h: FileHandler, i: nat, ghost base: nat, ghost parts: seq<seq<byte>>)
    returns (ghost next: seq<seq<byte>>)
    requires h.Valid() && h.cur == 0 && h.out == [] && i < h.queue.Length
    requires forall j :: 0 <= j < h.queue.Length ==> h.queue[j] == Unqueued
    requires |parts| == i && base <= h.readPos && h.readPos + h.buffers.lens[i] <= |h.file|
    requires forall j :: 0 <= j < i ==> h.buffers.pool[j] == Some(parts[j])
    requires Concat(parts) == h.file[base..h.readPos]
    modifies h, h.buffers.pool
    ensures h.Valid() && h.cur == 0 && h.out == [] && h.readPos == old(h.readPos) + h.buffers.lens[i]
    ensures |next| == i + 1 && forall j :: 0 <= j < i + 1 ==> h.buffers.pool[j] == Some(next[j])
    ensures Concat(next) == h.file[base..h.readPos]
  {
    var pos := h.readPos;
    var ok := h.ReadFile(i);
    ReadMore(parts, h.file, base, pos, h.readPos);
    next := parts + [h.file[pos..h.readPos]];
  }

  /** Reading every chunk of the payload in index order: chunk `i` holds
      the `i`-th stretch of the file, so the chunks in index order make up
      the rest of the file. */
  method ReadChunks(h: FileHandler) returns (ghost parts: seq<seq<byte>>)
    requires h.Valid() && h.cur == 0 && h.out == []
    requires h.readPos + h.length == |h.file| && h.buffers.lens[..] == ChunkLens(h.length)
    requires forall j :: 0 <= j < h.queue.Length ==> h.queue[j] == Unqueued
    modifies h, h.buffers.pool
    ensures h.Valid() && h.cur == 0 && |parts| == h.queue.Length
    ensures forall j :: 0 <= j < h.queue.Length ==> h.buffers.pool[j] == Some(parts[j])
    ensures Concat(parts) == h.file[old(h.readPos)..]
  {
    var n := h.buffers.poolSize;
    ghost var lens := h.buffers.lens[..];
    ghost var base := h.readPos;
    parts := [];
    ChunkLensSum(h.length);
    for i := 0 to n
      invariant h.Valid() && h.cur == 0 && h.out == []
      invariant forall j :: 0 <= j < n ==> h.queue[j] == Unqueued
      invariant |parts| == i && h.readPos == base + Sum(lens[..i])
      invariant forall j :: 0 <= j < i ==> h.buffers.pool[j] == Some(parts[j])
      invariant Concat(parts) == h.file[base..h.readPos]
    {
      SumNext(lens, i);
      SumPrefix(lens, i + 1);
      parts := ReadNext(h, i, base, parts);
    }
    assert lens[..n] == lens;
  }

  /** Queueing the chunks in any `order` that names each of them, the
      writer polling after each: the destination is the chunks in index
      order. */
  method QueueChunks(h: FileHandler, order: seq<nat>, ghost parts: seq<seq<byte>>)
    requires h.Valid() && h.cur == 0 && |parts| == h.queue.Length
    requires forall j :: 0 <= j < h.queue.Length ==> h.queue[j] == Unqueued
    requires forall j :: 0 <= j < h.queue.Length ==> h.buffers.pool[j] == Some(parts[j])
    requires (forall k :: 0 <= k < |order| ==> order[k] < h.queue.Length) &&
             (forall i :: 0 <= i < h.queue.Length ==> i in order)
    modifies h, h.queue, h.buffers.pool, h.buffers.lens
    ensures h.Valid() && h.cur == h.queue.Length
    ensures h.out == Concat(parts)
  {
    var n := h.queue.Length;
    for k := 0 to |order|
      invariant h.Valid()
      invariant forall j :: h.cur <= j < n ==> h.buffers.pool[j] == Some(parts[j])
      invariant forall j :: 0 <= j < n && h.queue[j] != Unqueued ==> h.chunks[j] == parts[j]
      invariant forall j :: 0 <= j < k ==> h.queue[order[j]] != Unqueued
      invariant k > 0 ==> h.cur == n || h.queue[h.cur] == Unqueued
    {
      h.QueueChunk(order[k]);
      h.Drain();
    }
    var c := h.cur;
    assert c < n ==> c in order;
    ConcatEqual(h.chunks, parts, n);
    assert h.chunks[..n] == h.chunks && parts[..n] == parts;
  }

  /** A prefix of a sequence of naturals sums to at most the whole. */
  lemma {:induction false} SumPrefix(s: seq<nat>, k: nat)
    requires k <= |s|
    ensures Sum(s[..k]) <= Sum(s)
    decreases |s| - k
  {
    if k < |s| {
      SumNext(s, k);
      SumPrefix(s, k + 1);
    } else {
      assert s[..k] == s;
    }
  }
}
