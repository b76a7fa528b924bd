/** `FileManager` of file_manager.cpp: a pool of chunk slots, each holding
    a buffer handed over by a worker (`None` for a null pointer) and its
    length, and a writer that writes the slots strictly in index order,
    waiting on an empty slot, and empties each slot it has written.
    Buffers are values: the bytes the writer writes are those of the buffer
    when it was handed over. */
module FileManager {
  import opened Bits
  import opened Wrappers
  import opened Chunks

  class FileManager {
    var pool: array?<Option<seq<byte>>>
    var lengths: array?<nat>
    var numChunks: nat
    /** Whether `dispatch_writer_thread` has started the writer. */
    var started: bool
    /** `thread_complete`. */
    var complete: bool
    /** The writer's `curr_chunk_id` and what it has written so far. */
    var cur: nat
    var out: seq<byte>
    /** The indexes handed over, and the bytes the writer will write for each. */
    ghost var received: set<nat>
    ghost var chunks: seq<seq<byte>>

    /** The writer has written, in index order, only slots that were handed
        over; a slot after it is non-empty exactly when it was handed over
        and still holds what was handed over; a started writer has
        completed exactly when there is no pool or no slot is left. */
    ghost predicate Valid()
      reads this, pool, lengths
    {
      (pool == null <==> lengths == null) &&
      (pool == null ==> numChunks == 0 && cur == 0 && out == [] && received == {}) &&
      (pool != null ==>
         pool.Length == numChunks && lengths.Length == numChunks && |chunks| == numChunks &&
         cur <= numChunks &&
         (forall i :: 0 <= i < numChunks && pool[i].Some? ==> lengths[i] <= |pool[i].value|) &&
         (forall i :: 0 <= i < cur ==> i in received) &&
         (forall i :: cur <= i < numChunks ==> (pool[i].Some? <==> i in received)) &&
         (forall i :: cur <= i < numChunks && pool[i].Some? ==>
            chunks[i] == pool[i].value[..lengths[i]]) &&
         out == Concat(chunks[..cur])) &&
      (!started ==> cur == 0 && out == [] && !complete) &&
      (complete ==> started) &&
      (started ==> (complete <==> pool == null || cur == numChunks))
    }

    /** No pool yet and no writer. */
    constructor ()
      ensures Valid() && pool == null && !started && out == []
    {
      pool, lengths, numChunks := null, null, 0;
      started, complete, cur, out := false, false, 0, [];
      received, chunks := {}, [];
    }

    /** `init_write_chunks`: `chunks` empty slots of length 0. */
    method InitWriteChunks(chunks: nat)
      requires Valid() && !started
      modifies this
      ensures Valid() && fresh(pool) && fresh(lengths) && numChunks == chunks
      ensures pool[..] == seq(chunks, _ => None) && lengths[..] == seq(chunks, _ => 0)
      ensures !started && out == []
    {
      numChunks := chunks;
      pool := new Option<seq<byte>>[chunks](_ => None);
      lengths := new nat[chunks](_ => 0);
      this.received, this.chunks := {}, seq(chunks, _ => []);
    }

    /** `write_chunk`: nothing happens without a pool, nor when slot
        `chunkId` already holds a buffer (the first buffer handed over
        wins); otherwise the buffer and its length go into that slot and
        no other. */
    method WriteChunk(buff: seq<byte>, buffLen: nat, chunkId: nat)
      requires Valid() && buffLen <= |buff|
      requires pool != null ==> chunkId < numChunks
      modifies pool, lengths, this
      ensures Valid()
      ensures pool == old(pool) && lengths == old(lengths) && numChunks == old(numChunks)
      ensures cur == old(cur) && out == old(out) && started == old(started) && complete == old(complete)
      ensures old(pool) == null ==> chunks == old(chunks) && received == old(received)
      ensures old(pool) != null && old(pool[chunkId]).Some? ==>
                unchanged(pool, lengths) && chunks == old(chunks) && received == old(received)
      ensures old(pool) != null && old(pool[chunkId]).None? ==>
                pool[..] == old(pool[..])[chunkId := Some(buff)] &&
                lengths[..] == old(lengths[..])[chunkId := buffLen] &&
                (chunkId >= cur ==> chunks == old(chunks)[chunkId := buff[..buffLen]] &&
                                    received == old(received) + {chunkId}) &&
                (chunkId < cur ==> chunks == old(chunks) && received == old(received))
    {
      if pool == null || lengths == null {
        return;
      }
      if pool[chunkId] != None {
        return;
      }
      pool[chunkId] := Some(buff);
      lengths[chunkId] := buffLen;
      if chunkId >= cur {
        chunks := chunks[chunkId := buff[..buffLen]];
        received := received + {chunkId};
        assert chunks[..cur] == old(chunks)[..cur];
      }
    }

    /** `dispatch_writer_thread`: starts the writer once; without a pool,
        or with a pool of no chunk (its loop runs no turn), the writer
        signals completion at once, having written nothing. */
    method DispatchWriter()
      requires Valid()
      modifies this
      ensures Valid() && started
      ensures old(started) ==> complete == old(complete)
      ensures !old(started) ==> (complete <==> pool == null || numChunks == 0)
      ensures out == old(out) && cur == old(cur) && pool == old(pool) && lengths == old(lengths)
      ensures received == old(received) && chunks == old(chunks) && numChunks == old(numChunks)
    {
      if started {
        return;
      }
      started := true;
      if pool == null || lengths == null {
        complete := true;
        return;
      }
      complete := numChunks == 0;
    }

    /** One poll of the writer loop: when the current slot holds a buffer
        the writer writes its bytes, deletes it, empties the slot and moves
        on, signalling completion after the last slot; otherwise it waits
        and nothing changes. */
    method WriterStep() returns (wrote: bool)
      requires Valid() && started && !complete
      modifies this, pool
      ensures pool != null && Valid() && started && pool == old(pool) && lengths == old(lengths)
      ensures wrote <==> old(cur) < numChunks && old(pool[cur]).Some?
      ensures wrote ==> cur == old(cur) + 1 && out == old(out) + chunks[old(cur)] &&
                        pool[..] == old(pool[..])[old(cur) := None] && (complete <==> cur == numChunks)
      ensures !wrote ==> cur == old(cur) && out == old(out) && unchanged(pool) && !complete
      ensures chunks == old(chunks) && received == old(received) && numChunks == old(numChunks)
    {
      if cur < numChunks && pool[cur].Some? {
        var buff := pool[cur].value;
        out := out + buff[..lengths[cur]];
        pool[cur] := None;
        ConcatNext(chunks, cur);
        cur := cur + 1;
        complete := cur == numChunks;
        wrote := true;
      } else {
        wrote := false;
      }
    }
  }

  /** Initialising `n` slots, starting the writer and handing over the
      chunks in any `order` naming each index below `n` (repeats allowed),
      the writer polling after each: the writer completes, and the
      destination is the chunks in index order. */
  method WriteInOrder(data: seq<seq<byte>>, order: seq<nat>) returns (dest: seq<byte>)
    requires (forall k :: 0 <= k < |order| ==> order[k] < |data|) &&
             (forall i :: 0 <= i < |data| ==> i in order)
    ensures dest == Concat(data)
  {
    var fm := new FileManager();
    var n := |data|;
    fm.InitWriteChunks(n);
    fm.DispatchWriter();
    if n == 0 {
      assert fm.complete && fm.out == Concat(data);
      return fm.out;
    }
    for k := 0 to |order|
      invariant fm.Valid() && fm.started && fm.pool != null && fm.numChunks == n
      invariant fresh(fm.pool) && fresh(fm.lengths)
      invariant forall j :: 0 <= j < n && j in fm.received ==> fm.chunks[j] == data[j]
      invariant forall j :: 0 <= j < k ==> order[j] in fm.received
      invariant !fm.complete ==> fm.cur == n || fm.pool[fm.cur].None?
      invariant fm.complete <==> fm.cur == n
    {
      var id := order[k];
      assert data[id][..|data[id]|] == data[id];
      fm.WriteChunk(data[id], |data[id]|, id);
      var wrote := true;
      while wrote && !fm.complete
        invariant fm.Valid() && fm.started && fm.pool != null && fm.numChunks == n
        invariant fresh(fm.pool) && fresh(fm.lengths)
        invariant forall j :: 0 <= j < n && j in fm.received ==> fm.chunks[j] == data[j]
        invariant forall j :: 0 <= j <= k ==> order[j] in fm.received
        invariant !wrote && !fm.complete ==> fm.cur == n || fm.pool[fm.cur].None?
        invariant fm.complete <==> fm.cur == n
        decreases n - fm.cur, wrote
      {
        wrote := fm.WriterStep();
      }
    }
    var c := fm.cur;
    assert c < n ==> c in order;
    ConcatEqual(fm.chunks, data, n);
    assert fm.chunks[..n] == fm.chunks && data[..n] == data;
    dest := fm.out;
  }
}
