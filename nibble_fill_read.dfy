/** The stream phase of the round trip: from the end of the header, the
    decoder XORs the bytes back with the cycling key and hands them to
    the groups in header order, each until it holds its size. The proof
    goes through the list of streams, one per listed group. */
module NibbleFillRead {
  import opened Bits
  import opened Wrappers
  import opened BitStreams
  import opened NibbleTree
  import opened NibbleDecoder
  import opened NibbleRoundTrip

  /** The streams one after the other. */
  function Flat(ws: seq<seq<byte>>): seq<byte>
    decreases |ws|
  {
    if |ws| == 0 then [] else ws[0] + Flat(ws[1..])
  }

  /** What is left to read in the middle of stream `t`, `r` bytes in. */
  function Rest(ws: seq<seq<byte>>, t: nat, r: nat): seq<byte>
    requires t < |ws| && r <= |ws[t]|
  {
    ws[t][r..] + Flat(ws[t + 1..])
  }

  /** Byte `j` XORed with the key byte `pos + j` places on. */
  function CycledAt(b: seq<byte>, key: seq<byte>, pos: nat): (r: seq<byte>)
    requires |key| > 0
    ensures |r| == |b|
  {
    seq(|b|, j requires 0 <= j < |b| => Xor8(b[j], key[(pos + j) % |key|]))
  }

  /** The table with the stream of every group from `o[t]` on set. */
  function SetStreams(table: seq<Option<Group>>, o: seq<nat>, ws: seq<seq<byte>>, t: nat): (r: seq<Option<Group>>)
    requires |table| == 16 && Small(o) && |ws| == |o| && t <= |o|
    ensures |r| == 16
    decreases |o| - t
  {
    if t == |o| then table
    else
      var g := o[t];
      SetStreams(if table[g].Some? then table[g := Some(table[g].value.(stream := ws[t]))] else table, o, ws, t + 1)
  }

  /** One byte appended to the stream of group `g`. */
  function Feed(table: seq<Option<Group>>, g: nat, d: byte): (r: seq<Option<Group>>)
    requires g < |table| && table[g].Some?
    ensures |r| == |table|
  {
    table[g := Some(table[g].value.(stream := table[g].value.stream + [d]))]
  }

  /** The key index after one byte: wrapped at the key's length, then
      moved on. */
  function KeyNext(k: nat, n: nat): nat
  {
    (if k == n then 0 else k) + 1
  }

  /** The loop state `r` bytes into stream `t`: the groups from `o[t]` on
      await their streams, `o[t]` holding the first `r` bytes, the rest
      of the streams sits at `idx` cycled from key position `pos`, and
      the key index `k` is at that position. */
  predicate Fillable(e: seq<byte>, key: seq<byte>, o: seq<nat>, ws: seq<seq<byte>>, t: nat, r: nat,
                     idx: nat, k: nat, pos: nat, table: seq<Option<Group>>)
  {
    |key| > 0 && |table| == 16 && Small(o) && Distinct(o) && |ws| == |o| && t <= |o| &&
    k <= |key| && k % |key| == pos % |key| &&
    (forall u :: t <= u < |o| ==>
       table[o[u]].Some? && table[o[u]].value.size == |ws[u]| && (u > t ==> table[o[u]].value.stream == [])) &&
    (t < |o| ==> r <= |ws[t]| && table[o[t]].value.stream == ws[t][..r] && At(e, idx, CycledAt(Rest(ws, t, r), key, pos)))
  }

  /** The stream loop from such a state sets every remaining stream. */
  lemma {:induction false} FillFrom(e: seq<byte>, key: seq<byte>, o: seq<nat>, ws: seq<seq<byte>>, t: nat, r: nat,
                                   idx: nat, k: nat, pos: nat, table: seq<Option<Group>>)
    requires Fillable(e, key, o, ws, t, r, idx, k, pos, table)
    ensures FillStreams(e, key, o, t, idx, k, table) == Some(SetStreams(table, o, ws, t))
    decreases |o| - t, if t < |o| then |ws[t]| - r else 0, 1
  {
    if t < |o| {
      if r == |ws[t]| {
        FillFull(e, key, o, ws, t, idx, k, pos, table);
        FillFrom(e, key, o, ws, t + 1, 0, idx, k, pos, table);
      } else {
        FillIn(e, key, o, ws, t, r, idx, k, pos, table);
      }
    }
  }

  /** The same, from a state whose current stream still lacks a byte. */
  lemma {:induction false} FillIn(e: seq<byte>, key: seq<byte>, o: seq<nat>, ws: seq<seq<byte>>, t: nat, r: nat,
                                 idx: nat, k: nat, pos: nat, table: seq<Option<Group>>)
    requires Fillable(e, key, o, ws, t, r, idx, k, pos, table) && t < |o| && r < |ws[t]|
    ensures FillStreams(e, key, o, t, idx, k, table) == Some(SetStreams(table, o, ws, t))
    decreases |o| - t, |ws[t]| - r, 0
  {
    FillByte(e, key, o, ws, t, r, idx, k, pos, table);
    FillByteNext(e, key, o, ws, t, r, idx, k, pos, table);
    FillFrom(e, key, o, ws, t, r + 1, idx + 1, KeyNext(k, |key|), pos + 1, Feed(table, o[t], ws[t][r]));
  }

  /** A full stream passes the loop on to the next group. */
  lemma FillFull(e: seq<byte>, key: seq<byte>, o: seq<nat>, ws: seq<seq<byte>>, t: nat,
                 idx: nat, k: nat, pos: nat, table: seq<Option<Group>>)
    requires t < |o| == |ws| && Fillable(e, key, o, ws, t, |ws[t]|, idx, k, pos, table)
    ensures FillStreams(e, key, o, t, idx, k, table) == FillStreams(e, key, o, t + 1, idx, k, table)
    ensures SetStreams(table, o, ws, t) == SetStreams(table, o, ws, t + 1)
    ensures Fillable(e, key, o, ws, t + 1, 0, idx, k, pos, table)
  {
    var g := o[t];
    assert ws[t][..|ws[t]|] == ws[t];
    UpdateSame(table, g);
    if t + 1 < |o| {
      RestNext(ws, t);
    }
  }

  /** Setting a slot to what it holds changes nothing. */
  lemma UpdateSame(table: seq<Option<Group>>, g: nat)
    requires g < |table| && table[g].Some?
    ensures table[g := Some(table[g].value.(stream := table[g].value.stream))] == table
  {
  }

  /** The end of one stream is the start of the next. */
  lemma RestNext(ws: seq<seq<byte>>, t: nat)
    requires t + 1 < |ws|
    ensures Rest(ws, t, |ws[t]|) == Rest(ws, t + 1, 0)
  {
    assert ws[t][|ws[t]|..] == [];
    assert ws[t + 1..][1..] == ws[t + 2..];
    assert ws[t + 1][0..] == ws[t + 1];
  }

  /** One byte read into stream `t`. */
  lemma FillByte(e: seq<byte>, key: seq<byte>, o: seq<nat>, ws: seq<seq<byte>>, t: nat, r: nat,
                 idx: nat, k: nat, pos: nat, table: seq<Option<Group>>)
    requires Fillable(e, key, o, ws, t, r, idx, k, pos, table) && t < |o| && r < |ws[t]|
    ensures FillStreams(e, key, o, t, idx, k, table)
            == FillStreams(e, key, o, t, idx + 1, KeyNext(k, |key|), Feed(table, o[t], ws[t][r]))
  {
    var g := o[t];
    var rest := Rest(ws, t, r);
    RestHead(ws, t, r);
    AtIndex(e, idx, CycledAt(rest, key, pos), 0);
    KeyIndexStep(k, pos, |key|);
    XorCancel(ws[t][r], key[pos % |key|]);
    assert ws[t][..r] == table[g].value.stream;
  }

  /** The next byte of what is left, and what is left after it. */
  lemma RestHead(ws: seq<seq<byte>>, t: nat, r: nat)
    requires t < |ws| && r < |ws[t]|
    ensures |Rest(ws, t, r)| > 0 && Rest(ws, t, r)[0] == ws[t][r]
    ensures Rest(ws, t, r)[1..] == Rest(ws, t, r + 1)
  {
    assert ws[t][r..][1..] == ws[t][r + 1..];
  }

  /** The cycled bytes past the first. */
  lemma CycledTail(b: seq<byte>, key: seq<byte>, pos: nat)
    requires |key| > 0 && |b| > 0
    ensures CycledAt(b, key, pos)[1..] == CycledAt(b[1..], key, pos + 1)
  {
  }

  /** The state after one byte read. */
  lemma FillByteNext(e: seq<byte>, key: seq<byte>, o: seq<nat>, ws: seq<seq<byte>>, t: nat, r: nat,
                     idx: nat, k: nat, pos: nat, table: seq<Option<Group>>)
    requires Fillable(e, key, o, ws, t, r, idx, k, pos, table) && t < |o| && r < |ws[t]|
    ensures Fillable(e, key, o, ws, t, r + 1, idx + 1, KeyNext(k, |key|), pos + 1, Feed(table, o[t], ws[t][r]))
    ensures SetStreams(Feed(table, o[t], ws[t][r]), o, ws, t) == SetStreams(table, o, ws, t)
  {
    var g := o[t];
    var b := table[g].value;
    var table' := Feed(table, g, ws[t][r]);
    KeyIndexStep(k, pos, |key|);
    RestHead(ws, t, r);
    CycledTail(Rest(ws, t, r), key, pos);
    AtTail(e, idx, CycledAt(Rest(ws, t, r), key, pos));
    SnocPrefix(ws[t], r);
    assert forall u :: t < u < |o| ==> o[u] != g;
    assert table'[g := Some(b.(stream := ws[t]))] == table[g := Some(b.(stream := ws[t]))];
  }

  /** What follows the first byte of a part. */
  lemma AtTail(e: seq<byte>, a: nat, w: seq<byte>)
    requires At(e, a, w) && |w| > 0
    ensures At(e, a + 1, w[1..])
  {
    assert w == [w[0]] + w[1..];
    AtSplit(e, a, [w[0]], w[1..]);
  }

  /** Setting the streams from `o[t]` on gives group `o[u]` its stream
      and leaves the slots of other groups alone. */
  lemma {:induction false} SetStreamsAt(table: seq<Option<Group>>, o: seq<nat>, ws: seq<seq<byte>>, t: nat, h: nat)
    requires |table| == 16 && Small(o) && Distinct(o) && |ws| == |o| && t <= |o| && h < 16
    ensures forall u :: t <= u < |o| && o[u] == h && table[h].Some? ==>
              SetStreams(table, o, ws, t)[h] == Some(table[h].value.(stream := ws[u]))
    ensures (forall u :: t <= u < |o| ==> o[u] != h) ==> SetStreams(table, o, ws, t)[h] == table[h]
    decreases |o| - t
  {
    if t < |o| {
      var g := o[t];
      var next := if table[g].Some? then table[g := Some(table[g].value.(stream := ws[t]))] else table;
      SetStreamsAt(next, o, ws, t + 1, h);
    }
  }

  /** The streams of the listed groups, in order. */
  function StreamList(s: seq<byte>): (ws: seq<seq<byte>>)
    ensures |ws| == |Order(s)|
  {
    seq(|Order(s)|, u requires 0 <= u < |Order(s)| => Stream(s, |s|, Order(s)[u]))
  }

  lemma {:induction false} FlatSnoc(ws: seq<seq<byte>>, w: seq<byte>)
    ensures Flat(ws + [w]) == Flat(ws) + w
    decreases |ws|
  {
    if |ws| > 0 {
      assert (ws + [w])[1..] == ws[1..] + [w];
      FlatSnoc(ws[1..], w);
    } else {
      assert (ws + [w])[1..] == [];
    }
  }

  /** The streams of the first `t` groups, one after the other. */
  lemma {:induction false} FlatPrefix(s: seq<byte>, t: nat)
    requires t <= |Order(s)|
    ensures Flat(StreamList(s)[..t]) == Streams(s, Order(s)[..t])
  {
    if t > 0 {
      FlatPrefix(s, t - 1);
      FlatStep(StreamList(s), t);
      StreamsStep(s, Order(s), t);
    }
  }

  lemma FlatStep(ws: seq<seq<byte>>, t: nat)
    requires 0 < t <= |ws|
    ensures Flat(ws[..t]) == Flat(ws[..t - 1]) + ws[t - 1]
  {
    SnocPrefix(ws, t - 1);
    FlatSnoc(ws[..t - 1], ws[t - 1]);
  }

  lemma StreamsStep(s: seq<byte>, o: seq<nat>, t: nat)
    requires 0 < t <= |o|
    ensures Streams(s, o[..t]) == Streams(s, o[..t - 1]) + Stream(s, |s|, o[t - 1])
  {
    SnocPrefix(o, t - 1);
    StreamsSnoc(s, o[..t - 1], o[t - 1]);
  }

  lemma StreamsSnoc(s: seq<byte>, p: seq<nat>, g: nat)
    ensures Streams(s, p + [g]) == Streams(s, p) + Stream(s, |s|, g)
  {
    assert (p + [g])[..|p|] == p;
  }

  lemma FlatStreams(s: seq<byte>)
    ensures Flat(StreamList(s)) == Streams(s, Order(s))
  {
    FlatPrefix(s, |Order(s)|);
    assert StreamList(s)[..|Order(s)|] == StreamList(s);
    assert Order(s)[..|Order(s)|] == Order(s);
  }

  /** The table after the stream loop: every listed group with its size,
      its stream and its exceptions. */
  function FilledTable(s: seq<byte>): (t: seq<Option<Group>>)
    ensures |t| == 16
  {
    seq(16, h => if h in Order(s) then Some(Group(h, Count(s, h), 0, 0, Stream(s, |s|, h), ListOf(ExcList(s, |s|, h)))) else None)
  }

  /** The table the exception loop leaves, before the streams. */
  function ExceptedTable(s: seq<byte>): (t: seq<Option<Group>>)
    ensures |t| == 16
  {
    seq(16, h => if h in Order(s) then Some(Group(h, Count(s, h), 0, 0, [], ListOf(ExcList(s, |s|, h)))) else None)
  }

  /** Setting the streams in that table gives the filled table. */
  lemma SetAll(s: seq<byte>)
    ensures SetStreams(ExceptedTable(s), Order(s), StreamList(s), 0) == FilledTable(s)
  {
    var o, ws := Order(s), StreamList(s);
    var a, b := SetStreams(ExceptedTable(s), o, ws, 0), FilledTable(s);
    OrderDistinct(s);
    forall h | 0 <= h < 16
      ensures a[h] == b[h]
    {
      SetStreamsAt(ExceptedTable(s), o, ws, 0, h);
    }
    SeqExt(a, b);
  }

  /** The loop starts where the header ends with the streams cycled there. */
  lemma FillStart(s: seq<byte>, e: seq<byte>, key: seq<byte>, x: nat)
    requires 0 < |s| && |key| > 0 && At(e, x, Cycled(Streams(s, Order(s)), key))
    ensures Fillable(e, key, Order(s), StreamList(s), 0, 0, x, 0, 0, ExceptedTable(s))
  {
    OrderDistinct(s);
    StartSlots(s);
    StartBytes(s, key);
  }

  /** Every listed group awaits its stream. */
  lemma StartSlots(s: seq<byte>)
    ensures forall u :: 0 <= u < |Order(s)| ==>
              ExceptedTable(s)[Order(s)[u]].Some? && ExceptedTable(s)[Order(s)[u]].value.size == |StreamList(s)[u]| &&
              ExceptedTable(s)[Order(s)[u]].value.stream == []
  {
    assert s[..|s|] == s;
  }

  /** The bytes read are the streams, cycled from key position zero. */
  lemma StartBytes(s: seq<byte>, key: seq<byte>)
    requires 0 < |s| && |key| > 0
    ensures Cycled(Streams(s, Order(s)), key) == CycledAt(Rest(StreamList(s), 0, 0), key, 0)
  {
    var ws := StreamList(s);
    OrderHead(s);
    FlatStreams(s);
    assert ws[0][0..] == ws[0];
  }

  /** The stream loop, from the end of the header, fills every stream. */
  lemma FillPhase(s: seq<byte>, e: seq<byte>, key: seq<byte>, x: nat)
    requires 0 < |s| < U64 && |key| > 0 && At(e, x, Cycled(Streams(s, Order(s)), key))
    ensures FillStreams(e, key, Order(s), 0, x, 0, ExceptedTable(s)) == Some(FilledTable(s))
  {
    FillStart(s, e, key, x);
    FillFrom(e, key, Order(s), StreamList(s), 0, 0, x, 0, 0, ExceptedTable(s));
    SetAll(s);
  }
}
