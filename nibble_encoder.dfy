/** `encrypt_bytes` of the nibble-tree codec (xor_cryptor.hpp; the same
    code without progress callbacks in C++/xor_cryptor.hpp). The table of
    sixteen `Byte` pointers is a sequence of optional `Group` records: the
    records are reached only through the table, so updating a slot is
    updating the record. */
module NibbleEncoder {
  import opened Bits
  import opened Wrappers
  import opened BitStreams
  import opened NibbleTree

  /** Every slot is filled exactly for the listed groups, with a record
      of that group. */
  predicate Listed(table: seq<Option<Group>>, order: seq<nat>)
  {
    |table| == 16 &&
    forall h :: 0 <= h < 16 ==> (table[h].Some? <==> h in order)
  }

  /** A newly met group: a `Byte` with an empty stream. */
  function NewGroup(g: nat): Group
  {
    Group(g, 0, 0, 0, [], None)
  }

  /** The `nullptr` test before `new Byte(parent)`: a group met for the
      first time gets a record and joins the order. */
  method Register(table: seq<Option<Group>>, order: seq<nat>, g: nat)
    returns (table': seq<Option<Group>>, order': seq<nat>)
    requires g < 16 && |table| == 16
    ensures order' == if table[g].Some? then order else order + [g]
    ensures table' == if table[g].Some? then table else table[g := Some(NewGroup(g))]
    ensures Listed(table, order) ==> order' == (if g in order then order else order + [g]) && Listed(table', order')
  {
    table', order' := table, order;
    if table[g].None? {
      table' := table[g := Some(NewGroup(g))];
      order' := order + [g];
    }
  }

  /** `insert_node`: the node's data shifted up, ORed with the group it
      links to, joins the stream of `parent`; a link to group zero first
      writes an exception with the entry's rank `idx`. `next` is the
      `val` of the linked group, if any. */
  method InsertNode(table: seq<Option<Group>>, exceptions: seq<byte>, parent: nat, val: nat, next: Option<nat>)
    returns (table': seq<Option<Group>>, exceptions': seq<byte>)
    requires |table| == 16 && parent < 16 && table[parent].Some? && table[parent].value.idx < U64
    requires val < 16 && (next.Some? ==> next.value < 16)
    ensures var b := table[parent].value;
            var e := 16 * val + (if next.Some? then next.value else 0);
            table' == table[parent := Some(b.(idx := b.idx + 1, stream := b.stream + [e]))]
    ensures exceptions' == exceptions
              + (if next == Some(0) then NodeProperty(parent, table[parent].value.idx) else [])
  {
    var data: byte := 16 * val;
    exceptions' := exceptions;
    if next.Some? {
      var nextParent := next.value;
      if nextParent == 0 {
        exceptions' := WriteNodeProperty(exceptions, parent, table[parent].value.idx);
      }
      data := data + nextParent;
    }
    var b := table[parent].value;
    table' := table[parent := Some(b.(idx := b.idx + 1, stream := b.stream + [data]))];
  }

  /** The record of group `h` after the first `i` bytes. */
  function Fresh(s: seq<byte>, i: nat, h: nat): Group
    requires i <= |s|
  {
    Group(h, Count(s[..i], h), Count(s[..i], h), 0, Stream(s, i, h), None)
  }

  /** The bytes whose groups have been met after `i` steps: each step
      also looks at the next byte. */
  function Reach(n: nat, i: nat): nat
  {
    if i == 0 then 0 else if i < n then i + 1 else n
  }

  lemma OrderNext(s: seq<byte>, r: nat)
    requires r < |s|
    ensures Order(s[..r + 1]) == if Hi(s[r]) in Order(s[..r]) then Order(s[..r]) else Order(s[..r]) + [Hi(s[r])]
  {
    assert s[..r + 1][..r] == s[..r];
  }

  /** A group not met among the first `r` bytes has nothing yet. */
  lemma Unseen(s: seq<byte>, i: nat, r: nat, h: nat)
    requires i <= r <= |s| && h !in Order(s[..r])
    ensures Fresh(s, i, h) == NewGroup(h)
  {
    OrderPrefix(s[..r], i);
    assert s[..r][..i] == s[..i];
    CountListed(s[..i], h);
  }

  /** One step adds byte `i` to its group and leaves the others. */
  lemma FreshStep(s: seq<byte>, i: nat, h: nat)
    requires i < |s|
    ensures h != Hi(s[i]) ==> Fresh(s, i + 1, h) == Fresh(s, i, h)
    ensures h == Hi(s[i]) ==>
              (Fresh(s, i + 1, h) ==
               Fresh(s, i, h).(size := Count(s[..i], h) + 1, idx := Count(s[..i], h) + 1,
                               stream := Stream(s, i, h) + [Entry(s, i)]))
  {
    CountStep(s, i, h);
  }

  /** What the table, the order and the exception bytes hold after the
      first `i` bytes. */
  predicate Scanned(s: seq<byte>, i: nat, table: seq<Option<Group>>, order: seq<nat>, exceptions: seq<byte>)
    requires i <= |s| < U64
  {
    order == Order(s[..Reach(|s|, i)]) && Listed(table, order) &&
    (forall h :: 0 <= h < 16 && table[h].Some? ==> table[h].value == Fresh(s, i, h)) &&
    exceptions == ExcBytes(s, i)
  }

  /** The slots after byte `i` has been registered and counted: its group
      `p` holds one more in `size`, the others are as after `i` bytes (`j`
      is `i` before the next byte is looked at and `i + 1` after). */
  predicate Counted(s: seq<byte>, i: nat, j: nat, table: seq<Option<Group>>)
    requires i < |s| < U64 && i <= j <= i + 1
  {
    var p := Hi(s[i]);
    var f := Fresh(s, i, p);
    |table| == 16 && table[p] == Some(f.(size := f.size + 1)) &&
    forall h :: 0 <= h < 16 && h != p && table[h].Some? ==> table[h].value == Fresh(s, j, h)
  }

  /** The start of a turn of the loop of `encrypt_bytes`: the byte's group
      is registered and its `size` counted. */
  method CountByte(input: seq<byte>, i: nat, table: seq<Option<Group>>, order: seq<nat>, exceptions: seq<byte>)
    returns (table': seq<Option<Group>>, order': seq<nat>)
    requires i < |input| < U64 && Scanned(input, i, table, order, exceptions)
    ensures order' == Order(input[..i + 1]) && Listed(table', order')
    ensures Counted(input, i, i, table')
  {
    var parent := Hi(input[i]);
    if i == 0 {
      OrderNext(input, 0);
    } else {
      OrderMembers(input[..i + 1], parent);
      assert input[..i + 1][i] == input[i];
    }
    table', order' := Register(table, order, parent);
    if table[parent].None? {
      Unseen(input, i, Reach(|input|, i), parent);
    }
    var b := table'[parent].value;
    table' := table'[parent := Some(b.(size := b.size + 1))];
  }

  /** The middle of the turn: the next byte's group, if any, is
      registered, and the node links to it when it differs. */
  method LookAhead(input: seq<byte>, i: nat, table: seq<Option<Group>>, order: seq<nat>)
    returns (table': seq<Option<Group>>, order': seq<nat>, next: Option<nat>)
    requires i < |input| < U64 && order == Order(input[..i + 1]) && Listed(table, order)
    requires Counted(input, i, i, table)
    ensures order' == Order(input[..Reach(|input|, i + 1)]) && Listed(table', order')
    ensures Counted(input, i, i + 1, table')
    ensures next == (if Link(input, i) == 0 && !Excepted(input, i) then None else Some(Link(input, i)))
  {
    var parent := Hi(input[i]);
    forall h | 0 <= h < 16 && h != parent
      ensures Fresh(input, i + 1, h) == Fresh(input, i, h)
    {
      FreshStep(input, i, h);
    }
    table', order', next := table, order, None;
    if i != |input| - 1 {
      var nextParent := Hi(input[i + 1]);
      OrderNext(input, i + 1);
      table', order' := Register(table, order, nextParent);
      if table[nextParent].None? {
        Unseen(input, i + 1, i + 1, nextParent);
      }
      if parent != nextParent {
        next := Some(nextParent);
      }
    }
  }

  /** The end of the turn: `insert_node`. */
  method InsertByte(input: seq<byte>, i: nat, table: seq<Option<Group>>, order: seq<nat>, exceptions: seq<byte>,
                    next: Option<nat>)
    returns (table': seq<Option<Group>>, exceptions': seq<byte>)
    requires i < |input| < U64 && order == Order(input[..Reach(|input|, i + 1)]) && Listed(table, order)
    requires Counted(input, i, i + 1, table) && exceptions == ExcBytes(input, i)
    requires next == (if Link(input, i) == 0 && !Excepted(input, i) then None else Some(Link(input, i)))
    ensures Scanned(input, i + 1, table', order, exceptions')
  {
    var parent, data := Hi(input[i]), Lo(input[i]);
    table', exceptions' := InsertNode(table, exceptions, parent, data, next);
    FreshStep(input, i, parent);
  }

  /** One turn of the loop of `encrypt_bytes` over the input. */
  method EncodeStep(input: seq<byte>, i: nat, table: seq<Option<Group>>, order: seq<nat>, exceptions: seq<byte>)
    returns (table': seq<Option<Group>>, order': seq<nat>, exceptions': seq<byte>)
    requires i < |input| < U64 && Scanned(input, i, table, order, exceptions)
    ensures Scanned(input, i + 1, table', order', exceptions')
  {
    table', order' := CountByte(input, i, table, order, exceptions);
    var next;
    table', order', next := LookAhead(input, i, table', order');
    table', exceptions' := InsertByte(input, i, table', order', exceptions, next);
  }

  /** The inner loop of the flush: the stream of one group is XORed with
      the key, whose index `k` carries over from group to group and wraps
      when it reaches the key's length. `done` is what was already
      XORed. */
  method CycleInto(out: seq<byte>, k: nat, part: seq<byte>, key: seq<byte>, ghost done: seq<byte>)
    returns (out': seq<byte>, k': nat)
    requires |key| > 0 || |done + part| == 0
    requires out == Cycled(done, key) && k <= |key| && (|key| > 0 ==> k % |key| == |done| % |key|)
    ensures out' == Cycled(done + part, key)
    ensures k' <= |key| && (|key| > 0 ==> k' % |key| == |done + part| % |key|)
  {
    out', k' := out, k;
    for j := 0 to |part|
      invariant |out'| == |done| + j && k' <= |key|
      invariant |key| > 0 ==> k' % |key| == (|done| + j) % |key|
      invariant forall x :: 0 <= x < |out'| ==> out'[x] == Xor8((done + part)[x], key[x % |key|])
    {
      KeyIndexStep(k', |done| + j, |key|);
      if k' == |key| {
        k' := 0;
      }
      var bData := Xor8(part[j], key[k']);
      out' := out' + [bData];
      k' := k' + 1;
    }
  }

  /** The slots of the listed groups after the scan. */
  predicate Final(s: seq<byte>, table: seq<Option<Group>>, order: seq<nat>)
    requires |s| < U64
  {
    order == Order(s) && Listed(table, order) &&
    forall h :: 0 <= h < 16 && table[h].Some? ==> table[h].value == Fresh(s, |s|, h)
  }

  /** One group of the flush: its `NodeProperty`, and its stream XORed. */
  method FlushGroup(input: seq<byte>, key: seq<byte>, table: seq<Option<Group>>, order: seq<nat>, t: nat,
                    count: byte, data: seq<byte>, stream: seq<byte>, k: nat)
    returns (data': seq<byte>, stream': seq<byte>, k': nat)
    requires |input| < U64 && |key| > 0 && Final(input, table, order) && t < |order|
    requires data == [count] + Header(input, order[..t])
    requires stream == Cycled(Streams(input, order[..t]), key)
    requires k <= |key| && (|key| > 0 ==> k % |key| == |Streams(input, order[..t])| % |key|)
    ensures data' == [count] + Header(input, order[..t + 1])
    ensures stream' == Cycled(Streams(input, order[..t + 1]), key)
    ensures k' <= |key| && k' % |key| == |Streams(input, order[..t + 1])| % |key|
  {
    var n := |input|;
    var g := order[t];
    var b := table[g].value;
    assert input[..n] == input;
    assert b.val == g && b.size == Count(input, g) && b.stream == Stream(input, n, g);
    HeaderNext(input, order, t);
    data' := WriteNodeProperty(data, b.val, b.size);
    stream', k' := CycleInto(stream, k, b.stream, key, Streams(input, order[..t]));
  }

  /** The flush of `encrypt_bytes`: the number of groups, then per group
      in order its `NodeProperty` with its size while its stream goes,
      XORed, to a separate buffer; then that buffer and the exceptions. */
  method Flush(input: seq<byte>, key: seq<byte>, table: seq<Option<Group>>, order: seq<nat>, exceptions: seq<byte>)
    returns (data: seq<byte>)
    requires |input| < U64 && (|key| > 0 || |input| == 0)
    requires Final(input, table, order) && exceptions == ExcBytes(input, |input|)
    ensures data == Encode(input, key)
  {
    OrderBound(input);
    var count: byte := |order|;
    data := [count];
    var stream: seq<byte> := [];
    var k: nat := 0;
    if |input| == 0 {
      assert order == [];
    }
    for t := 0 to |order|
      invariant data == [count] + Header(input, order[..t])
      invariant stream == Cycled(Streams(input, order[..t]), key)
      invariant k <= |key| && (|key| > 0 ==> k % |key| == |Streams(input, order[..t])| % |key|)
    {
      data, stream, k := FlushGroup(input, key, table, order, t, count, data, stream, k);
    }
    assert order[..|order|] == order;
    data := data + stream + exceptions;
  }

  /** `encrypt_bytes`: the scan over the input, then the flush. The
      `catch` of a failed allocation is not modelled. */
  method EncryptBytes(input: seq<byte>, key: seq<byte>) returns (data: seq<byte>)
    requires |input| < U64 && (|key| > 0 || |input| == 0)
    ensures data == Encode(input, key)
  {
    var table: seq<Option<Group>> := seq(16, _ => None);
    var order: seq<nat> := [];
    var exceptions: seq<byte> := [];
    for i := 0 to |input|
      invariant Scanned(input, i, table, order, exceptions)
    {
      table, order, exceptions := EncodeStep(input, i, table, order, exceptions);
    }
    assert input[..|input|] == input;
    data := Flush(input, key, table, order, exceptions);
  }
}
