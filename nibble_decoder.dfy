/** `decrypt_bytes` of the nibble-tree codec (xor_cryptor.hpp; the same
    code without progress callbacks in C++/xor_cryptor.hpp). The decoder
    trusts its input: a read past the end of the input or of a stream, an
    index into an empty key or order, and a use of a group that was never
    created are undefined behaviour in the source, and give `None` here.
    Counters are `uint64_t`: the sum of the sizes and the position after
    it wrap modulo `2^64`. */
module NibbleDecoder {
  import opened Bits
  import opened Wrappers
  import opened BitStreams
  import opened NibbleTree
  import opened NibbleEncoder

  /** The state of the header parse: the read position, the table, the
      order in which groups were created, and the sum of their sizes. */
  datatype Parsed = Parsed(idx: nat, table: seq<Option<Group>>, order: seq<nat>, partition: nat)

  /** Every listed group is a nibble. */
  predicate Small(order: seq<nat>)
  {
    forall t :: 0 <= t < |order| ==> order[t] < 16
  }

  /** A parse state whose table has the sixteen slots and whose order
      lists nibbles. */
  predicate Wf(p: Parsed)
  {
    |p.table| == 16 && Small(p.order)
  }

  /** `+=` on a `uint64_t`: the sum wraps modulo `2^64`. */
  function Add64(a: nat, b: nat): nat
  {
    (a + b) % U64
  }

  /** One header entry at `p.idx`: split the header byte, read that many
      size bytes, create the group if it is new, set its size and add it
      to the sum. */
  function HeaderEntry(input: seq<byte>, p: Parsed): (r: Option<Parsed>)
    requires Wf(p)
    ensures r.Some? ==> Wf(r.value)
  {
    if p.idx >= |input| then None
    else
      var (parent, bitsLength) := ExtractOrder(input[p.idx]);
      var start := p.idx + 1;
      if start + bitsLength > |input| then None
      else
        var childCount := BeValue(input[start..start + bitsLength]);
        var created := p.table[parent].None?;
        var table := if created then p.table[parent := Some(NewGroup(parent))] else p.table;
        var order := if created then p.order + [parent] else p.order;
        var b := table[parent].value;
        Some(Parsed(start + bitsLength, table[parent := Some(b.(size := childCount))], order,
                    Add64(p.partition, childCount)))
  }

  /** The first `count` header entries read from `p`. */
  function ParseHeader(input: seq<byte>, count: nat, p: Parsed): (r: Option<Parsed>)
    requires Wf(p)
    ensures r.Some? ==> Wf(r.value)
  {
    if count == 0 then Some(p)
    else
      match ParseHeader(input, count - 1, p)
      case None => None
      case Some(q) => HeaderEntry(input, q)
  }

  /** Once an entry cannot be read, the header cannot be read. */
  lemma {:induction false} HeaderStaysNone(input: seq<byte>, n: nat, m: nat, p: Parsed)
    requires Wf(p) && n <= m && ParseHeader(input, n, p) == None
    ensures ParseHeader(input, m, p) == None
    decreases m
  {
    if n < m {
      HeaderStaysNone(input, n, m - 1, p);
    }
  }

  /** The exception list from `idx` to the end of the input: per entry, a
      header byte with the group and a length, then that many bytes of the
      rank, appended to the group's list. */
  function ParseExceptions(input: seq<byte>, idx: nat, table: seq<Option<Group>>): (r: Option<seq<Option<Group>>>)
    requires |table| == 16
    ensures r.Some? ==> |r.value| == 16
    decreases |input| - idx
  {
    if idx >= |input| then Some(table)
    else
      var (parent, bitsLength) := ExtractOrder(input[idx]);
      var bits := bitsLength + (idx + 1);
      if bits > |input| || table[parent].None? then None
      else
        var nodeIdx := BeValue(input[idx + 1..bits]);
        var b := table[parent].value;
        var list := if b.exceptions.Some? then b.exceptions.value else [];
        ParseExceptions(input, bits, table[parent := Some(b.(exceptions := Some(list + [nodeIdx])))])
  }

  /** The streams, group by group in order, from `idx`: each byte XORed
      with the key at `k`, which wraps at the key's length, until the
      stream holds `size` bytes. */
  function FillStreams(input: seq<byte>, key: seq<byte>, order: seq<nat>, t: nat, idx: nat, k: nat,
                       table: seq<Option<Group>>): (r: Option<seq<Option<Group>>>)
    requires |table| == 16 && t <= |order| && k <= |key|
    requires Small(order)
    ensures r.Some? ==> |r.value| == 16
    decreases |order| - t, |input| - idx
  {
    if t == |order| then Some(table)
    else
      var g := order[t];
      if table[g].None? then None
      else
        var b := table[g].value;
        if |b.stream| == b.size then FillStreams(input, key, order, t + 1, idx, k, table)
        else if idx >= |input| || |key| == 0 then None
        else
          var k1 := if k == |key| then 0 else k;
          var data := Xor8(input[idx], key[k1]);
          FillStreams(input, key, order, t, idx + 1, k1 + 1, table[g := Some(b.(stream := b.stream + [data]))])
  }

  /** The entries a group has left to give. */
  function Slack(x: Option<Group>): nat
  {
    if x.Some? && x.value.idx < x.value.size then x.value.size - x.value.idx else 0
  }

  /** The entries all slots from `h` on have left to give. */
  function Remaining(table: seq<Option<Group>>, h: nat): nat
    requires h <= |table|
    decreases |table| - h
  {
    if h == |table| then 0 else Slack(table[h]) + Remaining(table, h + 1)
  }

  /** Changing one slot changes the sum by the change of its slack. */
  lemma {:induction false} RemainingUpdate(table: seq<Option<Group>>, g: nat, x: Option<Group>, h: nat)
    requires g < |table| && h <= |table|
    ensures Remaining(table[g := x], h) + (if h <= g then Slack(table[g]) else 0)
            == Remaining(table, h) + (if h <= g then Slack(x) else 0)
    decreases |table| - h
  {
    if h < |table| {
      RemainingUpdate(table, g, x, h + 1);
    }
  }

  /** `get_next_valid_parent`: a link to a group is followed; a link of
      zero is followed to group zero only when the group's next exception
      is the rank of the entry just read, and is otherwise no link. The
      result is the next group and the table, whose `exp_idx` may have
      moved on. */
  function NextValidParent(table: seq<Option<Group>>, g: nat, nextParent: nat): (r: (nat, seq<Option<Group>>))
    requires |table| == 16 && g < 16 && table[g].Some? && table[g].value.idx > 0 && nextParent < 16
    ensures r.0 < 16 && |r.1| == 16
    ensures Remaining(r.1, 0) == Remaining(table, 0)
  {
    var b := table[g].value;
    if nextParent == 0 then
      if b.exceptions.None? || b.expIdx >= |b.exceptions.value| then (g, table)
      else if b.idx - 1 == b.exceptions.value[b.expIdx] then
        var x := Some(b.(expIdx := b.expIdx + 1));
        RemainingUpdate(table, g, x, 0);
        (nextParent, table[g := x])
      else (g, table)
    else (nextParent, table)
  }

  /** The output loop from group `g`: while the group has entries left,
      the next one gives the byte `(val << 4) | data`, on a byte, and a
      link to follow. */
  function Walk(table: seq<Option<Group>>, g: nat, out: seq<byte>): Option<seq<byte>>
    requires |table| == 16 && g < 16
    decreases Remaining(table, 0)
  {
    if table[g].None? then None
    else
      var b := table[g].value;
      if b.idx >= b.size then Some(out)
      else if b.idx >= |b.stream| then None
      else
        var (val, nextParent) := ExtractOrder(b.stream[b.idx]);
        var x := Some(b.(idx := b.idx + 1));
        RemainingUpdate(table, g, x, 0);
        var (g', table') := NextValidParent(table[g := x], g, nextParent);
        Walk(table', g', out + [(16 * b.val) % 256 + val])
  }

  /** The sixteen empty slots of `unique_byte_set`. */
  function EmptyTable(): (t: seq<Option<Group>>)
    ensures |t| == 16
  {
    seq(16, _ => None)
  }

  /** `idx += exception_partition` on a `uint64_t`: where the exception
      list starts, after the streams. */
  function ExceptionsFrom(p: Parsed): nat
  {
    Add64(p.idx, p.partition)
  }

  /** The exceptions, the streams and the walk, after the header `p`:
      the exceptions start after the sum of the sizes, the streams at the
      end of the header, and the walk at the first group created. */
  function DecodeBody(input: seq<byte>, key: seq<byte>, p: Parsed): Option<seq<byte>>
    requires Wf(p)
  {
    match ParseExceptions(input, ExceptionsFrom(p), p.table)
    case None => None
    case Some(table) =>
      match FillStreams(input, key, p.order, 0, p.idx, 0, table)
      case None => None
      case Some(filled) =>
        if |p.order| == 0 then None else Walk(filled, p.order[0], [])
  }

  /** The state before the header: nothing read but the group count. */
  function Start(): (p: Parsed)
    ensures Wf(p)
  {
    Parsed(1, EmptyTable(), [], 0)
  }

  /** What `decrypt_bytes` returns for `input` and `key`. */
  function Decode(input: seq<byte>, key: seq<byte>): Option<seq<byte>>
  {
    if |input| == 0 then None
    else
      match ParseHeader(input, input[0], Start())
      case None => None
      case Some(p) => DecodeBody(input, key, p)
  }

  /** `v <<= 8; v |= b` on a `uint64_t`: the shifted value has a zero low
      byte, so the OR adds `b`. */
  lemma ShiftOr(v: nat, b: byte)
    ensures (v * 256) % U64 + b == (v * 256 + b) % U64
  {
    var q, r := (v * 256) / U64, (v * 256) % U64;
    var m := v - q * 0x100_0000_0000_0000;
    assert r == 256 * m;
    assert m < 0x100_0000_0000_0000;
    DivModUnique(v * 256 + b, U64, q, r + b);
  }

  /** The inner loops that gather a length field: `len` bytes from `idx`,
      high byte first. */
  method ReadValue(input: seq<byte>, idx: nat, len: nat) returns (v: nat)
    requires idx + len <= |input|
    ensures v == BeValue(input[idx..idx + len])
  {
    v := 0;
    var j := idx;
    while j < idx + len
      invariant idx <= j <= idx + len
      invariant v == BeValue(input[idx..j])
    {
      ShiftOr(v, input[j]);
      assert input[idx..j + 1][..j - idx] == input[idx..j];
      v := (v * 256) % U64 + input[j];
      j := j + 1;
    }
  }

  /** One turn of the header loop: the header byte, the size field, the
      group created if it is new, its size and the running sum. */
  method ReadEntry(input: seq<byte>, p: Parsed) returns (r: Option<Parsed>)
    requires Wf(p)
    ensures r == HeaderEntry(input, p)
  {
    var idx := p.idx;
    if idx >= |input| {
      return None;
    }
    var info := ExtractOrder(input[idx]);
    var parent, bitsLength := info.0, info.1;
    idx := idx + 1;
    if idx + bitsLength > |input| {
      return None;
    }
    var childCount := ReadValue(input, idx, bitsLength);
    idx := idx + bitsLength;
    var table, order := p.table, p.order;
    if table[parent].None? {
      table := table[parent := Some(NewGroup(parent))];
      order := order + [parent];
    }
    var b := table[parent].value;
    table := table[parent := Some(b.(size := childCount))];
    r := Some(Parsed(idx, table, order, Add64(p.partition, childCount)));
  }

  /** The header loop, `while (parent_length--)`: one entry for each of
      the `input[0]` groups. */
  method ReadHeader(input: seq<byte>) returns (r: Option<Parsed>)
    requires |input| > 0
    ensures r == ParseHeader(input, input[0], Start())
  {
    var p := Start();
    for n := 0 to input[0]
      invariant Wf(p) && ParseHeader(input, n, Start()) == Some(p)
    {
      var next := ReadEntry(input, p);
      if next.None? {
        HeaderStaysNone(input, n + 1, input[0], Start());
        return None;
      }
      p := next.value;
    }
    return Some(p);
  }

  /** The exception loop, `while (idx < length)`. */
  method ReadExceptions(input: seq<byte>, start: nat, table: seq<Option<Group>>)
    returns (r: Option<seq<Option<Group>>>)
    requires |table| == 16
    ensures r == ParseExceptions(input, start, table)
  {
    var idx, t := start, table;
    while idx < |input|
      invariant |t| == 16
      invariant ParseExceptions(input, idx, t) == ParseExceptions(input, start, table)
      decreases |input| - idx
    {
      var info := ExtractOrder(input[idx]);
      var parent := info.0;
      idx := idx + 1;
      var bits := info.1 + idx;
      if bits > |input| || t[parent].None? {
        return None;
      }
      var nodeIdx := ReadValue(input, idx, info.1);
      idx := bits;
      var b := t[parent].value;
      if b.exceptions.None? {
        b := b.(exceptions := Some([]));
      }
      t := t[parent := Some(b.(exceptions := Some(b.exceptions.value + [nodeIdx])))];
    }
    return Some(t);
  }

  /** The stream loop: for every group in order, bytes are read and XORed
      with the key until the stream has `size` of them. */
  method ReadStreams(input: seq<byte>, key: seq<byte>, order: seq<nat>, start: nat, table: seq<Option<Group>>)
    returns (r: Option<seq<Option<Group>>>)
    requires |table| == 16 && Small(order)
    ensures r == FillStreams(input, key, order, 0, start, 0, table)
  {
    var idx: nat, t := start, table;
    var k: nat := 0;
    for u := 0 to |order|
      invariant |t| == 16 && k <= |key|
      invariant FillStreams(input, key, order, u, idx, k, t) == FillStreams(input, key, order, 0, start, 0, table)
    {
      var g := order[u];
      if t[g].None? {
        return None;
      }
      while |t[g].value.stream| != t[g].value.size
        invariant |t| == 16 && k <= |key| && t[g].Some?
        invariant FillStreams(input, key, order, u, idx, k, t) == FillStreams(input, key, order, 0, start, 0, table)
        decreases |input| - idx
      {
        if idx >= |input| || |key| == 0 {
          return None;
        }
        var data := input[idx];
        idx := idx + 1;
        if k == |key| {
          k := 0;
        }
        data := Xor8(data, key[k]);
        k := k + 1;
        var b := t[g].value;
        t := t[g := Some(b.(stream := b.stream + [data]))];
      }
    }
    return Some(t);
  }

  /** The output loop, from the group `g`. */
  method WalkStreams(table: seq<Option<Group>>, g: nat) returns (r: Option<seq<byte>>)
    requires |table| == 16 && g < 16
    ensures r == Walk(table, g, [])
  {
    var t, cur, out: seq<byte> := table, g, [];
    if t[cur].None? {
      return None;
    }
    while t[cur].value.idx < t[cur].value.size
      invariant |t| == 16 && cur < 16 && t[cur].Some?
      invariant Walk(t, cur, out) == Walk(table, g, [])
      decreases Remaining(t, 0)
    {
      var b := t[cur].value;
      if b.idx >= |b.stream| {
        return None;
      }
      var data := b.stream[b.idx];
      var x := Some(b.(idx := b.idx + 1));
      RemainingUpdate(t, cur, x, 0);
      t := t[cur := x];
      var info := ExtractOrder(data);
      out := out + [(16 * b.val) % 256 + info.0];
      var next := NextValidParent(t, cur, info.1);
      cur, t := next.0, next.1;
      if t[cur].None? {
        return None;
      }
    }
    return Some(out);
  }

  /** `decrypt_bytes` after the header. */
  method DecryptBody(input: seq<byte>, key: seq<byte>, p: Parsed) returns (r: Option<seq<byte>>)
    requires Wf(p)
    ensures r == DecodeBody(input, key, p)
  {
    var parsed := ReadExceptions(input, ExceptionsFrom(p), p.table);
    if parsed.None? {
      return None;
    }
    var filled := ReadStreams(input, key, p.order, p.idx, parsed.value);
    if filled.None? || |p.order| == 0 {
      return None;
    }
    r := WalkStreams(filled.value, p.order[0]);
  }

  /** `decrypt_bytes`. */
  method DecryptBytes(input: seq<byte>, key: seq<byte>) returns (r: Option<seq<byte>>)
    ensures r == Decode(input, key)
  {
    if |input| == 0 {
      return None;
    }
    var header := ReadHeader(input);
    if header.None? {
      return None;
    }
    r := DecryptBody(input, key, header.value);
  }
}
