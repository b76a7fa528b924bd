/** The exception phase of the round trip: from where the streams end,
    the decoder reads one `NodeProperty` per exception and appends its
    rank to the list of its group, so that after the last one every
    group holds the ranks of its exceptions in input order. The proof
    goes through the list of (group, rank) pairs the encoder emits. */
module NibbleExceptionsRead {
  import opened Bits
  import opened Wrappers
  import opened BitStreams
  import opened NibbleTree
  import opened NibbleDecoder
  import opened NibbleRoundTrip

  /** Pairs of a group and a value that `NodeProperty` can write. */
  predicate Writable(l: seq<(nat, nat)>)
  {
    forall i :: 0 <= i < |l| ==> l[i].0 < 16 && l[i].1 < U64
  }

  /** The `NodeProperty` of every pair, one after the other. */
  function Properties(l: seq<(nat, nat)>): seq<byte>
    requires Writable(l)
  {
    if |l| == 0 then [] else NodeProperty(l[0].0, l[0].1) + Properties(l[1..])
  }

  /** One turn of the exception loop: the rank `c` joins the list of
      group `g`, when the group is there. */
  function Add(table: seq<Option<Group>>, g: nat, c: nat): (r: seq<Option<Group>>)
    requires |table| == 16
    ensures |r| == 16
    ensures forall h :: 0 <= h < 16 ==> (r[h].Some? <==> table[h].Some?)
  {
    if g < 16 && table[g].Some? then
      var b := table[g].value;
      var list := if b.exceptions.Some? then b.exceptions.value else [];
      table[g := Some(b.(exceptions := Some(list + [c])))]
    else table
  }

  /** The turns for all pairs, in order. */
  function AddAll(table: seq<Option<Group>>, l: seq<(nat, nat)>): (r: seq<Option<Group>>)
    requires |table| == 16
    ensures |r| == 16
    decreases |l|
  {
    if |l| == 0 then table else AddAll(Add(table, l[0].0, l[0].1), l[1..])
  }

  /** Every pair's group is in the table. */
  predicate Present(table: seq<Option<Group>>, l: seq<(nat, nat)>)
  {
    |table| == 16 && forall i :: 0 <= i < |l| ==> l[i].0 < 16 && table[l[i].0].Some?
  }

  /** One exception entry read. */
  lemma AddStep(e: seq<byte>, idx: nat, table: seq<Option<Group>>, g: nat, c: nat)
    requires |table| == 16 && g < 16 && table[g].Some? && c < U64 && At(e, idx, NodeProperty(g, c))
    ensures ParseExceptions(e, idx, table) == ParseExceptions(e, idx + |NodeProperty(g, c)|, Add(table, g, c))
  {
    PropertyRead(e, idx, g, c);
    AddRead(e, idx, table, g, c);
  }

  lemma AddRead(e: seq<byte>, idx: nat, table: seq<Option<Group>>, g: nat, c: nat)
    requires |table| == 16 && g < 16 && table[g].Some? && PropertyAt(e, idx, g, c)
    ensures ParseExceptions(e, idx, table) == ParseExceptions(e, idx + 1 + ByteLength(c), Add(table, g, c))
  {
  }

  /** The stream from `x` to its end is the properties of the pairs,
      whose groups are all in the table. */
  predicate Readable(e: seq<byte>, x: nat, table: seq<Option<Group>>, l: seq<(nat, nat)>)
  {
    Writable(l) && Present(table, l) && At(e, x, Properties(l)) && |e| == x + |Properties(l)|
  }

  /** The exception loop over the properties of a list of pairs that runs
      to the end of the stream adds every pair. */
  lemma {:induction false} ReadAll(e: seq<byte>, x: nat, table: seq<Option<Group>>, l: seq<(nat, nat)>)
    requires Readable(e, x, table, l)
    ensures ParseExceptions(e, x, table) == Some(AddAll(table, l))
    decreases |l|
  {
    if |l| > 0 {
      var g, c := l[0].0, l[0].1;
      ReadFirst(e, x, table, l);
      ReadRest(e, x, table, l);
      ReadAll(e, x + |NodeProperty(g, c)|, Add(table, g, c), l[1..]);
    }
  }

  /** The first pair read. */
  lemma ReadFirst(e: seq<byte>, x: nat, table: seq<Option<Group>>, l: seq<(nat, nat)>)
    requires Readable(e, x, table, l) && |l| > 0
    ensures ParseExceptions(e, x, table)
            == ParseExceptions(e, x + |NodeProperty(l[0].0, l[0].1)|, Add(table, l[0].0, l[0].1))
  {
    var g, c := l[0].0, l[0].1;
    AtSplit(e, x, NodeProperty(g, c), Properties(l[1..]));
    AddStep(e, x, table, g, c);
  }

  /** What is left after the first pair is readable in turn. */
  lemma ReadRest(e: seq<byte>, x: nat, table: seq<Option<Group>>, l: seq<(nat, nat)>)
    requires Readable(e, x, table, l) && |l| > 0
    ensures Readable(e, x + |NodeProperty(l[0].0, l[0].1)|, Add(table, l[0].0, l[0].1), l[1..])
  {
    var g, c := l[0].0, l[0].1;
    AtSplit(e, x, NodeProperty(g, c), Properties(l[1..]));
    var t := Add(table, g, c);
    forall i | 0 <= i < |l[1..]|
      ensures l[1..][i].0 < 16 && t[l[1..][i].0].Some? && l[1..][i].1 < U64
    {
      assert l[1..][i] == l[i + 1];
    }
  }

  /** The (group, rank) pairs of the exceptions before `m`, in input
      order: what `ExcBytes` writes. */
  function Pairs(s: seq<byte>, m: nat): (l: seq<(nat, nat)>)
    requires m <= |s|
  {
    if m == 0 then []
    else
      var i := m - 1;
      Pairs(s, i) + if Excepted(s, i) then [(Hi(s[i]), Count(s[..i], Hi(s[i])))] else []
  }

  lemma WritableSnoc(l: seq<(nat, nat)>, p: (nat, nat))
    requires Writable(l) && p.0 < 16 && p.1 < U64
    ensures Writable(l + [p])
  {
    assert forall i :: 0 <= i < |l| ==> (l + [p])[i] == l[i];
  }

  lemma {:induction false} PropertiesSnoc(l: seq<(nat, nat)>, p: (nat, nat))
    requires Writable(l) && p.0 < 16 && p.1 < U64
    ensures Writable(l + [p])
    ensures Properties(l + [p]) == Properties(l) + NodeProperty(p.0, p.1)
    decreases |l|
  {
    WritableSnoc(l, p);
    if |l| > 0 {
      assert (l + [p])[1..] == l[1..] + [p];
      assert Writable(l[1..]) by {
        forall i | 0 <= i < |l[1..]|
          ensures l[1..][i].0 < 16 && l[1..][i].1 < U64
        {
          assert l[1..][i] == l[i + 1];
        }
      }
      PropertiesSnoc(l[1..], p);
    } else {
      assert (l + [p])[1..] == [];
    }
  }

  /** The exception bytes are the properties of the pairs. */
  lemma {:induction false} ExcBytesPairs(s: seq<byte>, m: nat)
    requires m <= |s| < U64
    ensures Writable(Pairs(s, m)) && ExcBytes(s, m) == Properties(Pairs(s, m))
  {
    if m > 0 {
      var i := m - 1;
      ExcBytesPairs(s, i);
      if Excepted(s, i) {
        PropertiesSnoc(Pairs(s, i), (Hi(s[i]), Count(s[..i], Hi(s[i]))));
      } else {
        assert Pairs(s, m) == Pairs(s, i);
      }
    }
  }

  lemma {:induction false} AddAllSnoc(table: seq<Option<Group>>, l: seq<(nat, nat)>, p: (nat, nat))
    requires |table| == 16
    ensures AddAll(table, l + [p]) == Add(AddAll(table, l), p.0, p.1)
    decreases |l|
  {
    if |l| > 0 {
      assert (l + [p])[1..] == l[1..] + [p];
      AddAllSnoc(Add(table, l[0].0, l[0].1), l[1..], p);
    } else {
      assert (l + [p])[1..] == [];
    }
  }

  /** The table after the exceptions at the positions before `m`: every
      listed group with its size and the ranks of those exceptions. */
  function ExcTable(s: seq<byte>, m: nat): (t: seq<Option<Group>>)
    requires m <= |s|
    ensures |t| == 16
  {
    seq(16, h => if h in Order(s) then Some(Group(h, Count(s, h), 0, 0, [], ListOf(ExcList(s, m, h)))) else None)
  }

  lemma ExcListNext(s: seq<byte>, m: nat, h: nat)
    requires m < |s|
    ensures Excepted(s, m) && Hi(s[m]) == h ==> ExcList(s, m + 1, h) == ExcList(s, m, h) + [Count(s[..m], h)]
    ensures !(Excepted(s, m) && Hi(s[m]) == h) ==> ExcList(s, m + 1, h) == ExcList(s, m, h)
  {
    assert ExcList(s, m, h) + [] == ExcList(s, m, h);
  }

  /** One slot of the table after an exception. */
  lemma ExcSlotNext(s: seq<byte>, m: nat, h: nat)
    requires m < |s| && Excepted(s, m) && h < 16
    ensures ExcTable(s, m + 1)[h] == Add(ExcTable(s, m), Hi(s[m]), Count(s[..m], Hi(s[m])))[h]
  {
    OrderMembers(s, Hi(s[m]));
    ExcListNext(s, m, h);
  }

  /** The table after an exception. */
  lemma ExcTableNext(s: seq<byte>, m: nat)
    requires m < |s| && Excepted(s, m)
    ensures ExcTable(s, m + 1) == Add(ExcTable(s, m), Hi(s[m]), Count(s[..m], Hi(s[m])))
  {
    var a, b := ExcTable(s, m + 1), Add(ExcTable(s, m), Hi(s[m]), Count(s[..m], Hi(s[m])));
    forall h | 0 <= h < 16
      ensures a[h] == b[h]
    {
      ExcSlotNext(s, m, h);
    }
    SeqExt(a, b);
  }

  /** The table after a position that is no exception. */
  lemma ExcTableSame(s: seq<byte>, m: nat)
    requires m < |s| && !Excepted(s, m)
    ensures ExcTable(s, m + 1) == ExcTable(s, m)
  {
    var a, b := ExcTable(s, m + 1), ExcTable(s, m);
    forall h | 0 <= h < 16
      ensures a[h] == b[h]
    {
      ExcListNext(s, m, h);
    }
    SeqExt(a, b);
  }

  /** The table after `m` positions is the turns for their pairs. */
  lemma {:induction false} ExcTablePairs(s: seq<byte>, m: nat)
    requires m <= |s|
    ensures ExcTable(s, m) == AddAll(ExcTable(s, 0), Pairs(s, m))
  {
    if m > 0 {
      var i := m - 1;
      ExcTablePairs(s, i);
      if Excepted(s, i) {
        ExcTableNext(s, i);
        AddAllSnoc(ExcTable(s, 0), Pairs(s, i), (Hi(s[i]), Count(s[..i], Hi(s[i]))));
      } else {
        ExcTableSame(s, i);
        assert Pairs(s, m) == Pairs(s, i);
      }
    }
  }

  /** The group of every exception is listed. */
  lemma {:induction false} PairsPresent(s: seq<byte>, m: nat)
    requires m <= |s|
    ensures Present(ExcTable(s, 0), Pairs(s, m))
  {
    if m > 0 {
      var i := m - 1;
      PairsPresent(s, i);
      OrderMembers(s, Hi(s[i]));
      var l := Pairs(s, m);
      forall j | 0 <= j < |l|
        ensures l[j].0 < 16 && ExcTable(s, 0)[l[j].0].Some?
      {
        if j < |Pairs(s, i)| {
          assert l[j] == Pairs(s, i)[j];
        }
      }
    }
  }

  /** The exception loop, started where the exception bytes begin, ends
      with every exception list complete. */
  lemma ExcPhase(s: seq<byte>, e: seq<byte>, x: nat)
    requires |s| < U64 && At(e, x, ExcBytes(s, |s|)) && |e| == x + |ExcBytes(s, |s|)|
    ensures ParseExceptions(e, x, ExcTable(s, 0)) == Some(ExcTable(s, |s|))
  {
    ExcBytesPairs(s, |s|);
    PairsPresent(s, |s|);
    ReadAll(e, x, ExcTable(s, 0), Pairs(s, |s|));
    ExcTablePairs(s, |s|);
  }
}
