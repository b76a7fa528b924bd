/** The output phase of the round trip: from the group of the first byte,
    the decoder takes the next entry of the current group, emits the group
    and the entry's low nibble as one byte, and moves to the group the
    entry links to, or, for a link to zero, to group zero only when the
    entry is the next exception of its group. The proof follows the input
    byte by byte: before byte `j`, every group has consumed as many entries
    and exceptions as it has before `j`. */
module NibbleWalkRead {
  import opened Bits
  import opened Wrappers
  import opened BitStreams
  import opened NibbleTree
  import opened NibbleDecoder
  import NibbleExceptionsRead
  import NibbleFillRead

  /** The table when the walk reaches byte `j`. */
  function WTable(s: seq<byte>, j: nat): (t: seq<Option<Group>>)
    requires j <= |s|
    ensures |t| == 16
  {
    seq(16, h => if h in Order(s) then
                   Some(Group(h, Count(s, h), Count(s[..j], h), |ExcList(s, j, h)|,
                              Stream(s, |s|, h), ListOf(ExcList(s, |s|, h))))
                 else None)
  }

  /** The current group before byte `j`: that of byte `j`, and after the
      last byte that of the last byte. */
  function Cur(s: seq<byte>, j: nat): (g: nat)
    requires 0 < |s| && j <= |s|
    ensures g < 16
  {
    if j < |s| then Hi(s[j]) else Hi(s[|s| - 1])
  }

  /** Group `g` moves to its next entry. */
  function Advance(table: seq<Option<Group>>, g: nat): (r: seq<Option<Group>>)
    requires |table| == 16 && g < 16 && table[g].Some?
    ensures |r| == 16 && r[g].Some? && r[g].value.idx > 0
  {
    table[g := Some(table[g].value.(idx := table[g].value.idx + 1))]
  }

  /** Group `g` moves past its next exception. */
  function Skip(table: seq<Option<Group>>, g: nat): (r: seq<Option<Group>>)
    requires |table| == 16 && g < 16 && table[g].Some?
    ensures |r| == 16
  {
    table[g := Some(table[g].value.(expIdx := table[g].value.expIdx + 1))]
  }

  /** One step of the walk, on any table. */
  lemma WalkUnfold(table: seq<Option<Group>>, g: nat, out: seq<byte>, v: nat, np: nat)
    requires |table| == 16 && g < 16 && table[g].Some?
    requires table[g].value.idx < table[g].value.size && table[g].value.idx < |table[g].value.stream|
    requires ExtractOrder(table[g].value.stream[table[g].value.idx]) == (v, np)
    ensures Walk(table, g, out)
            == Walk(NextValidParent(Advance(table, g), g, np).1, NextValidParent(Advance(table, g), g, np).0,
                    out + [(16 * table[g].value.val) % 256 + v])
  {
  }

  /** The group of byte `j` is listed, has entries left, and its next one
      is that of byte `j`. */
  lemma WalkEntry(s: seq<byte>, j: nat)
    requires j < |s|
    ensures WTable(s, j)[Hi(s[j])].Some?
    ensures WTable(s, j)[Hi(s[j])].value.idx < WTable(s, j)[Hi(s[j])].value.size
    ensures WTable(s, j)[Hi(s[j])].value.idx < |WTable(s, j)[Hi(s[j])].value.stream|
    ensures WTable(s, j)[Hi(s[j])].value.stream[WTable(s, j)[Hi(s[j])].value.idx] == Entry(s, j)
    ensures WTable(s, j)[Hi(s[j])].value.val == Hi(s[j])
  {
    var g := Hi(s[j]);
    assert s[..|s|] == s;
    CountMonotone(s, j, |s|, g);
    CountListed(s, g);
    StreamAt(s, |s|, j);
  }

  /** The byte emitted for entry `j` is byte `j`. */
  lemma Emitted(s: seq<byte>, j: nat)
    requires j < |s|
    ensures s[..j] + [(16 * Hi(s[j])) % 256 + Lo(s[j])] == s[..j + 1]
  {
    EntrySplit(s, j);
    assert (16 * Hi(s[j])) % 256 == 16 * Hi(s[j]);
  }

  /** A group other than that of byte `j` is left as it is by byte `j`. */
  lemma SlotOther(s: seq<byte>, j: nat, h: nat)
    requires j < |s| && h < 16 && h != Hi(s[j])
    ensures WTable(s, j + 1)[h] == WTable(s, j)[h]
  {
    CountStep(s, j, h);
    NibbleExceptionsRead.ExcListNext(s, j, h);
  }

  /** The group of byte `j` consumes one entry, and one exception when
      byte `j` is one. */
  lemma SlotOwn(s: seq<byte>, j: nat)
    requires j < |s|
    ensures WTable(s, j)[Hi(s[j])].Some?
    ensures WTable(s, j + 1)[Hi(s[j])]
            == Some(WTable(s, j)[Hi(s[j])].value.(idx := WTable(s, j)[Hi(s[j])].value.idx + 1,
                                                  expIdx := WTable(s, j)[Hi(s[j])].value.expIdx
                                                            + if Excepted(s, j) then 1 else 0))
  {
    var g := Hi(s[j]);
    WalkEntry(s, j);
    CountStep(s, j, g);
    NibbleExceptionsRead.ExcListNext(s, j, g);
  }

  /** Past a byte that is not an exception, only its group advances. */
  lemma AdvanceTable(s: seq<byte>, j: nat)
    requires j < |s| && !Excepted(s, j)
    ensures WTable(s, j)[Hi(s[j])].Some?
    ensures Advance(WTable(s, j), Hi(s[j])) == WTable(s, j + 1)
  {
    var g := Hi(s[j]);
    SlotOwn(s, j);
    var a, w := Advance(WTable(s, j), g), WTable(s, j + 1);
    forall h | 0 <= h < 16
      ensures a[h] == w[h]
    {
      if h != g {
        SlotOther(s, j, h);
      }
    }
  }

  /** Past an exception, its group also moves past the exception. */
  lemma SkipTable(s: seq<byte>, j: nat)
    requires j < |s| && Excepted(s, j)
    ensures WTable(s, j)[Hi(s[j])].Some?
    ensures Skip(Advance(WTable(s, j), Hi(s[j])), Hi(s[j])) == WTable(s, j + 1)
  {
    var g := Hi(s[j]);
    SlotOwn(s, j);
    var a, w := Skip(Advance(WTable(s, j), g), g), WTable(s, j + 1);
    forall h | 0 <= h < 16
      ensures a[h] == w[h]
    {
      if h != g {
        SlotOther(s, j, h);
      }
    }
  }

  /** An exception is the next one its group lists. */
  lemma ExceptionNext(s: seq<byte>, j: nat)
    requires j < |s| && Excepted(s, j)
    ensures |ExcList(s, j, Hi(s[j]))| < |ExcList(s, |s|, Hi(s[j]))|
    ensures ExcList(s, |s|, Hi(s[j]))[|ExcList(s, j, Hi(s[j]))|] == Count(s[..j], Hi(s[j]))
  {
    var g := Hi(s[j]);
    NibbleExceptionsRead.ExcListNext(s, j, g);
    ExcPrefix(s, j + 1, |s|, g);
    var l := ExcList(s, |s|, g);
    assert l[..|ExcList(s, j + 1, g)|][|ExcList(s, j, g)|] == Count(s[..j], g);
  }

  /** The next exception of the group of a byte that is not one has a
      higher rank. */
  lemma ExceptionLater(s: seq<byte>, j: nat)
    requires j < |s| && !Excepted(s, j)
    ensures |ExcList(s, j, Hi(s[j]))| < |ExcList(s, |s|, Hi(s[j]))|
            ==> ExcList(s, |s|, Hi(s[j]))[|ExcList(s, j, Hi(s[j]))|] > Count(s[..j], Hi(s[j]))
  {
    var g := Hi(s[j]);
    NibbleExceptionsRead.ExcListNext(s, j, g);
    CountStep(s, j, g);
    if |ExcList(s, j, g)| < |ExcList(s, |s|, g)| {
      ExcAbove(s, j + 1, |s|, g, |ExcList(s, j, g)|);
    }
  }

  /** A link to another group is followed. */
  lemma NextLinked(s: seq<byte>, j: nat)
    requires j < |s| && Link(s, j) != 0
    ensures WTable(s, j)[Hi(s[j])].Some?
    ensures NextValidParent(Advance(WTable(s, j), Hi(s[j])), Hi(s[j]), Link(s, j))
            == (Cur(s, j + 1), WTable(s, j + 1))
  {
    ZeroLink(s, j);
    AdvanceTable(s, j);
  }

  /** A link to zero that is an exception is followed to group zero. */
  lemma NextExcepted(s: seq<byte>, j: nat)
    requires j < |s| && Excepted(s, j)
    ensures WTable(s, j)[Hi(s[j])].Some?
    ensures NextValidParent(Advance(WTable(s, j), Hi(s[j])), Hi(s[j]), Link(s, j))
            == (Cur(s, j + 1), WTable(s, j + 1))
  {
    ZeroLink(s, j);
    SkipTable(s, j);
    ExceptionNext(s, j);
  }

  /** A link to zero that is no exception keeps the group. */
  lemma NextStays(s: seq<byte>, j: nat)
    requires j < |s| && Link(s, j) == 0 && !Excepted(s, j)
    ensures WTable(s, j)[Hi(s[j])].Some?
    ensures NextValidParent(Advance(WTable(s, j), Hi(s[j])), Hi(s[j]), Link(s, j))
            == (Cur(s, j + 1), WTable(s, j + 1))
  {
    ZeroLink(s, j);
    AdvanceTable(s, j);
    ExceptionLater(s, j);
  }

  /** After byte `j` the walk is in the state for byte `j + 1`. */
  lemma NextState(s: seq<byte>, j: nat)
    requires j < |s|
    ensures WTable(s, j)[Hi(s[j])].Some?
    ensures NextValidParent(Advance(WTable(s, j), Hi(s[j])), Hi(s[j]), Link(s, j))
            == (Cur(s, j + 1), WTable(s, j + 1))
  {
    if Link(s, j) != 0 {
      NextLinked(s, j);
    } else if Excepted(s, j) {
      NextExcepted(s, j);
    } else {
      NextStays(s, j);
    }
  }

  /** One byte of the walk. */
  lemma WalkStep(s: seq<byte>, j: nat)
    requires j < |s|
    ensures Walk(WTable(s, j), Cur(s, j), s[..j]) == Walk(WTable(s, j + 1), Cur(s, j + 1), s[..j + 1])
  {
    var g := Hi(s[j]);
    WalkEntry(s, j);
    EntrySplit(s, j);
    WalkUnfold(WTable(s, j), g, s[..j], Lo(s[j]), Link(s, j));
    NextState(s, j);
    Emitted(s, j);
  }

  /** After the last byte its group has no entries left. */
  lemma WalkEnd(s: seq<byte>)
    requires 0 < |s|
    ensures Walk(WTable(s, |s|), Cur(s, |s|), s[..|s|]) == Some(s)
  {
    var g := Hi(s[|s| - 1]);
    assert s[..|s|] == s;
    CountListed(s, g);
    CountMonotone(s, |s| - 1, |s|, g);
  }

  /** From byte `j` on, the walk emits the rest of the input. */
  lemma {:induction false} WalkFrom(s: seq<byte>, j: nat)
    requires 0 < |s| && j <= |s|
    ensures Walk(WTable(s, j), Cur(s, j), s[..j]) == Some(s)
    decreases |s| - j
  {
    if j < |s| {
      WalkStep(s, j);
      WalkFrom(s, j + 1);
    } else {
      WalkEnd(s);
    }
  }

  /** The walk starts from the filled table and the first listed group. */
  lemma WalkStart(s: seq<byte>)
    requires 0 < |s|
    ensures WTable(s, 0) == NibbleFillRead.FilledTable(s)
    ensures |Order(s)| > 0 && Cur(s, 0) == Order(s)[0]
  {
    OrderHead(s);
  }

  /** The walk from the filled table gives the input back. */
  lemma WalkPhase(s: seq<byte>)
    requires 0 < |s|
    ensures |Order(s)| > 0
    ensures Walk(NibbleFillRead.FilledTable(s), Order(s)[0], []) == Some(s)
  {
    WalkStart(s);
    WalkFrom(s, 0);
    assert s[..0] == [];
  }
}
