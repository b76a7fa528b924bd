/** Decoding what the nibble-tree encoder wrote gives the input back: the
    header parse recovers the groups in order with their sizes, the
    exception parse recovers every group's exception list, the stream
    loop recovers every group's link stream, and the walk follows the
    links through the streams byte by byte. Each phase is stated as the
    decoder's table after it, a function of the input. */
module NibbleRoundTrip {
  import opened Bits
  import opened Wrappers
  import opened BitStreams
  import opened NibbleTree
  import opened NibbleEncoder
  import opened NibbleDecoder

  /** `w` occurs in `e` from position `a`. */
  predicate At(e: seq<byte>, a: nat, w: seq<byte>)
  {
    a + |w| <= |e| && e[a..a + |w|] == w
  }

  lemma AtSplit(e: seq<byte>, a: nat, u: seq<byte>, v: seq<byte>)
    requires At(e, a, u + v)
    ensures At(e, a, u) && At(e, a + |u|, v)
  {
    var w := u + v;
    assert e[a..a + |u|] == e[a..a + |w|][..|u|];
    assert e[a + |u|..a + |w|] == e[a..a + |w|][|u|..];
    assert w[..|u|] == u && w[|u|..] == v;
  }

  lemma AtPrefix(e: seq<byte>, a: nat, w: seq<byte>, k: nat)
    requires At(e, a, w) && k <= |w|
    ensures At(e, a, w[..k])
  {
    assert e[a..a + k] == e[a..a + |w|][..k];
  }

  lemma AtIndex(e: seq<byte>, a: nat, w: seq<byte>, i: nat)
    requires At(e, a, w) && i < |w|
    ensures e[a + i] == w[i]
  {
    assert e[a..a + |w|][i] == e[a + i];
  }

  /** The inputs the round trip is stated for: not empty, and short
      enough that no position in the encoded stream wraps. */
  predicate Fits(s: seq<byte>)
  {
    0 < |s| && |s| + 256 <= U64
  }

  /** The two ends of the stream sections. */
  function StreamsStart(s: seq<byte>): nat
    requires |s| < U64
  {
    1 + |Header(s, Order(s))|
  }

  function ExceptionsStart(s: seq<byte>): nat
    requires |s| < U64
  {
    StreamsStart(s) + |s|
  }

  /** The encoded stream is the group count, the header, the cycled
      streams and the exception bytes, one after the other. */
  lemma EncodeParts(s: seq<byte>, key: seq<byte>)
    requires Fits(s) && |key| > 0
    ensures |Order(s)| < 256
    ensures Encode(s, key) == [|Order(s)| as byte] + Header(s, Order(s))
                              + Cycled(Streams(s, Order(s)), key) + ExcBytes(s, |s|)
  {
    OrderBound(s);
  }

  /** Where each part of a four-part stream sits. */
  lemma Parts(e: seq<byte>, c: seq<byte>, h: seq<byte>, cs: seq<byte>, x: seq<byte>)
    requires e == c + h + cs + x
    ensures At(e, 0, c) && At(e, |c|, h) && At(e, |c| + |h|, cs) && At(e, |c| + |h| + |cs|, x)
    ensures |e| == |c| + |h| + |cs| + |x|
  {
    assert At(e, 0, c + h + cs + x);
    AtSplit(e, 0, c + h + cs, x);
    AtSplit(e, 0, c + h, cs);
    AtSplit(e, 0, c, h);
  }

  /** Where the group count and the header sit. */
  lemma HeaderLayout(s: seq<byte>, key: seq<byte>)
    requires Fits(s) && |key| > 0
    ensures Encode(s, key)[0] == |Order(s)|
    ensures At(Encode(s, key), 1, Header(s, Order(s)))
  {
    EncodeParts(s, key);
    var c: byte := |Order(s)|;
    Parts(Encode(s, key), [c], Header(s, Order(s)), Cycled(Streams(s, Order(s)), key), ExcBytes(s, |s|));
    AtIndex(Encode(s, key), 0, [c], 0);
  }

  /** Where the cycled streams sit. */
  lemma StreamsLayout(s: seq<byte>, key: seq<byte>)
    requires Fits(s) && |key| > 0
    ensures At(Encode(s, key), StreamsStart(s), Cycled(Streams(s, Order(s)), key))
  {
    EncodeParts(s, key);
    var c: byte := |Order(s)|;
    Parts(Encode(s, key), [c], Header(s, Order(s)), Cycled(Streams(s, Order(s)), key), ExcBytes(s, |s|));
  }

  /** Where the exception bytes sit: at the end. */
  lemma ExceptionsLayout(s: seq<byte>, key: seq<byte>)
    requires Fits(s) && |key| > 0
    ensures At(Encode(s, key), ExceptionsStart(s), ExcBytes(s, |s|))
    ensures |Encode(s, key)| == ExceptionsStart(s) + |ExcBytes(s, |s|)|
  {
    EncodeParts(s, key);
    TotalOrder(s);
    StreamsTotal(s, Order(s));
    var c: byte := |Order(s)|;
    assert ExceptionsStart(s) == |[c]| + |Header(s, Order(s))| + |Cycled(Streams(s, Order(s)), key)|;
    Parts(Encode(s, key), [c], Header(s, Order(s)), Cycled(Streams(s, Order(s)), key), ExcBytes(s, |s|));
  }

  /** A prefix of a prefix. */
  lemma PrefixOfPrefix<T>(a: seq<T>, d: seq<T>, c: seq<T>, x: seq<T>)
    requires |d| <= |a| && a[..|d|] == d && d == c + x
    ensures |c| <= |a| && a[..|c|] == c
  {
    assert a[..|c|] == a[..|d|][..|c|];
  }

  /** The header of a prefix of the order is a prefix of the header. */
  lemma {:induction false} HeaderPrefix(s: seq<byte>, o: seq<nat>, t: nat)
    requires |s| < U64 && Small(o) && t <= |o|
    ensures |Header(s, o[..t])| <= |Header(s, o)|
    ensures Header(s, o)[..|Header(s, o[..t])|] == Header(s, o[..t])
    decreases |o| - t
  {
    if t < |o| {
      HeaderPrefix(s, o, t + 1);
      HeaderNext(s, o, t);
      PrefixOfPrefix(Header(s, o), Header(s, o[..t + 1]), Header(s, o[..t]), NodeProperty(o[t], Count(s, o[t])));
    } else {
      assert o[..t] == o;
    }
  }

  /** The same for the streams. */
  lemma {:induction false} StreamsPrefix(s: seq<byte>, o: seq<nat>, t: nat)
    requires |s| < U64 && Small(o) && t <= |o|
    ensures |Streams(s, o[..t])| <= |Streams(s, o)|
    ensures Streams(s, o)[..|Streams(s, o[..t])|] == Streams(s, o[..t])
    decreases |o| - t
  {
    if t < |o| {
      StreamsPrefix(s, o, t + 1);
      HeaderNext(s, o, t);
      PrefixOfPrefix(Streams(s, o), Streams(s, o[..t + 1]), Streams(s, o[..t]), Stream(s, |s|, o[t]));
    } else {
      assert o[..t] == o;
    }
  }

  /** Each header entry takes at most nine bytes. */
  lemma {:induction false} HeaderLength(s: seq<byte>, o: seq<nat>)
    requires |s| < U64 && Small(o)
    ensures |Header(s, o)| <= 9 * |o|
  {
    if |o| > 0 {
      var p := o[..|o| - 1];
      HeaderLength(s, p);
      ByteLength64(Count(s, o[|o| - 1]));
    }
  }

  /** The sizes of a prefix of the order add up to no more. */
  lemma {:induction false} TotalPrefix(s: seq<byte>, o: seq<nat>, t: nat)
    requires t <= |o|
    ensures Total(s, o[..t]) <= Total(s, o)
    decreases |o| - t
  {
    if t < |o| {
      TotalPrefix(s, o, t + 1);
      PrefixStep(o, t);
    } else {
      assert o[..t] == o;
    }
  }

  /** The first byte of a `NodeProperty` in the stream reads back as its
      group and the length of its value. */
  lemma PropertyOrder(e: seq<byte>, a: nat, g: nat, c: nat)
    requires g < 16 && c < U64 && At(e, a, NodeProperty(g, c))
    ensures a < |e| && ExtractOrder(e[a]) == (g, ByteLength(c))
  {
    HeaderSplit(g, c);
    AtIndex(e, a, NodeProperty(g, c), 0);
  }

  /** The value bytes follow the first byte. */
  lemma PropertyBytes(e: seq<byte>, a: nat, g: nat, c: nat)
    requires g < 16 && c < U64 && At(e, a, NodeProperty(g, c))
    ensures |NodeProperty(g, c)| == 1 + ByteLength(c)
    ensures At(e, a + 1, BeBytes(c))
  {
    var np := NodeProperty(g, c);
    HeaderSplit(g, c);
    assert np == [np[0]] + BeBytes(c);
    AtSplit(e, a, [np[0]], BeBytes(c));
  }

  /** At `a` the stream holds the big-endian bytes of `c`, as the decoder
      reads them. */
  predicate ValueAt(e: seq<byte>, a: nat, c: nat)
  {
    a + ByteLength(c) <= |e| && BeValue(e[a..a + ByteLength(c)]) == c
  }

  /** The big-endian bytes of a value read back as the value. */
  lemma ValueRead(e: seq<byte>, a: nat, c: nat)
    requires c < U64 && At(e, a, BeBytes(c))
    ensures ValueAt(e, a, c)
  {
    ValueOf(e[a..a + ByteLength(c)], c);
  }

  lemma ValueOf(w: seq<byte>, c: nat)
    requires c < U64 && w == BeBytes(c)
    ensures BeValue(w) == c
  {
    BeRoundTrip(c);
  }

  /** At `a` the stream holds a `NodeProperty` of group `g` and value
      `c`, as the decoder reads it. */
  predicate PropertyAt(e: seq<byte>, a: nat, g: nat, c: nat)
  {
    a < |e| && ExtractOrder(e[a]) == (g, ByteLength(c)) && ValueAt(e, a + 1, c)
  }

  /** A `NodeProperty` in the stream reads back as its group, the length
      of its value and the value. */
  lemma PropertyRead(e: seq<byte>, a: nat, g: nat, c: nat)
    requires g < 16 && c < U64 && At(e, a, NodeProperty(g, c))
    ensures PropertyAt(e, a, g, c)
    ensures |NodeProperty(g, c)| == 1 + ByteLength(c)
  {
    PropertyOrder(e, a, g, c);
    PropertyBytes(e, a, g, c);
    ValueRead(e, a + 1, c);
  }

  /** At `p.idx` the stream holds an entry of group `g`, not registered
      yet, with size `c`. */
  predicate NewEntryAt(e: seq<byte>, p: Parsed, g: nat, c: nat)
  {
    Wf(p) && g < 16 && p.table[g].None? && PropertyAt(e, p.idx, g, c)
  }

  /** The state after registering group `g` with size `c`. */
  function Registered(p: Parsed, g: nat, c: nat): (q: Parsed)
    requires Wf(p) && g < 16
    ensures Wf(q)
  {
    Parsed(p.idx + 1 + ByteLength(c), p.table[g := Some(NewGroup(g).(size := c))], p.order + [g], Add64(p.partition, c))
  }

  /** A header entry for a group not seen before registers it with the
      size it reads. */
  lemma EntryNew(e: seq<byte>, p: Parsed, g: nat, c: nat)
    requires NewEntryAt(e, p, g, c)
    ensures HeaderEntry(e, p) == Some(Registered(p, g, c))
  {
    var t := p.table[g := Some(NewGroup(g))];
    assert t[g := Some(t[g].value.(size := c))] == p.table[g := Some(NewGroup(g).(size := c))];
  }

  /** The table after the header entries of the groups in `q`: each with
      its size, nothing else read yet. */
  function HeaderTable(s: seq<byte>, q: seq<nat>): (t: seq<Option<Group>>)
    ensures |t| == 16
  {
    seq(16, h => if h in q then Some(Group(h, Count(s, h), 0, 0, [], None)) else None)
  }

  /** The parse state after `t` header entries. */
  function HeaderState(s: seq<byte>, t: nat): (p: Parsed)
    requires |s| < U64 && t <= |Order(s)|
    ensures Wf(p)
  {
    var o := Order(s);
    Parsed(1 + |Header(s, o[..t])|, HeaderTable(s, o[..t]), o[..t], Total(s, o[..t]))
  }

  /** Registering one more group. */
  lemma HeaderTableNext(s: seq<byte>, o: seq<nat>, t: nat)
    requires t < |o| && o[t] < 16
    ensures HeaderTable(s, o[..t])[o[t] := Some(NewGroup(o[t]).(size := Count(s, o[t])))]
            == HeaderTable(s, o[..t + 1])
  {
    assert o[..t + 1] == o[..t] + [o[t]];
  }

  /** Entry `t` of the header sits after the entries before it. */
  lemma EntryBytes(s: seq<byte>, e: seq<byte>, t: nat)
    requires |s| < U64 && t < |Order(s)| && At(e, 1, Header(s, Order(s)))
    ensures At(e, 1 + |Header(s, Order(s)[..t])|, NodeProperty(Order(s)[t], Count(s, Order(s)[t])))
  {
    var o := Order(s);
    HeaderPrefix(s, o, t + 1);
    HeaderNext(s, o, t);
    AtPrefix(e, 1, Header(s, o), |Header(s, o[..t + 1])|);
    AtSplit(e, 1, Header(s, o[..t]), NodeProperty(o[t], Count(s, o[t])));
  }

  /** The header entry of group `t` reads back as its group and size. */
  lemma HeaderEntryAt(s: seq<byte>, e: seq<byte>, t: nat)
    requires |s| < U64 && t < |Order(s)| && At(e, 1, Header(s, Order(s)))
    ensures HeaderEntry(e, HeaderState(s, t)) == Some(HeaderState(s, t + 1))
  {
    var g, c := Order(s)[t], Count(s, Order(s)[t]);
    EntryFacts(s, e, t);
    EntryNew(e, HeaderState(s, t), g, c);
    NextState(s, t);
  }

  /** What the decoder finds at entry `t`: its group, not yet registered,
      and its size. */
  lemma EntryFacts(s: seq<byte>, e: seq<byte>, t: nat)
    requires |s| < U64 && t < |Order(s)| && At(e, 1, Header(s, Order(s)))
    ensures NewEntryAt(e, HeaderState(s, t), Order(s)[t], Count(s, Order(s)[t]))
  {
    var o := Order(s);
    OrderDistinct(s);
    assert o[t] !in o[..t];
    EntryBytes(s, e, t);
    PropertyRead(e, 1 + |Header(s, o[..t])|, o[t], Count(s, o[t]));
  }

  /** The state after entry `t` registers group `o[t]` with its size. */
  lemma NextState(s: seq<byte>, t: nat)
    requires |s| < U64 && t < |Order(s)|
    ensures HeaderState(s, t + 1) == Registered(HeaderState(s, t), Order(s)[t], Count(s, Order(s)[t]))
  {
    NextPosition(s, t);
    NextGroups(s, t);
    NextPartition(s, t);
  }

  /** The index and the order after entry `t`. */
  lemma NextPosition(s: seq<byte>, t: nat)
    requires |s| < U64 && t < |Order(s)|
    ensures HeaderState(s, t + 1).idx == HeaderState(s, t).idx + 1 + ByteLength(Count(s, Order(s)[t]))
    ensures HeaderState(s, t + 1).order == HeaderState(s, t).order + [Order(s)[t]]
  {
    NextIdx(s, Order(s), t);
    SnocPrefix(Order(s), t);
  }

  /** The table after entry `t`. */
  lemma NextGroups(s: seq<byte>, t: nat)
    requires |s| < U64 && t < |Order(s)|
    ensures HeaderState(s, t + 1).table
            == HeaderState(s, t).table[Order(s)[t] := Some(NewGroup(Order(s)[t]).(size := Count(s, Order(s)[t])))]
  {
    HeaderTableNext(s, Order(s), t);
  }

  /** The partition after entry `t`. */
  lemma NextPartition(s: seq<byte>, t: nat)
    requires |s| < U64 && t < |Order(s)|
    ensures HeaderState(s, t + 1).partition == Add64(HeaderState(s, t).partition, Count(s, Order(s)[t]))
  {
    NextTotal(s, t);
  }

  /** One more element of a prefix. */
  lemma SnocPrefix<T>(o: seq<T>, t: nat)
    requires t < |o|
    ensures o[..t + 1] == o[..t] + [o[t]]
  {
    assert o[..t + 1] == o[..t] + [o[t]];
  }

  lemma NextIdx(s: seq<byte>, o: seq<nat>, t: nat)
    requires |s| < U64 && Small(o) && t < |o|
    ensures |Header(s, o[..t + 1])| == |Header(s, o[..t])| + 1 + ByteLength(Count(s, o[t]))
  {
    HeaderNext(s, o, t);
    HeaderSplit(o[t], Count(s, o[t]));
  }

  lemma NextTotal(s: seq<byte>, t: nat)
    requires |s| < U64 && t < |Order(s)|
    ensures Total(s, Order(s)[..t + 1]) == Add64(Total(s, Order(s)[..t]), Count(s, Order(s)[t]))
  {
    var o := Order(s);
    PrefixStep(o, t);
    TotalPrefix(s, o, t + 1);
    TotalOrder(s);
  }

  /** The first `t` header entries read back. */
  lemma {:induction false} HeaderRead(s: seq<byte>, e: seq<byte>, t: nat)
    requires |s| < U64 && t <= |Order(s)| && At(e, 1, Header(s, Order(s)))
    ensures ParseHeader(e, t, Start()) == Some(HeaderState(s, t))
  {
    if t == 0 {
      assert Order(s)[..0] == [];
      assert HeaderTable(s, []) == EmptyTable();
    } else {
      HeaderRead(s, e, t - 1);
      HeaderEntryAt(s, e, t - 1);
    }
  }
}
