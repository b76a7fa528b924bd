/** What the nibble-tree codec of xor_cryptor.hpp, and of its twin
    C++/xor_cryptor.hpp, writes. Every input byte is split into its high
    nibble, its group, and its low nibble; the groups are numbered in the
    order in which they first appear. The output is the number of groups, a
    header `NodeProperty(group, size)` per group, the groups' link streams
    XORed with the key as one cycle, and an exception list. The link stream
    of a group holds, for each of its bytes in input order, the low nibble
    and the group of the next byte when that differs. A link to group zero
    reads like "no link", so it is also listed as an exception: the group
    and the rank of the byte in it. */
module NibbleTree {
  import opened Bits
  import opened Wrappers
  import opened BitStreams

  /** `b >> 4`: the group of a byte. */
  function Hi(b: byte): (h: nat)
    ensures h < 16
  {
    b / 16
  }

  /** `(b << 4) >> 4` on a byte: the data of a byte in its group. */
  function Lo(b: byte): (l: nat)
    ensures l < 16
  {
    b % 16
  }

  /** The `Byte` record of a group: its nibble `val`, its `size`, the
      position `idx` of the next entry of its stream, the position
      `expIdx` in its exception list, its stream and its exception list
      (`nullptr` until the first exception). */
  datatype Group = Group(val: nat, size: nat, idx: nat, expIdx: nat,
                         stream: seq<byte>, exceptions: Option<seq<nat>>)

  /** The groups in order of first appearance. */
  function Order(s: seq<byte>): (o: seq<nat>)
    ensures forall t :: 0 <= t < |o| ==> o[t] < 16
  {
    if |s| == 0 then []
    else
      var o := Order(s[..|s| - 1]);
      var h := Hi(s[|s| - 1]);
      if h in o then o else o + [h]
  }

  predicate Distinct(o: seq<nat>)
  {
    forall t, u :: 0 <= t < u < |o| ==> o[t] != o[u]
  }

  /** No group is listed twice. */
  lemma {:induction false} OrderDistinct(s: seq<byte>)
    ensures Distinct(Order(s))
  {
    if |s| > 0 {
      OrderDistinct(s[..|s| - 1]);
    }
  }

  /** The listed groups are exactly those of the bytes. */
  lemma {:induction false} OrderMembers(s: seq<byte>, g: nat)
    ensures g in Order(s) <==> exists i :: 0 <= i < |s| && Hi(s[i]) == g
  {
    if |s| > 0 {
      var p := s[..|s| - 1];
      OrderMembers(p, g);
      if exists i :: 0 <= i < |p| && Hi(p[i]) == g {
        var i :| 0 <= i < |p| && Hi(p[i]) == g;
        assert s[i] == p[i];
      }
      if exists i :: 0 <= i < |s| && Hi(s[i]) == g {
        var i :| 0 <= i < |s| && Hi(s[i]) == g;
        if i < |p| {
          assert p[i] == s[i];
        }
      }
    }
  }

  /** The groups of a prefix come first, in the same order: the order is
      that of first appearance. */
  lemma {:induction false} OrderPrefix(s: seq<byte>, i: nat)
    requires i <= |s|
    ensures |Order(s[..i])| <= |Order(s)|
    ensures Order(s)[..|Order(s[..i])|] == Order(s[..i])
    decreases |s| - i
  {
    if i < |s| {
      var p := s[..|s| - 1];
      assert p[..i] == s[..i];
      OrderPrefix(p, i);
    } else {
      assert s[..i] == s;
    }
  }

  /** The first group is that of the first byte. */
  lemma OrderHead(s: seq<byte>)
    requires |s| > 0
    ensures |Order(s)| > 0 && Order(s)[0] == Hi(s[0])
  {
    OrderPrefix(s, 1);
    assert s[..1][..0] == [];
  }

  /** The values of a sequence. */
  function Elems(o: seq<nat>): (r: set<nat>)
    ensures forall x :: x in o <==> x in r
  {
    if |o| == 0 then {} else Elems(o[..|o| - 1]) + {o[|o| - 1]}
  }

  lemma {:induction false} DistinctElems(o: seq<nat>)
    requires Distinct(o)
    ensures |Elems(o)| == |o|
  {
    if |o| > 0 {
      var p := o[..|o| - 1];
      DistinctElems(p);
      assert o[|o| - 1] !in p;
    }
  }

  /** The naturals below `b`. */
  function Range(b: nat): (r: set<nat>)
    ensures forall x: nat :: x in r <==> x < b
    ensures |r| == b
  {
    if b == 0 then {} else Range(b - 1) + {b - 1}
  }

  lemma SubsetCard(a: set<nat>, b: set<nat>)
    requires a <= b
    ensures |a| <= |b|
  {
    assert b == a + (b - a);
    assert a * (b - a) == {};
  }

  /** At most sixteen groups: their number fits the leading byte. */
  lemma OrderBound(s: seq<byte>)
    ensures |Order(s)| <= 16
  {
    var o := Order(s);
    OrderDistinct(s);
    DistinctElems(o);
    SubsetCard(Elems(o), Range(16));
  }

  /** The number of bytes of group `g`. */
  function Count(s: seq<byte>, g: nat): (c: nat)
    ensures c <= |s|
  {
    if |s| == 0 then 0
    else Count(s[..|s| - 1], g) + (if Hi(s[|s| - 1]) == g then 1 else 0)
  }

  lemma CountStep(s: seq<byte>, i: nat, g: nat)
    requires i < |s|
    ensures Count(s[..i + 1], g) == Count(s[..i], g) + (if Hi(s[i]) == g then 1 else 0)
  {
    assert s[..i + 1][..i] == s[..i];
  }

  /** More bytes, no fewer in a group; one more when the byte at `i` is in
      it. */
  lemma {:induction false} CountMonotone(s: seq<byte>, i: nat, j: nat, g: nat)
    requires i <= j <= |s|
    ensures Count(s[..i], g) <= Count(s[..j], g)
    ensures i < j && Hi(s[i]) == g ==> Count(s[..i], g) < Count(s[..j], g)
    decreases j - i
  {
    if i < j {
      CountMonotone(s, i + 1, j, g);
      CountStep(s, i, g);
    }
  }

  /** A group that is not listed has no bytes. */
  lemma {:induction false} CountListed(s: seq<byte>, g: nat)
    ensures Count(s, g) > 0 <==> g in Order(s)
  {
    if |s| > 0 {
      CountListed(s[..|s| - 1], g);
    }
  }

  /** The group an entry links to: that of the next byte when it differs,
      else zero, which is also what the last byte gets. */
  function Link(s: seq<byte>, i: nat): (l: nat)
    requires i < |s|
    ensures l < 16
  {
    if i + 1 < |s| && Hi(s[i + 1]) != Hi(s[i]) then Hi(s[i + 1]) else 0
  }

  /** `insert_node`: the low nibble shifted up, ORed with the link. */
  function Entry(s: seq<byte>, i: nat): byte
    requires i < |s|
  {
    16 * Lo(s[i]) + Link(s, i)
  }

  /** An exception: the link is to group zero from another group. */
  predicate Excepted(s: seq<byte>, i: nat)
  {
    i + 1 < |s| && Hi(s[i + 1]) == 0 && Hi(s[i]) != 0
  }

  /** A link of zero is an exception exactly when it leaves the group. */
  lemma ZeroLink(s: seq<byte>, i: nat)
    requires i < |s|
    ensures Link(s, i) == 0 && i + 1 < |s| && Hi(s[i + 1]) != Hi(s[i]) <==> Excepted(s, i)
    ensures Link(s, i) != 0 ==> i + 1 < |s| && Link(s, i) == Hi(s[i + 1]) != Hi(s[i])
  {
  }

  /** The entries of the bytes before `m` in group `g`, in input order. */
  function Stream(s: seq<byte>, m: nat, g: nat): (r: seq<byte>)
    requires m <= |s|
    ensures |r| == Count(s[..m], g)
  {
    if m == 0 then []
    else
      CountStep(s, m - 1, g);
      Stream(s, m - 1, g) + (if Hi(s[m - 1]) == g then [Entry(s, m - 1)] else [])
  }

  /** The ranks, in group `g`, of its exceptions before `m`. */
  function ExcList(s: seq<byte>, m: nat, g: nat): seq<nat>
    requires m <= |s|
  {
    if m == 0 then []
    else
      ExcList(s, m - 1, g)
        + (if Excepted(s, m - 1) && Hi(s[m - 1]) == g then [Count(s[..m - 1], g)] else [])
  }

  /** An exception list as the decoder holds it: no list until the first
      one. */
  function ListOf(l: seq<nat>): Option<seq<nat>>
  {
    if |l| == 0 then None else Some(l)
  }

  /** The exception bytes for the positions before `m`: per exception, a
      `NodeProperty` of its group and its rank. */
  function ExcBytes(s: seq<byte>, m: nat): seq<byte>
    requires m <= |s| < U64
  {
    if m == 0 then []
    else
      var i := m - 1;
      ExcBytes(s, i) + (if Excepted(s, i) then NodeProperty(Hi(s[i]), Count(s[..i], Hi(s[i]))) else [])
  }

  /** The header: per listed group, its `NodeProperty` with its size. */
  function Header(s: seq<byte>, o: seq<nat>): seq<byte>
    requires |s| < U64 && forall t :: 0 <= t < |o| ==> o[t] < 16
  {
    if |o| == 0 then []
    else Header(s, o[..|o| - 1]) + NodeProperty(o[|o| - 1], Count(s, o[|o| - 1]))
  }

  /** The streams of the listed groups, one after the other. */
  function Streams(s: seq<byte>, o: seq<nat>): seq<byte>
  {
    if |o| == 0 then []
    else Streams(s, o[..|o| - 1]) + Stream(s, |s|, o[|o| - 1])
  }

  /** The sizes of the listed groups, added up. */
  function Total(s: seq<byte>, o: seq<nat>): nat
  {
    if |o| == 0 then 0 else Total(s, o[..|o| - 1]) + Count(s, o[|o| - 1])
  }

  /** Byte `j` XORed with key byte `j % |key|`: the key cycles once over
      all the streams. */
  function Cycled(b: seq<byte>, key: seq<byte>): (r: seq<byte>)
    requires |key| > 0 || |b| == 0
    ensures |r| == |b|
  {
    seq(|b|, j requires 0 <= j < |b| => Xor8(b[j], key[j % |key|]))
  }

  /** What `encrypt_bytes` returns. */
  function Encode(s: seq<byte>, key: seq<byte>): seq<byte>
    requires |s| < U64 && (|key| > 0 || |s| == 0)
  {
    var o := Order(s);
    OrderBound(s);
    assert |s| == 0 ==> o == [] && Streams(s, o) == [];
    var count: byte := |o|;
    [count] + Header(s, o) + Cycled(Streams(s, o), key) + ExcBytes(s, |s|)
  }

  lemma CountSnoc(s: seq<byte>, b: byte, g: nat)
    ensures Count(s + [b], g) == Count(s, g) + (if Hi(b) == g then 1 else 0)
  {
    assert (s + [b])[..|s|] == s;
  }

  /** One more byte adds one to the total of the groups when its group is
      listed, and nothing otherwise. */
  lemma {:induction false} TotalSnoc(s: seq<byte>, b: byte, o: seq<nat>)
    requires Distinct(o)
    ensures Total(s + [b], o) == Total(s, o) + (if Hi(b) in o then 1 else 0)
  {
    if |o| > 0 {
      var p := o[..|o| - 1];
      assert o == p + [o[|o| - 1]];
      TotalSnoc(s, b, p);
      CountSnoc(s, b, o[|o| - 1]);
    }
  }

  /** The sizes in the header add up to the length of the input. */
  lemma {:induction false} TotalOrder(s: seq<byte>)
    ensures Total(s, Order(s)) == |s|
  {
    if |s| > 0 {
      var p, b := s[..|s| - 1], s[|s| - 1];
      assert s == p + [b];
      var o := Order(p);
      TotalOrder(p);
      OrderDistinct(p);
      TotalSnoc(p, b, o);
      if Hi(b) !in o {
        CountListed(p, Hi(b));
        CountSnoc(p, b, Hi(b));
        assert (o + [Hi(b)])[..|o|] == o;
      }
    }
  }

  /** The streams hold one entry per byte. */
  lemma {:induction false} StreamsTotal(s: seq<byte>, o: seq<nat>)
    ensures |Streams(s, o)| == Total(s, o)
  {
    assert s[..|s|] == s;
    if |o| > 0 {
      StreamsTotal(s, o[..|o| - 1]);
    }
  }

  /** The entry of byte `i` sits in the stream of its group at its rank
      in the group. */
  lemma {:induction false} StreamAt(s: seq<byte>, m: nat, i: nat)
    requires i < m <= |s|
    ensures Count(s[..i], Hi(s[i])) < |Stream(s, m, Hi(s[i]))|
    ensures Stream(s, m, Hi(s[i]))[Count(s[..i], Hi(s[i]))] == Entry(s, i)
  {
    var g := Hi(s[i]);
    if i < m - 1 {
      StreamAt(s, m - 1, i);
    } else {
      assert |Stream(s, m - 1, g)| == Count(s[..i], g);
    }
  }

  /** `extract_order` on an entry gives the low nibble and the link, and
      the group and the low nibble make up the byte. */
  lemma EntrySplit(s: seq<byte>, i: nat)
    requires i < |s|
    ensures Entry(s, i) < 256
    ensures ExtractOrder(Entry(s, i)) == (Lo(s[i]), Link(s, i))
    ensures 16 * Hi(s[i]) + Lo(s[i]) == s[i]
  {
    DivModUnique(Entry(s, i), 16, Lo(s[i]), Link(s, i));
  }

  /** The exception lists grow by appending. */
  lemma {:induction false} ExcPrefix(s: seq<byte>, t: nat, m: nat, g: nat)
    requires t <= m <= |s|
    ensures |ExcList(s, t, g)| <= |ExcList(s, m, g)|
    ensures ExcList(s, m, g)[..|ExcList(s, t, g)|] == ExcList(s, t, g)
    decreases m - t
  {
    if t < m {
      ExcPrefix(s, t, m - 1, g);
    }
  }

  /** The exceptions from position `t` on have ranks no lower than the
      count of the group before `t`. */
  lemma {:induction false} ExcAbove(s: seq<byte>, t: nat, m: nat, g: nat, j: nat)
    requires t <= m <= |s|
    requires |ExcList(s, t, g)| <= j < |ExcList(s, m, g)|
    ensures ExcList(s, m, g)[j] >= Count(s[..t], g)
    decreases m - t
  {
    ExcPrefix(s, t, m - 1, g);
    if j < |ExcList(s, m - 1, g)| {
      ExcAbove(s, t, m - 1, g, j);
    } else {
      CountMonotone(s, t, m - 1, g);
    }
  }

  /** Cycling the key twice gives the bytes back. */
  lemma CycledTwice(b: seq<byte>, key: seq<byte>)
    requires |key| > 0 || |b| == 0
    ensures Cycled(Cycled(b, key), key) == b
  {
    var c := Cycled(Cycled(b, key), key);
    forall j | 0 <= j < |b|
      ensures c[j] == b[j]
    {
      XorCancel(b[j], key[j % |key|]);
    }
  }

  /** The header and the streams of one more listed group. */
  lemma HeaderNext(s: seq<byte>, o: seq<nat>, t: nat)
    requires |s| < U64 && t < |o| && forall u :: 0 <= u < |o| ==> o[u] < 16
    ensures Header(s, o[..t + 1]) == Header(s, o[..t]) + NodeProperty(o[t], Count(s, o[t]))
    ensures Streams(s, o[..t + 1]) == Streams(s, o[..t]) + Stream(s, |s|, o[t])
  {
    PrefixStep(o, t);
  }

  /** Dropping the last of the first `t + 1` elements. */
  lemma PrefixStep<T>(o: seq<T>, t: nat)
    requires t < |o|
    ensures o[..t + 1][..t] == o[..t]
  {
    assert o[..t + 1][..t] == o[..t];
  }
}
