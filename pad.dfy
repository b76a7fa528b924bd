/** The random-pad scheme shared by C++/xor-cryptor.hpp, C++/xor-cryptor.cpp,
    the randomized mode of Java/com/beesechurger/shank03/XORCryptor.java and
    Nodejs/lib/xor-crypt.ts: every text unit `t` becomes the pair
    `(t ^ key ^ c, c)` for a freshly drawn pad `c`, the key repeating; the
    receiver splits the stream into even and odd positions and XORs them
    back together with the key. Units are naturals so that bytes and UTF-16
    code units share the definitions; the pads are an input sequence. */
module Pad {
  import opened Bits

  /** A pad of `getRandChar`: the code of an ASCII letter. */
  predicate IsLetter(c: nat)
  {
    65 <= c <= 90 || 97 <= c <= 122
  }

  /** The sealed stream: the pair `(text[i] ^ key[i % |key|] ^ pads[i],
      pads[i])` for every unit, in order. */
  function Seal(text: seq<nat>, key: seq<nat>, pads: seq<nat>): (r: seq<nat>)
    requires |key| > 0 && |pads| >= |text|
    ensures |r| == 2 * |text|
  {
    if |text| == 0 then []
    else
      var n := |text| - 1;
      Seal(text[..n], key, pads) + [Xor(Xor(text[n], key[n % |key|]), pads[n]), pads[n]]
  }

  /** The units at even positions. */
  function Evens(s: seq<nat>): (r: seq<nat>)
    ensures |r| == (|s| + 1) / 2
  {
    seq((|s| + 1) / 2, j requires 0 <= j < (|s| + 1) / 2 => s[2 * j])
  }

  /** The units at odd positions. */
  function Odds(s: seq<nat>): (r: seq<nat>)
    ensures |r| == |s| / 2
  {
    seq(|s| / 2, j requires 0 <= j < |s| / 2 => s[2 * j + 1])
  }

  /** The XOR of a unit with both the key unit and the pad, on both sides. */
  function Opened(enc: seq<nat>, rands: seq<nat>, key: seq<nat>): (r: seq<nat>)
    requires |key| > 0 && (|enc| > 0 ==> |rands| > 0)
    ensures |r| == |enc|
  {
    seq(|enc|, j requires 0 <= j < |enc| => Xor(Xor(enc[j], key[j % |key|]), rands[j % |rands|]))
  }

  /** What every receiver computes: the odd units XORed with the key and the
      even unit of the same index. */
  function Open(input: seq<nat>, key: seq<nat>): (r: seq<nat>)
    requires |key| > 0
    ensures |r| == |input| / 2
  {
    Opened(Odds(input), Evens(input), key)
  }

  /** The pad taken out of both units of a pair gives the text unit. */
  lemma {:induction false} PadCancel(t: nat, k: nat, c: nat)
    ensures Xor(Xor(c, k), Xor(Xor(t, k), c)) == t
    ensures Xor(Xor(Xor(Xor(t, k), c), k), c) == t
  {
    var m := Xor(Xor(t, k), c);
    XorComm(Xor(c, k), m);
    XorAssoc(m, c, k);
    XorCancel(Xor(t, k), c);
    XorCancel(t, k);
    XorCancel2(t, k, c);
  }

  /** Round trip: opening a sealed stream with the same key gives back the
      text, whatever the pads. */
  lemma {:induction false} SealOpen(text: seq<nat>, key: seq<nat>, pads: seq<nat>)
    requires |key| > 0 && |pads| >= |text|
    ensures Open(Seal(text, key, pads), key) == text
  {
    var s := Seal(text, key, pads);
    var r := Open(s, key);
    var n := |text|;
    DivModUnique(2 * n + 1, 2, n, 1);
    assert |Evens(s)| == n;
    forall i | 0 <= i < |text|
      ensures r[i] == text[i]
    {
      var k := key[i % |key|];
      SealAt(text, key, pads, i);
      assert Odds(s)[i] == pads[i] && Evens(s)[i] == s[2 * i];
      DivModUnique(i, n, 0, i);
      PadCancel(text[i], k, pads[i]);
    }
  }

  /** A stream whose pairs follow the rule is the sealed stream. */
  lemma {:induction false} SealOf(s: seq<nat>, text: seq<nat>, key: seq<nat>, pads: seq<nat>)
    requires |key| > 0 && |pads| >= |text| && |s| == 2 * |text|
    requires forall j :: 0 <= j < |text| ==>
               s[2 * j] == Xor(Xor(text[j], key[j % |key|]), pads[j]) && s[2 * j + 1] == pads[j]
    ensures s == Seal(text, key, pads)
  {
    if |text| > 0 {
      var n := |text| - 1;
      SealOf(s[..2 * n], text[..n], key, pads);
      assert s == s[..2 * n] + [s[2 * n], s[2 * n + 1]];
    }
  }

  /** The pairs of the sealed stream. */
  lemma {:induction false} SealAt(text: seq<nat>, key: seq<nat>, pads: seq<nat>, j: nat)
    requires |key| > 0 && |pads| >= |text| && j < |text|
    ensures Seal(text, key, pads)[2 * j] == Xor(Xor(text[j], key[j % |key|]), pads[j])
    ensures Seal(text, key, pads)[2 * j + 1] == pads[j]
  {
    var n := |text| - 1;
    if j < n {
      SealAt(text[..n], key, pads, j);
    }
  }

  /** Opening reads pair `j` as `(input[2j], input[2j+1])`. */
  lemma OpenAt(input: seq<nat>, key: seq<nat>, j: nat)
    requires |key| > 0 && j < |input| / 2
    ensures Open(input, key)[j] == Xor(Xor(input[2 * j], key[j % |key|]), input[2 * j + 1])
  {
    var e := Evens(input);
    assert j < |e| && e[j] == input[2 * j] && Odds(input)[j] == input[2 * j + 1];
    DivModUnique(j, |e|, 0, j);
    var a, b, k := input[2 * j + 1], input[2 * j], key[j % |key|];
    XorAssoc(a, k, b);
    XorComm(k, b);
    XorAssoc(b, k, a);
    XorComm(a, Xor(b, k));
  }

  /** One more unit joins the even or the odd side by its position. */
  lemma SplitNext(s: seq<nat>, i: nat)
    requires i < |s|
    ensures i % 2 == 0 ==> Evens(s[..i + 1]) == Evens(s[..i]) + [s[i]] && Odds(s[..i + 1]) == Odds(s[..i])
    ensures i % 2 == 1 ==> Odds(s[..i + 1]) == Odds(s[..i]) + [s[i]] && Evens(s[..i + 1]) == Evens(s[..i])
  {
    var h := i / 2;
    if i % 2 == 0 {
      DivModUnique(i + 1, 2, h, 1);
      DivModUnique(i + 2, 2, h + 1, 0);
      assert 2 * h == i;
    } else {
      DivModUnique(i + 1, 2, h + 1, 0);
      DivModUnique(i + 2, 2, h + 1, 1);
      assert 2 * h + 1 == i;
    }
  }

  /** Units below `2^b` stay below it through sealing and opening. */
  predicate Below(s: seq<nat>, b: nat)
  {
    forall i :: 0 <= i < |s| ==> s[i] < Pow2(b)
  }

  lemma {:induction false} SealBelow(text: seq<nat>, key: seq<nat>, pads: seq<nat>, b: nat)
    requires |key| > 0 && |pads| >= |text| && Below(text, b) && Below(key, b) && Below(pads, b)
    ensures Below(Seal(text, key, pads), b)
  {
    if |text| > 0 {
      var n := |text| - 1;
      SealBelow(text[..n], key, pads, b);
      XorBound(text[n], key[n % |key|], b);
      XorBound(Xor(text[n], key[n % |key|]), pads[n], b);
    }
  }

  lemma OpenBelow(input: seq<nat>, key: seq<nat>, b: nat)
    requires |key| > 0 && Below(input, b) && Below(key, b)
    ensures Below(Open(input, key), b)
  {
    var r := Open(input, key);
    forall j | 0 <= j < |r|
      ensures r[j] < Pow2(b)
    {
      OpenAt(input, key, j);
      XorBound(input[2 * j], key[j % |key|], b);
      XorBound(Xor(input[2 * j], key[j % |key|]), input[2 * j + 1], b);
    }
  }

  /** The encryption loop of C++/xor-cryptor.cpp and of the Node.js code:
      for each unit, the key index `k` is reset when it reaches the key
      length, a pad is drawn and the pair is appended to the output. */
  method SealStream(text: seq<nat>, key: seq<nat>, pads: seq<nat>) returns (out: seq<nat>)
    requires |key| > 0 && |pads| >= |text|
    ensures out == Seal(text, key, pads)
  {
    out := [];
    var k := 0;
    for i := 0 to |text|
      invariant 0 <= k <= |key| && k % |key| == i % |key|
      invariant out == Seal(text[..i], key, pads)
    {
      KeyIndexStep(k, i, |key|);
      if k == |key| {
        k := 0;
      }
      var c := pads[i];
      out := out + [Xor(Xor(text[i], key[k]), c), c];
      k := k + 1;
      assert text[..i + 1][..i] == text[..i];
    }
    assert text[..|text|] == text;
  }

  /** The split loop of C++/xor-cryptor.cpp and of the Node.js code: units
      at even positions go to the `rands`, those at odd positions to the
      `encrypted` part. */
  method SplitStream(input: seq<nat>) returns (rands: seq<nat>, encrypted: seq<nat>)
    ensures rands == Evens(input) && encrypted == Odds(input)
  {
    rands, encrypted := [], [];
    for s := 0 to |input|
      invariant rands == Evens(input[..s]) && encrypted == Odds(input[..s])
    {
      SplitNext(input, s);
      if s % 2 == 0 {
        rands := rands + [input[s]];
      } else {
        encrypted := encrypted + [input[s]];
      }
    }
    assert input[..|input|] == input;
  }

  /** The decryption loop of the same code: each encrypted unit is XORed
      with the key unit and the pad at the wrapping indexes `k` and `c`. */
  method OpenedStream(encrypted: seq<nat>, rands: seq<nat>, key: seq<nat>) returns (out: seq<nat>)
    requires |key| > 0 && |encrypted| <= |rands|
    ensures out == Opened(encrypted, rands, key)
  {
    out := [];
    var k, c := 0, 0;
    for i := 0 to |encrypted|
      invariant 0 <= k <= |key| && k % |key| == i % |key|
      invariant 0 <= c <= |rands| && (|rands| > 0 ==> c % |rands| == i % |rands|)
      invariant |out| == i
      invariant forall j :: 0 <= j < i ==> out[j] == Opened(encrypted, rands, key)[j]
    {
      KeyIndexStep(k, i, |key|);
      KeyIndexStep(c, i, |rands|);
      if k == |key| {
        k := 0;
      }
      if c == |rands| {
        c := 0;
      }
      out := out + [Xor(Xor(encrypted[i], key[k]), rands[c])];
      k, c := k + 1, c + 1;
    }
  }

  /** Splitting then opening: the receive side of the scheme. */
  method OpenStream(input: seq<nat>, key: seq<nat>) returns (out: seq<nat>)
    requires |key| > 0
    ensures out == Open(input, key)
  {
    var rands, encrypted := SplitStream(input);
    out := OpenedStream(encrypted, rands, key);
  }
}
