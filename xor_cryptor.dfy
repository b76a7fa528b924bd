/** The keyed substitution cipher of xor_cryptor.cpp: the key mask, the
    256-entry substitution table, and the in-place pair transform. Bytes are
    naturals below 256 (see module Bits). */
module XorCryptor {
  import opened Bits

  // ---------------------------------------------------------------------------
  // Key mask
  // ---------------------------------------------------------------------------

  /** Number of set bits of `v`. */
  function Popcount(v: nat): nat
  {
    if v == 0 then 0 else v % 2 + Popcount(v / 2)
  }

  /** A `k`-bit value has at most `k` set bits. */
  lemma {:induction false} PopcountBound(v: nat, k: nat)
    requires v < Pow2(k)
    ensures Popcount(v) <= k
  {
    if v != 0 {
      PopcountBound(v / 2, k - 1);
    }
  }

  /** A byte has at most 8 set bits. */
  lemma PopcountByte(v: byte)
    ensures Popcount(v) <= 8
  {
    assert Pow2(8) == 256;
    PopcountBound(v, 8);
  }

  /** The nibble repeated in the pad of a key byte:
      `popcount(v) ^ (8 - popcount(v))`. */
  function PadNibble(v: byte): nat
  {
    PopcountByte(v);
    Xor(Popcount(v), 8 - Popcount(v))
  }

  /** The mask a key byte is replaced by: the byte XORed with the pad
      `(x << 4) | x` where `x` is its pad nibble. */
  function KeyMask(v: byte): byte
  {
    var p := Popcount(v);
    PopcountByte(v);
    XorNibble(p, 8 - p);
    Xor8(v, 17 * PadNibble(v))
  }

  /** The pad XORed into a key byte has two equal nibbles, so the mask changes
      the high and the low nibble of the key byte by the same four bits; and
      the mask determines the key byte back. */
  lemma KeyMaskPad(v: byte)
    ensures var d := Xor(KeyMask(v), v); d / 16 == d % 16 == PadNibble(v)
    ensures Xor(KeyMask(v), 17 * PadNibble(v)) == v
  {
    PopcountByte(v);
    var x := PadNibble(v);
    assert x < 16 by {
      XorNibble(Popcount(v), 8 - Popcount(v));
    }
    assert Xor(KeyMask(v), v) == 17 * x by {
      XorComm(v, 17 * x);
      XorCancel(17 * x, v);
    }
    Nibbles(x, x);
    XorCancel(v, 17 * x);
  }

  /** `(16 * x + y) % 256` for a low nibble `y`: the high nibble of the
      result is the low nibble of `x`. */
  lemma ByteOfShifted(x: nat, y: nat)
    requires y < 16
    ensures (16 * x + y) % 256 == 16 * (x % 16) + y
  {
    assert 16 * x + y == 256 * (x / 16) + (16 * (x % 16) + y);
    DivModUnique(16 * x + y, 256, x / 16, 16 * (x % 16) + y);
  }

  /** The folding step of `generate_mask`, from the popcount `p` onwards:
      `mask |= (8 - p) << 4`, then `mask ^ ((mask >> 4) | (mask << 4))` cut
      to a byte, which is the pad `17 * (p ^ (8 - p))`. */
  lemma FoldPad(p: nat, m: nat, hm: nat)
    requires p <= 8 && m == p + 16 * (8 - p) && hm == m / 16 + 16 * m
    ensures Xor(m, hm) % 256 == 17 * Xor(p, 8 - p)
  {
    var q := 8 - p;
    assert m / 16 == q by {
      Nibbles(q, p);
    }
    var x, y := Xor(q, m), Xor(p, q);
    FoldJoin(p, q, m, hm, x, y);
    FoldLow(p, q, m, x, y);
    XorNibble(p, q);
    ByteOfShifted(x, y);
  }

  /** `m ^ ((m >> 4) | (m << 4))` for `m = p | (q << 4)`, before the cut to
      a byte: the low nibble is `p ^ q`. */
  lemma FoldJoin(p: nat, q: nat, m: nat, hm: nat, x: nat, y: nat)
    requires p < 16 && q < 16 && m == 16 * q + p && hm == 16 * m + q
    requires x == Xor(q, m) && y == Xor(p, q)
    ensures Xor(m, hm) == 16 * x + y
  {
    DivModUnique(m, 16, q, p);
    DivModUnique(hm, 16, m, q);
    XorNibbles(m, hm);
    var z := Xor(m, hm);
    assert z / 16 == x && z % 16 == y;
  }

  /** The nibble that the cut to a byte keeps above `p ^ q` is `q ^ p`. */
  lemma FoldLow(p: nat, q: nat, m: nat, x: nat, y: nat)
    requires p < 16 && q < 16 && m == 16 * q + p
    requires x == Xor(q, m) && y == Xor(p, q)
    ensures x % 16 == y
  {
    XorNibbles(q, m);
    DivModUnique(m, 16, q, p);
    DivModUnique(q, 16, 0, q);
    XorComm(p, q);
  }

  /** `generate_mask`: a popcount loop, then the nibble folding. */
  method GenerateMask(v: byte) returns (r: byte)
    ensures r == KeyMask(v)
  {
    var mask: nat, vt: nat := 0, v;
    while vt != 0
      invariant mask + Popcount(vt) == Popcount(v)
      decreases vt
    {
      if vt % 2 == 1 {
        mask := mask + 1;
      }
      vt := vt / 2;
    }
    PopcountByte(v);
    ghost var p := mask;
    // `mask |= byte((8 - mask) << 4)`: the shifted value has a clear low nibble.
    mask := mask + 16 * (8 - mask);
    // `byte(mask ^ ((mask >> 4) | (mask << 4)))`: the shifts are computed in
    // `int`, and the two shifted values have no bit in common.
    var hm := mask / 16 + 16 * mask;
    FoldPad(p, mask, hm);
    mask := Xor(mask, hm) % 256;
    r := Xor8(mask, v);
    XorComm(v, mask);
  }

  /** Every key byte replaced by its mask. */
  function KeyMasks(key: seq<byte>): (m: seq<byte>)
    ensures |m| == |key|
    ensures forall i :: 0 <= i < |key| ==> m[i] == KeyMask(key[i])
  {
    seq(|key|, i requires 0 <= i < |key| => KeyMask(key[i]))
  }

  // ---------------------------------------------------------------------------
  // Substitution table
  // ---------------------------------------------------------------------------

  /** The 2-bit group `g` of `v` (group 0 is the least significant). */
  function Group(v: byte, g: nat): nat
    requires g < 4
  {
    Shr(v, 2 * g) % 4
  }

  /** The `mask` bit of group `g`: set when the group is 2 or 3. */
  function MaskBit(v: byte, g: nat): nat
    requires g < 4
  {
    if Group(v, g) > 1 then Pow2(g) else 0
  }

  /** The `mode` bit of group `g`: set when the group is 0 or 3. */
  function ModeBit(v: byte, g: nat): nat
    requires g < 4
  {
    if Group(v, g) == 0 || Group(v, g) == 3 then Pow2(g) else 0
  }

  /** The `mask` accumulated over the first `n` groups; bit `g` of it is
      `MaskBit(v, g)`, so it stays below `2^n`. */
  function MaskUpTo(v: byte, n: nat): (r: nat)
    requires n <= 4
    ensures r < Pow2(n)
  {
    if n == 0 then 0 else MaskUpTo(v, n - 1) + MaskBit(v, n - 1)
  }

  /** The `mode` accumulated over the first `n` groups. */
  function ModeUpTo(v: byte, n: nat): (r: nat)
    requires n <= 4
    ensures r < Pow2(n)
  {
    if n == 0 then 0 else ModeUpTo(v, n - 1) + ModeBit(v, n - 1)
  }

  /** The substituted value of `v`: `(mask << 4) | mode`. */
  function Classify(v: byte): byte
  {
    assert Pow2(4) == 16;
    16 * MaskUpTo(v, 4) + ModeUpTo(v, 4)
  }

  /** High bit of a substituted group: set for groups 2 and 3. */
  function HighBit(g: nat): nat { if g > 1 then 1 else 0 }

  /** Low bit of a substituted group: set for groups 0 and 3. */
  function LowBit(g: nat): nat { if g == 0 || g == 3 then 1 else 0 }

  /** The group with high bit `a` whose low bit is set exactly when it agrees
      with the high bit. */
  function Regroup(a: nat, b: nat): nat { 2 * a + (if a == b then 1 else 0) }

  /** Rebuilds a byte from its substituted value `t`: group `g` is regrouped
      from bit `g` of the high nibble and bit `g` of the low nibble. */
  function Unclassify(t: byte): byte
  {
    var h, l := t / 16, t % 16;
    Regroup(h % 2, l % 2)
    + 4 * (Regroup((h / 2) % 2, (l / 2) % 2)
           + 4 * (Regroup((h / 2 / 2) % 2, (l / 2 / 2) % 2)
                  + 4 * Regroup((h / 2 / 2 / 2) % 2, (l / 2 / 2 / 2) % 2)))
  }

  /** The base-4 digits of a byte. */
  lemma Digits4(v: byte)
    ensures v == v % 4 + 4 * ((v / 4) % 4 + 4 * ((v / 4 / 4) % 4 + 4 * ((v / 4 / 4 / 4) % 4)))
  {
    var a := v / 4;
    var b := a / 4;
    var c := b / 4;
    assert v == 4 * a + v % 4 && a == 4 * b + a % 4 && b == 4 * c + b % 4;
    assert c < 4;
  }

  /** Reading back base-4 digits. */
  lemma Digits4Read(v: nat, g0: nat, g1: nat, g2: nat, g3: nat)
    requires g0 < 4 && g1 < 4 && g2 < 4 && g3 < 4 && v == g0 + 4 * (g1 + 4 * (g2 + 4 * g3))
    ensures v % 4 == g0 && (v / 4) % 4 == g1 && (v / 4 / 4) % 4 == g2 && (v / 4 / 4 / 4) % 4 == g3
  {
    var c := g3;
    var b := g2 + 4 * c;
    var a := g1 + 4 * b;
    DivModUnique(v, 4, a, g0);
    DivModUnique(a, 4, b, g1);
    DivModUnique(b, 4, c, g2);
    DivModUnique(c, 4, 0, g3);
  }

  /** The binary digits of a nibble. */
  lemma Digits2(x: nat)
    requires x < 16
    ensures x == x % 2 + 2 * ((x / 2) % 2 + 2 * ((x / 2 / 2) % 2 + 2 * ((x / 2 / 2 / 2) % 2)))
  {
    var a := x / 2;
    var b := a / 2;
    var c := b / 2;
    assert x == 2 * a + x % 2 && a == 2 * b + a % 2 && b == 2 * c + b % 2;
    assert c < 2;
  }

  /** Reading back binary digits. */
  lemma Digits2Read(x: nat, b0: nat, b1: nat, b2: nat, b3: nat)
    requires b0 < 2 && b1 < 2 && b2 < 2 && b3 < 2 && x == b0 + 2 * (b1 + 2 * (b2 + 2 * b3))
    ensures x % 2 == b0 && (x / 2) % 2 == b1 && (x / 2 / 2) % 2 == b2 && (x / 2 / 2 / 2) % 2 == b3
  {
    var c := b3;
    var b := b2 + 2 * c;
    var a := b1 + 2 * b;
    DivModUnique(x, 2, a, b0);
    DivModUnique(a, 2, b, b1);
    DivModUnique(b, 2, c, b2);
    DivModUnique(c, 2, 0, b3);
  }

  /** The group of `v` at each of its four positions. */
  lemma GroupValues(v: byte)
    ensures Group(v, 0) == v % 4 && Group(v, 1) == (v / 4) % 4
    ensures Group(v, 2) == (v / 4 / 4) % 4 && Group(v, 3) == (v / 4 / 4 / 4) % 4
  {
    ShrTwoMore(v, 0);
    ShrTwoMore(v, 2);
    ShrTwoMore(v, 4);
  }

  /** The accumulated `mask` in terms of the four groups. */
  lemma MaskGroups(v: byte)
    ensures MaskUpTo(v, 4) == HighBit(v % 4) + 2 * (HighBit((v / 4) % 4)
                              + 2 * (HighBit((v / 4 / 4) % 4) + 2 * HighBit((v / 4 / 4 / 4) % 4)))
  {
    GroupValues(v);
    assert Pow2(0) == 1 && Pow2(1) == 2 && Pow2(2) == 4 && Pow2(3) == 8;
    assert MaskUpTo(v, 1) == MaskBit(v, 0) == HighBit(v % 4);
    assert MaskUpTo(v, 2) == MaskUpTo(v, 1) + MaskBit(v, 1);
    assert MaskBit(v, 1) == 2 * HighBit((v / 4) % 4);
    assert MaskUpTo(v, 3) == MaskUpTo(v, 2) + MaskBit(v, 2);
    assert MaskBit(v, 2) == 4 * HighBit((v / 4 / 4) % 4);
    assert MaskUpTo(v, 4) == MaskUpTo(v, 3) + MaskBit(v, 3);
    assert MaskBit(v, 3) == 8 * HighBit((v / 4 / 4 / 4) % 4);
  }

  /** The accumulated `mode` in terms of the four groups. */
  lemma ModeGroups(v: byte)
    ensures ModeUpTo(v, 4) == LowBit(v % 4) + 2 * (LowBit((v / 4) % 4)
                              + 2 * (LowBit((v / 4 / 4) % 4) + 2 * LowBit((v / 4 / 4 / 4) % 4)))
  {
    GroupValues(v);
    assert Pow2(0) == 1 && Pow2(1) == 2 && Pow2(2) == 4 && Pow2(3) == 8;
    assert ModeUpTo(v, 1) == ModeBit(v, 0) == LowBit(v % 4);
    assert ModeUpTo(v, 2) == ModeUpTo(v, 1) + ModeBit(v, 1);
    assert ModeBit(v, 1) == 2 * LowBit((v / 4) % 4);
    assert ModeUpTo(v, 3) == ModeUpTo(v, 2) + ModeBit(v, 2);
    assert ModeBit(v, 2) == 4 * LowBit((v / 4 / 4) % 4);
    assert ModeUpTo(v, 4) == ModeUpTo(v, 3) + ModeBit(v, 3);
    assert ModeBit(v, 3) == 8 * LowBit((v / 4 / 4 / 4) % 4);
  }

  /** `Classify` in terms of the four groups of its argument: bit `4 + g` of
      the result is set iff group `g` is greater than 1, and bit `g` iff
      group `g` is 0 or 3. */
  lemma ClassifyGroups(v: byte)
    ensures var g0, g1, g2, g3 := v % 4, (v / 4) % 4, (v / 4 / 4) % 4, (v / 4 / 4 / 4) % 4;
            Classify(v) / 16 == HighBit(g0) + 2 * (HighBit(g1) + 2 * (HighBit(g2) + 2 * HighBit(g3)))
            && Classify(v) % 16 == LowBit(g0) + 2 * (LowBit(g1) + 2 * (LowBit(g2) + 2 * LowBit(g3)))
  {
    MaskGroups(v);
    ModeGroups(v);
    assert Pow2(4) == 16;
    Nibbles(MaskUpTo(v, 4), ModeUpTo(v, 4));
  }

  /** Regrouping the two bits of a group gives back the group ... */
  lemma RegroupBits(g: nat)
    requires g < 4
    ensures Regroup(HighBit(g), LowBit(g)) == g
  {
  }

  /** ... and the bits of a regrouped group are the bits it was made of. */
  lemma BitsRegroup(a: nat, b: nat)
    requires a < 2 && b < 2
    ensures Regroup(a, b) < 4 && HighBit(Regroup(a, b)) == a && LowBit(Regroup(a, b)) == b
  {
  }

  /** The substitution is a bijection on bytes: `Unclassify` undoes it ... */
  lemma UnclassifyClassify(v: byte)
    ensures Unclassify(Classify(v)) == v
  {
    var g0, g1, g2, g3 := v % 4, (v / 4) % 4, (v / 4 / 4) % 4, (v / 4 / 4 / 4) % 4;
    var c := Classify(v);
    var h, l := c / 16, c % 16;
    ClassifyGroups(v);
    Digits2Read(h, HighBit(g0), HighBit(g1), HighBit(g2), HighBit(g3));
    Digits2Read(l, LowBit(g0), LowBit(g1), LowBit(g2), LowBit(g3));
    assert Regroup(h % 2, l % 2) == g0 by {
      RegroupBits(g0);
    }
    assert Regroup((h / 2) % 2, (l / 2) % 2) == g1 by {
      RegroupBits(g1);
    }
    assert Regroup((h / 2 / 2) % 2, (l / 2 / 2) % 2) == g2 by {
      RegroupBits(g2);
    }
    assert Regroup((h / 2 / 2 / 2) % 2, (l / 2 / 2 / 2) % 2) == g3 by {
      RegroupBits(g3);
    }
    Digits4(v);
  }

  /** ... and `Classify` undoes `Unclassify`. */
  lemma ClassifyUnclassify(t: byte)
    ensures Classify(Unclassify(t)) == t
  {
    var h, l := t / 16, t % 16;
    var a0, a1, a2, a3 := h % 2, (h / 2) % 2, (h / 2 / 2) % 2, (h / 2 / 2 / 2) % 2;
    var b0, b1, b2, b3 := l % 2, (l / 2) % 2, (l / 2 / 2) % 2, (l / 2 / 2 / 2) % 2;
    var r0, r1, r2, r3 := Regroup(a0, b0), Regroup(a1, b1), Regroup(a2, b2), Regroup(a3, b3);
    BitsRegroup(a0, b0);
    BitsRegroup(a1, b1);
    BitsRegroup(a2, b2);
    BitsRegroup(a3, b3);
    var v := Unclassify(t);
    Digits4Read(v, r0, r1, r2, r3);
    var c := Classify(v);
    assert c / 16 == h by {
      ClassifyGroups(v);
      Digits2(h);
    }
    assert c % 16 == l by {
      ClassifyGroups(v);
      Digits2(l);
    }
  }

  /** No two bytes share a substituted value. */
  lemma ClassifyInjective(a: byte, b: byte)
    ensures Classify(a) == Classify(b) ==> a == b
  {
    UnclassifyClassify(a);
    UnclassifyClassify(b);
  }

  /** The encrypt-direction table: entry `i` is the substitution of `i`. */
  function EncodeTable(): (t: seq<byte>)
    ensures |t| == 256
  {
    seq(256, i requires 0 <= i < 256 => Classify(i))
  }

  /** The decrypt-direction table: entry `Classify(i)` is `i`. */
  function DecodeTable(): (t: seq<byte>)
    ensures |t| == 256
  {
    seq(256, i requires 0 <= i < 256 => Unclassify(i))
  }

  /** `u` undoes `t` on every byte. */
  ghost predicate Inverts(u: seq<byte>, t: seq<byte>)
    requires |u| == 256 && |t| == 256
  {
    forall v :: 0 <= v < 256 ==> u[t[v]] == v
  }

  /** The two tables are mutual inverses. */
  lemma TablesInverse()
    ensures Inverts(DecodeTable(), EncodeTable())
    ensures Inverts(EncodeTable(), DecodeTable())
  {
    forall v | 0 <= v < 256
      ensures DecodeTable()[EncodeTable()[v]] == v
      ensures EncodeTable()[DecodeTable()[v]] == v
    {
      UnclassifyClassify(v);
      ClassifyUnclassify(v);
    }
  }

  // ---------------------------------------------------------------------------
  // Pair transform, as functions of the buffer contents
  // ---------------------------------------------------------------------------

  /** The key masks repeated along a buffer of length `n`: byte `i` of the
      buffer is combined with mask `i % |m|`. */
  function KeyStream(m: seq<byte>, n: nat): (k: seq<byte>)
    requires |m| > 0 || n == 0
    ensures |k| == n
    ensures forall i :: 0 <= i < n ==> k[i] == m[i % |m|]
  {
    seq(n, i requires 0 <= i < n => m[i % |m|])
  }

  /** High nibbles of a substituted pair: `t1`'s high nibble over `t0`'s. */
  function PairHigh(t0: byte, t1: byte): byte
  {
    16 * (t1 / 16) + t0 / 16
  }

  /** Low nibbles of a substituted pair, XORed with the high nibbles. */
  function PairMixed(t0: byte, t1: byte): byte
  {
    Xor8(16 * (t1 % 16) + t0 % 16, PairHigh(t0, t1))
  }

  /** The final unpaired byte: high nibble kept, low nibble XORed with it. */
  function FoldOdd(t: byte): byte
  {
    XorNibble(t % 16, t / 16);
    16 * (t / 16) + Xor(t % 16, t / 16)
  }

  /** Byte `i` of the encrypted buffer, under key stream `k` and table `t`.
      Pairs `(2j, 2j+1)` become the high nibbles and the XOR of low and high
      nibbles of the substituted pair; the odd last byte is folded on its
      own; every byte is then XORed with the key mask at its own position. */
  function EncryptedAt(s: seq<byte>, k: seq<byte>, t: seq<byte>, i: nat): byte
    requires |k| == |s| && |t| == 256 && i < |s|
  {
    if i % 2 == 1 then
      Xor8(PairMixed(t[s[i - 1]], t[s[i]]), k[i])
    else if i + 1 < |s| then
      Xor8(PairHigh(t[s[i]], t[s[i + 1]]), k[i])
    else
      Xor8(FoldOdd(t[s[i]]), k[i])
  }

  /** The whole encrypted buffer. */
  function Encrypt(s: seq<byte>, k: seq<byte>, t: seq<byte>): (r: seq<byte>)
    requires |k| == |s| && |t| == 256
    ensures |r| == |s|
  {
    seq(|s|, i requires 0 <= i < |s| => EncryptedAt(s, k, t, i))
  }

  /** Table index of the first byte of a decrypted pair, from the unmasked
      pair bytes `x` (high nibbles) and `y` (its XOR with the mixed byte). */
  function FirstIndex(x: byte, y: byte): byte { 16 * (x % 16) + y % 16 }

  /** Table index of the second byte of a decrypted pair. */
  function SecondIndex(x: byte, y: byte): byte { 16 * (x / 16) + y / 16 }

  /** Table index of a decrypted unpaired last byte. */
  function OddIndex(x: byte): byte
  {
    XorNibble(x % 16, x / 16);
    16 * (x / 16) + Xor(x % 16, x / 16)
  }

  /** Byte `i` of the decrypted buffer, under key stream `k` and table `u`. */
  function DecryptedAt(s: seq<byte>, k: seq<byte>, u: seq<byte>, i: nat): byte
    requires |k| == |s| && |u| == 256 && i < |s|
  {
    if i % 2 == 1 then
      var x := Xor8(s[i - 1], k[i - 1]);
      u[SecondIndex(x, Xor8(Xor8(s[i], k[i]), x))]
    else if i + 1 < |s| then
      var x := Xor8(s[i], k[i]);
      u[FirstIndex(x, Xor8(Xor8(s[i + 1], k[i + 1]), x))]
    else
      u[OddIndex(Xor8(s[i], k[i]))]
  }

  /** The whole decrypted buffer. */
  function Decrypt(s: seq<byte>, k: seq<byte>, u: seq<byte>): (r: seq<byte>)
    requires |k| == |s| && |u| == 256
    ensures |r| == |s|
  {
    seq(|s|, i requires 0 <= i < |s| => DecryptedAt(s, k, u, i))
  }

  /** Unmasking an encrypted pair and splitting it recovers the substituted
      values of both bytes. */
  lemma PairIndices(t0: byte, t1: byte, m0: byte, m1: byte)
    ensures var x := Xor8(Xor8(PairHigh(t0, t1), m0), m0);
            var y := Xor8(Xor8(Xor8(PairMixed(t0, t1), m1), m1), x);
            FirstIndex(x, y) == t0 && SecondIndex(x, y) == t1
  {
    var ph, pm := PairHigh(t0, t1), PairMixed(t0, t1);
    var lo := 16 * (t1 % 16) + t0 % 16;
    var x := Xor8(Xor8(ph, m0), m0);
    assert x == ph by {
      XorCancel(ph, m0);
    }
    var y := Xor8(Xor8(pm, m1), m1);
    assert y == pm by {
      XorCancel(pm, m1);
    }
    assert Xor8(y, x) == lo by {
      XorCancel(lo, ph);
    }
    Nibbles(t1 / 16, t0 / 16);
    Nibbles(t1 % 16, t0 % 16);
  }

  /** Unmasking a folded last byte recovers its substituted value. */
  lemma OddIndexFold(t: byte, m: byte)
    ensures OddIndex(Xor8(Xor8(FoldOdd(t), m), m)) == t
  {
    XorCancel(FoldOdd(t), m);
    XorNibble(t % 16, t / 16);
    var y := Xor(t % 16, t / 16);
    assert FoldOdd(t) % 16 == y && FoldOdd(t) / 16 == t / 16;
    XorCancel(t % 16, t / 16);
  }

  /** Decrypting the first byte of an encrypted pair restores it. */
  lemma RoundTripFirst(s: seq<byte>, k: seq<byte>, t: seq<byte>, u: seq<byte>, i: nat)
    requires |k| == |s| && |t| == 256 && |u| == 256 && Inverts(u, t)
    requires i % 2 == 0 && i + 1 < |s|
    ensures DecryptedAt(Encrypt(s, k, t), k, u, i) == s[i]
  {
    var e := Encrypt(s, k, t);
    assert e[i] == Xor8(PairHigh(t[s[i]], t[s[i + 1]]), k[i]);
    assert e[i + 1] == Xor8(PairMixed(t[s[i]], t[s[i + 1]]), k[i + 1]);
    PairIndices(t[s[i]], t[s[i + 1]], k[i], k[i + 1]);
  }

  /** Decrypting the second byte of an encrypted pair restores it. */
  lemma RoundTripSecond(s: seq<byte>, k: seq<byte>, t: seq<byte>, u: seq<byte>, i: nat)
    requires |k| == |s| && |t| == 256 && |u| == 256 && Inverts(u, t)
    requires i % 2 == 1 && i < |s|
    ensures DecryptedAt(Encrypt(s, k, t), k, u, i) == s[i]
  {
    var e := Encrypt(s, k, t);
    assert e[i - 1] == Xor8(PairHigh(t[s[i - 1]], t[s[i]]), k[i - 1]);
    assert e[i] == Xor8(PairMixed(t[s[i - 1]], t[s[i]]), k[i]);
    PairIndices(t[s[i - 1]], t[s[i]], k[i - 1], k[i]);
  }

  /** Decrypting the folded last byte of an odd-length buffer restores it. */
  lemma RoundTripLast(s: seq<byte>, k: seq<byte>, t: seq<byte>, u: seq<byte>, i: nat)
    requires |k| == |s| && |t| == 256 && |u| == 256 && Inverts(u, t)
    requires i % 2 == 0 && i + 1 == |s|
    ensures DecryptedAt(Encrypt(s, k, t), k, u, i) == s[i]
  {
    var e := Encrypt(s, k, t);
    assert e[i] == Xor8(FoldOdd(t[s[i]]), k[i]);
    OddIndexFold(t[s[i]], k[i]);
  }

  /** Round trip for any pair of tables where the decrypt table inverts the
      encrypt table, any key stream, and every length. */
  lemma RoundTripWith(s: seq<byte>, k: seq<byte>, t: seq<byte>, u: seq<byte>)
    requires |k| == |s| && |t| == 256 && |u| == 256 && Inverts(u, t)
    ensures Decrypt(Encrypt(s, k, t), k, u) == s
  {
    var d := Decrypt(Encrypt(s, k, t), k, u);
    forall i | 0 <= i < |s|
      ensures d[i] == s[i]
    {
      if i % 2 == 1 {
        RoundTripSecond(s, k, t, u, i);
      } else if i + 1 < |s| {
        RoundTripFirst(s, k, t, u, i);
      } else {
        RoundTripLast(s, k, t, u, i);
      }
    }
  }

  /** Round trip of the cipher: decrypting with the decode table and the same
      key masks restores every buffer, of every length (0, 1, odd and even). */
  lemma RoundTrip(s: seq<byte>, m: seq<byte>)
    requires |m| > 0
    ensures var k := KeyStream(m, |s|);
            Decrypt(Encrypt(s, k, EncodeTable()), k, DecodeTable()) == s
  {
    TablesInverse();
    RoundTripWith(s, KeyStream(m, |s|), EncodeTable(), DecodeTable());
  }

  // ---------------------------------------------------------------------------
  // One step of each loop, as facts about bytes
  // ---------------------------------------------------------------------------

  /** The odd step of `encrypt_bytes`: after the even step left the nibbles
      of the first substituted byte in `mask` and `mode`, the odd step
      produces both encrypted bytes of the pair. */
  lemma EncryptPairStep(s: seq<byte>, k: seq<byte>, t: seq<byte>, i: nat, mask0: byte, mode0: byte,
                         b: byte, mask: byte, mode: byte, c0: byte, c1: byte)
    requires |k| == |s| && |t| == 256 && i % 2 == 1 && i < |s|
    requires mask0 == t[s[i - 1]] / 16 && mode0 == t[s[i - 1]] % 16 && b == t[s[i]]
    requires mask == mask0 + 16 * (b / 16) && mode == Xor8(mode0 + 16 * (b % 16), mask)
    requires c0 == k[i - 1] && c1 == k[i]
    ensures Xor8(mask, c0) == EncryptedAt(s, k, t, i - 1)
    ensures Xor8(mode, c1) == EncryptedAt(s, k, t, i)
  {
    var a := t[s[i - 1]];
    assert mask == PairHigh(a, b);
    assert mode0 + 16 * (b % 16) == 16 * (b % 16) + a % 16;
    assert (i - 1) % 2 == 0;
  }


  /** A buffer that agrees with `EncryptedAt` everywhere is the encryption. */
  lemma EncryptOf(r: seq<int>, s: seq<byte>, k: seq<byte>, t: seq<byte>)
    requires |k| == |s| && |t| == 256 && |r| == |s|
    requires forall j :: 0 <= j < |s| ==> r[j] == EncryptedAt(s, k, t, j)
    ensures r == Encrypt(s, k, t)
  {
  }

  /** A buffer that agrees with `DecryptedAt` everywhere is the decryption. */
  lemma DecryptOf(r: seq<int>, s: seq<byte>, k: seq<byte>, u: seq<byte>)
    requires |k| == |s| && |u| == 256 && |r| == |s|
    requires forall j :: 0 <= j < |s| ==> r[j] == DecryptedAt(s, k, u, j)
    ensures r == Decrypt(s, k, u)
  {
  }

  /** Parity alternates. */
  lemma NextParity(i: nat)
    ensures (i + 1) % 2 == 1 - i % 2
  {
  }

  /** The tail step of `encrypt_bytes` folds the last byte. */
  lemma EncryptTailStep(s: seq<byte>, k: seq<byte>, t: seq<byte>, j: nat, mask: byte, mode0: byte,
                         mode: byte, c: byte)
    requires |k| == |s| && |t| == 256 && j % 2 == 0 && j + 1 == |s|
    requires mask == t[s[j]] / 16 && mode0 == t[s[j]] % 16
    requires mode == Xor(mode0, mask) && mode < 16 && c == k[j]
    ensures Xor8(16 * mask + mode, c) == EncryptedAt(s, k, t, j)
  {
  }


  /** The pair step of `decrypt_bytes` computes both decrypted bytes. */
  lemma DecryptPairStep(s: seq<byte>, k: seq<byte>, u: seq<byte>, i: nat, x: byte, y: byte)
    requires |k| == |s| && |u| == 256 && i % 2 == 0 && i + 1 < |s|
    requires x == Xor8(s[i], k[i]) && y == Xor8(Xor8(s[i + 1], k[i + 1]), x)
    ensures u[FirstIndex(x, y)] == DecryptedAt(s, k, u, i)
    ensures u[SecondIndex(x, y)] == DecryptedAt(s, k, u, i + 1)
  {
    assert (i + 1) % 2 == 1;
  }

  /** The tail step of `decrypt_bytes` computes the unpaired byte. */
  lemma DecryptTailStep(s: seq<byte>, k: seq<byte>, u: seq<byte>, j: nat, x: byte)
    requires |k| == |s| && |u| == 256 && j % 2 == 0 && j + 1 == |s|
    requires x == Xor8(s[j], k[j])
    ensures u[OddIndex(x)] == DecryptedAt(s, k, u, j)
  {
  }

  /** The index `decrypt_bytes` forms for the unpaired last byte. */
  lemma TailIndex(x: byte, mask: nat, mode: nat)
    requires mask == x / 16 && mode == Xor(x % 16, mask)
    ensures 16 * (mask % 16) + mode % 16 == OddIndex(x)
  {
    XorNibble(x % 16, mask);
    DivModUnique(mask, 16, 0, mask);
    DivModUnique(mode, 16, 0, mode);
  }

  /** The index `decrypt_bytes` forms for the second byte of a pair, after
      shifting both unmasked bytes right by 4. */
  lemma SecondIndexShifted(x: byte, y: byte)
    ensures 16 * ((x / 16) % 16) + (y / 16) % 16 == SecondIndex(x, y)
  {
  }

  /** An even index that does not start the odd last byte starts a pair:
      the next index is in the buffer too, and one later is even again. */
  lemma PairFollows(i: nat, n: nat)
    requires i % 2 == 0 && i < n && !(i == n - 1 && n % 2 == 1)
    ensures i + 1 < n && (i + 2) % 2 == 0
  {
  }

  /** Shifting by `k + j` is shifting by `k`, then by `j`. */
  lemma {:induction false} ShrShift(x: nat, k: nat, j: nat)
    ensures Shr(x, k + j) == Shr(Shr(x, k), j)
  {
    if k > 0 {
      ShrShift(x / 2, k - 1, j);
    }
  }

  /** `value >> 2`, one group further along. */
  lemma ShrTwoMore(x: nat, k: nat)
    ensures Shr(x, k + 2) == Shr(x, k) / 4
  {
    ShrShift(x, k, 2);
    ShrDiv(Shr(x, k), 2);
    assert Pow2(2) == 4;
  }

  /** The inner loop of `generate_cipher_bytes`: the four 2-bit groups of `v`
      accumulated into `mask` and `mode`, then joined. */
  method ClassifyByte(v: byte) returns (r: byte)
    ensures r == Classify(v)
  {
    var mask: nat, mode: nat := 0, 0;
    var count, shift, value: nat := 4, 0, v;
    while count > 0
      invariant 0 <= shift <= 4 && count == 4 - shift
      invariant value == Shr(v, 2 * shift)
      invariant mask == MaskUpTo(v, shift) && mode == ModeUpTo(v, shift)
    {
      var bitMask := value % 4;
      // `mask |= 1 << shift` and `mode |= 1 << shift`: bit `shift` is still clear.
      if bitMask > 1 {
        mask := mask + Pow2(shift);
      }
      if bitMask == 0 || bitMask == 3 {
        mode := mode + Pow2(shift);
      }
      ShrTwoMore(v, 2 * shift);
      count, shift, value := count - 1, shift + 1, value / 4;
    }
    assert Pow2(4) == 16;
    r := 16 * mask + mode;
  }

  // ---------------------------------------------------------------------------
  // The cryptor object: the table it fills and the in-place transforms
  // ---------------------------------------------------------------------------

  class Cryptor {
    /** `_table`: the 256-entry table, encrypt or decrypt direction. */
    const table: array<byte>

    /** `_table = new byte[0x100]`, as done before the table is generated. */
    constructor ()
      ensures table.Length == 256 && fresh(table)
    {
      table := new byte[256];
    }

    /** `generate_cipher_bytes`: replaces every key byte by its mask and fills
        the table in the requested direction. */
    method GenerateCipherBytes(cipher: array<byte>, toEncrypt: bool)
      requires table.Length == 256 && cipher != table
      modifies cipher, table
      ensures cipher[..] == KeyMasks(old(cipher[..]))
      ensures table[..] == if toEncrypt then EncodeTable() else DecodeTable()
    {
      for i := 0 to cipher.Length
        invariant forall j :: 0 <= j < i ==> cipher[j] == KeyMask(old(cipher[j]))
        invariant forall j :: i <= j < cipher.Length ==> cipher[j] == old(cipher[j])
      {
        cipher[i] := GenerateMask(cipher[i]);
      }
      assert cipher[..] == KeyMasks(old(cipher[..]));
      if toEncrypt {
        FillEncodeTable();
      } else {
        FillDecodeTable();
      }
    }

    /** The table loop of `generate_cipher_bytes`, encrypt direction:
        `_table[i] = mask`. */
    method FillEncodeTable()
      requires table.Length == 256
      modifies table
      ensures table[..] == EncodeTable()
    {
      for i := 0 to 256
        invariant forall j :: 0 <= j < i ==> table[j] == EncodeTable()[j]
      {
        var mask := ClassifyByte(i);
        table[i] := mask;
      }
      assert table[..] == EncodeTable();
    }

    /** The table loop of `generate_cipher_bytes`, decrypt direction:
        `_table[mask] = i`; no entry is written twice because the
        substitution is injective. */
    method FillDecodeTable()
      requires table.Length == 256
      modifies table
      ensures table[..] == DecodeTable()
    {
      for i := 0 to 256
        invariant forall w: byte :: w < i ==> table[Classify(w)] == w
      {
        var mask := ClassifyByte(i);
        forall w: byte | w < i
          ensures Classify(w) != mask
        {
          ClassifyInjective(w, i);
        }
        table[mask] := i;
      }
      forall j | 0 <= j < 256
        ensures table[j] == DecodeTable()[j]
      {
        ClassifyUnclassify(j);
        assert table[Classify(Unclassify(j))] == Unclassify(j);
      }
      assert table[..] == DecodeTable();
    }

    /** `encrypt_bytes`: transforms the buffer in place, pair by pair, then
        the unpaired last byte. */
    method EncryptBytes(src: array<byte>, cipher: array<byte>)
      requires table.Length == 256 && (src.Length > 0 ==> cipher.Length > 0)
      requires src != table && src != cipher
      modifies src
      ensures src[..] == Encrypt(old(src[..]), KeyStream(cipher[..], src.Length), table[..])
    {
      ghost var s, t := src[..], table[..];
      ghost var k := KeyStream(cipher[..], src.Length);
      var n := src.Length;
      var mask: byte, mode: byte := 0, 0;
      var i := 0;
      ghost var done := 0;
      while i < n
        invariant 0 <= done <= i <= n && done == i - i % 2
        invariant forall j :: 0 <= j < done ==> src[j] == EncryptedAt(s, k, t, j)
        invariant forall j :: done <= j < n ==> src[j] == s[j]
        invariant i % 2 == 1 ==> mask == t[s[i - 1]] / 16 && mode == t[s[i - 1]] % 16
        invariant i % 2 == 0 ==> mask == 0 && mode == 0
      {
        if i % 2 == 1 {
          EncryptPair(src, cipher, i, mask, mode, s, k);
          mask, mode := 0, 0;
          done := i + 1;
        } else {
          var b := table[src[i]];
          mask := mask + b / 16;
          mode := mode + b % 16;
        }
        NextParity(i);
        i := i + 1;
      }
      if n % 2 == 1 {
        EncryptLast(src, cipher, mask, mode, s, k);
      }
      EncryptOf(src[..], s, k, t);
    }

    /** The unpaired last byte of `encrypt_bytes`: `mask` and `mode` hold the
        nibbles of its substituted value; the low one is XORed with the high
        one, and the rejoined byte is masked with the key. */
    method EncryptLast(src: array<byte>, cipher: array<byte>, mask: byte, mode: byte,
                       ghost s: seq<byte>, ghost k: seq<byte>)
      requires table.Length == 256 && cipher.Length > 0 && src != table && src != cipher
      requires |s| == src.Length && k == KeyStream(cipher[..], |s|)
      requires |s| % 2 == 1 && mask == table[s[|s| - 1]] / 16 && mode == table[s[|s| - 1]] % 16
      modifies src
      ensures src[|s| - 1] == EncryptedAt(s, k, table[..], |s| - 1)
      ensures forall j :: 0 <= j < |s| - 1 ==> src[j] == old(src[j])
    {
      var i := src.Length;
      XorNibble(mode, mask);
      var folded := Xor(mode, mask);
      var value := 16 * mask + folded;
      EncryptTailStep(s, k, table[..], i - 1, mask, mode, folded, cipher[(i - 1) % cipher.Length]);
      src[i - 1] := Xor8(value, cipher[(i - 1) % cipher.Length]);
    }

    /** The odd step of `encrypt_bytes`: `mask` and `mode` hold the nibbles
        of the substituted byte before `i`; the high and the low nibbles of
        the substituted byte at `i` join them, `mode` is XORed with `mask`,
        and both are masked with the key and stored at `i` and `i - 1`. */
    method EncryptPair(src: array<byte>, cipher: array<byte>, i: nat, mask: byte, mode: byte,
                       ghost s: seq<byte>, ghost k: seq<byte>)
      requires table.Length == 256 && cipher.Length > 0 && src != table && src != cipher
      requires |s| == src.Length && k == KeyStream(cipher[..], |s|)
      requires i % 2 == 1 && i < |s| && src[i] == s[i]
      requires mask == table[s[i - 1]] / 16 && mode == table[s[i - 1]] % 16
      modifies src
      ensures src[i - 1] == EncryptedAt(s, k, table[..], i - 1)
      ensures src[i] == EncryptedAt(s, k, table[..], i)
      ensures forall j :: 0 <= j < src.Length && j != i - 1 && j != i ==> src[j] == old(src[j])
    {
      var b := table[src[i]];
      // `|=` of a high nibble onto a value below 16 is `+`.
      var high := mask + 16 * (b / 16);
      var mixed := mode + 16 * (b % 16);
      mixed := Xor8(mixed, high);
      EncryptPairStep(s, k, table[..], i, mask, mode, b, high, mixed,
                      cipher[(i - 1) % cipher.Length], cipher[i % cipher.Length]);
      src[i] := Xor8(mixed, cipher[i % cipher.Length]);
      src[i - 1] := Xor8(high, cipher[(i - 1) % cipher.Length]);
    }

    /** `decrypt_bytes`: the inverse transform, in place. The write index `w`
        (the source's `k`) equals the read index `i` at the top of every
        iteration, so no byte is overwritten before it has been read, and it
        ends at the length of the buffer. */
    method DecryptBytes(src: array<byte>, cipher: array<byte>) returns (w: nat)
      requires table.Length == 256 && (src.Length > 0 ==> cipher.Length > 0)
      requires src != table && src != cipher
      modifies src
      ensures src[..] == Decrypt(old(src[..]), KeyStream(cipher[..], src.Length), table[..])
      ensures w == src.Length
    {
      ghost var s, t := src[..], table[..];
      ghost var k := KeyStream(cipher[..], src.Length);
      var n := src.Length;
      var odd := n % 2 == 1;
      var i := 0;
      w := 0;
      while i < n
        invariant 0 <= i <= n && w == i
        invariant i < n ==> i % 2 == 0
        invariant forall j :: 0 <= j < i ==> src[j] == DecryptedAt(s, k, t, j)
        invariant forall j :: i <= j < n ==> src[j] == s[j]
      {
        assert cipher[i % cipher.Length] == k[i];
        var mask: byte := Xor8(src[i], cipher[i % cipher.Length]);
        if i == n - 1 && odd {
          DecryptLast(src, w, mask, s, k);
          w := w + 1;
        } else {
          PairFollows(i, n);
          i := i + 1;
          DecryptPair(src, cipher, w, i, mask, s, k);
          w := w + 2;
        }
        i := i + 1;
      }
      DecryptOf(src[..], s, k, t);
    }

    /** The unpaired last byte of `decrypt_bytes`: `mask` holds the unmasked
        byte; its nibbles are split, the low one is XORed with the high one
        and the table entry they index is stored at `w`. */
    method DecryptLast(src: array<byte>, w: nat, mask: byte, ghost s: seq<byte>, ghost k: seq<byte>)
      requires table.Length == 256 && src != table
      requires |s| == src.Length && |k| == |s| && w % 2 == 0 && w + 1 == |s|
      requires mask == Xor8(s[w], k[w])
      modifies src
      ensures src[w] == DecryptedAt(s, k, table[..], w)
      ensures forall j :: 0 <= j < src.Length && j != w ==> src[j] == old(src[j])
    {
      DecryptTailStep(s, k, table[..], w, mask);
      var mode := mask % 16;
      var high := mask / 16;
      XorNibble(mode, high);
      mode := Xor(mode, high);
      TailIndex(mask, high, mode);
      src[w] := table[16 * (high % 16) + mode % 16];
    }

    /** A pair of `decrypt_bytes`: `mask` holds the unmasked first byte, the
        second byte (at `i`) is unmasked and XORed with it, and the two table
        entries indexed by their low and then their high nibbles are stored
        at `w` and `w + 1`. */
    method DecryptPair(src: array<byte>, cipher: array<byte>, w: nat, i: nat, mask: byte,
                       ghost s: seq<byte>, ghost k: seq<byte>)
      requires table.Length == 256 && cipher.Length > 0 && src != table && src != cipher
      requires |s| == src.Length && k == KeyStream(cipher[..], |s|)
      requires w % 2 == 0 && i == w + 1 && i < |s| && src[i] == s[i]
      requires mask == Xor8(s[w], k[w])
      modifies src
      ensures src[w] == DecryptedAt(s, k, table[..], w)
      ensures src[i] == DecryptedAt(s, k, table[..], i)
      ensures forall j :: 0 <= j < src.Length && j != w && j != i ==> src[j] == old(src[j])
    {
      ghost var y := Xor8(Xor8(s[i], k[i]), mask);
      DecryptPairStep(s, k, table[..], w, mask, y);
      assert cipher[i % cipher.Length] == k[i];
      var mode := Xor8(src[i], cipher[i % cipher.Length]);
      mode := Xor8(mode, mask);
      src[w] := table[16 * (mask % 16) + mode % 16];
      var high, rest := mask / 16, mode / 16;
      SecondIndexShifted(mask, y);
      src[i] := table[16 * (high % 16) + rest % 16];
    }
  }
}
