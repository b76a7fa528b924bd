/** The length fields of the nibble-tree codec of xor_cryptor.hpp and of
    its twin C++/xor_cryptor.hpp. `BitStream` (`ByteStream` in the twin)
    holds a 64-bit value as few big-endian bytes as it takes, at least one;
    `write_node_property` (`write_node_size`) puts in front of them a header
    byte whose high nibble is a group and whose low nibble is that count of
    bytes; the decoder splits a header with `extract_order` and reads the
    value back with `v = (v << 8) | b`. */
module BitStreams {
  import opened Bits

  /** `256^i`: a left shift by `8 i` bits is a product with it. */
  function Pow256(i: nat): (p: nat)
    ensures p >= 1
  {
    if i == 0 then 1 else 256 * Pow256(i - 1)
  }

  /** `2^64`: values are `uint64_t`. */
  const U64: nat := 0x1_0000_0000_0000_0000

  lemma Pow256Eight()
    ensures Pow256(8) == U64
  {
    assert Pow256(2) == 65536;
    assert Pow256(4) == 65536 * 65536;
    assert Pow256(8) == Pow256(4) * Pow256(4) by {
      Pow256Add(4, 4);
    }
  }

  lemma {:induction false} Pow256Add(a: nat, b: nat)
    ensures Pow256(a + b) == Pow256(a) * Pow256(b)
  {
    if a > 0 {
      Pow256Add(a - 1, b);
      var x, y := Pow256(a - 1), Pow256(b);
      assert (256 * x) * y == 256 * (x * y);
    }
  }

  lemma {:induction false} Pow256Monotone(a: nat, b: nat)
    requires a <= b
    ensures Pow256(a) <= Pow256(b)
  {
    if a < b {
      Pow256Monotone(a, b - 1);
    }
  }

  lemma MulMonotone(a: nat, x: nat, y: nat)
    requires x <= y
    ensures a * x <= a * y
  {
    assert a * y == a * x + a * (y - x);
  }

  /** `(v * a) % (a * b)` keeps `v % b`, shifted. */
  lemma ModMul(v: nat, a: nat, b: nat)
    requires a > 0 && b > 0
    ensures (v * a) % (a * b) == (v % b) * a
  {
    var q, r := v / b, v % b;
    assert v == b * q + r;
    assert v * a == (a * b) * q + r * a;
    MulMonotone(a, r, b - 1);
    assert a * (b - 1) == a * b - a;
    DivModUnique(v * a, a * b, q, r * a);
  }

  /** A common factor cancels in a quotient. */
  lemma DivCancel(x: nat, a: nat, c: nat)
    requires a > 0 && c > 0
    ensures (x * a) / (a * c) == x / c
  {
    var q, r := x / c, x % c;
    assert x == c * q + r;
    assert x * a == (a * c) * q + r * a;
    MulMonotone(a, r, c - 1);
    assert a * (c - 1) == a * c - a;
    DivModUnique(x * a, a * c, q, r * a);
  }

  /** Cutting below `256 p` then dividing by `p` is taking the byte above
      `p`. */
  lemma DivModSplit(v: nat, p: nat)
    requires p > 0
    ensures (v % (256 * p)) / p == (v / p) % 256
  {
    var q, r := v / p, v % p;
    var q2, r2 := q / 256, q % 256;
    assert v == p * q + r;
    assert q == 256 * q2 + r2;
    assert p * q == (256 * p) * q2 + p * r2;
    MulMonotone(p, r2, 255);
    DivModUnique(v, 256 * p, q2, p * r2 + r);
    DivModUnique(p * r2 + r, p, r2, r);
  }

  /** `x < c p` bounds the quotient by `p`. */
  lemma DivBelow(x: nat, p: nat, c: nat)
    requires p > 0 && x < c * p
    ensures x / p < c
  {
    assert x == p * (x / p) + x % p;
    if x / p >= c {
      MulMonotone(p, c, x / p);
    }
  }

  /** `c p <= x` bounds the quotient by `p` from below. */
  lemma DivAbove(x: nat, p: nat, c: nat)
    requires p > 0 && c > 0 && c * p <= x
    ensures c <= x / p
  {
    assert x == p * (x / p) + x % p;
    if x / p < c {
      MulMonotone(p, x / p, c - 1);
    }
  }

  /** Byte `i` of `v`, counting from the least significant one. */
  function Digit(v: nat, i: nat): byte
  {
    (v / Pow256(i)) % 256
  }

  /** How many bytes `v` takes: one for zero, else up to its highest
      non-zero byte. */
  function ByteLength(v: nat): (n: nat)
    ensures n >= 1
  {
    if v < 256 then 1 else 1 + ByteLength(v / 256)
  }

  /** The length is minimal: `v` fits in `n` bytes and, past one byte, not
      in `n - 1`. */
  lemma {:induction false} ByteLengthFits(v: nat)
    ensures v < Pow256(ByteLength(v))
    ensures ByteLength(v) > 1 ==> Pow256(ByteLength(v) - 1) <= v
  {
    if v >= 256 {
      ByteLengthFits(v / 256);
    }
  }

  /** A value below `256^k` takes at most `k` bytes. */
  lemma {:induction false} ByteLengthAtMost(v: nat, k: nat)
    requires k >= 1 && v < Pow256(k)
    ensures ByteLength(v) <= k
  {
    if v >= 256 {
      assert k >= 2;
      ByteLengthAtMost(v / 256, k - 1);
    }
  }

  /** A 64-bit value takes one to eight bytes. */
  lemma ByteLength64(v: nat)
    requires v < U64
    ensures ByteLength(v) <= 8
  {
    Pow256Eight();
    ByteLengthAtMost(v, 8);
  }

  /** The bytes `write_to_stream` emits: most significant first. */
  function BeBytes(v: nat): (r: seq<byte>)
    ensures |r| == ByteLength(v)
  {
    if v < 256 then [v] else BeBytes(v / 256) + [v % 256]
  }

  /** The decoder's `v = (v << 8) | b` over some bytes, on 64 bits: the low
      byte of the shifted value is zero, so `|` is `+`. */
  function BeValue(s: seq<byte>): (v: nat)
    ensures v < U64
  {
    if |s| == 0 then 0 else (BeValue(s[..|s| - 1]) * 256 + s[|s| - 1]) % U64
  }

  /** Reading the bytes back gives the value. */
  lemma {:induction false} BeRoundTrip(v: nat)
    requires v < U64
    ensures BeValue(BeBytes(v)) == v
  {
    if v >= 256 {
      var b := BeBytes(v);
      assert b[..|b| - 1] == BeBytes(v / 256);
      BeRoundTrip(v / 256);
      DivModUnique(v, U64, 0, v);
    }
  }

  /** Only zero starts with a zero byte. */
  lemma {:induction false} BeLeading(v: nat)
    ensures BeBytes(v)[0] == 0 <==> v == 0
  {
    if v >= 256 {
      BeLeading(v / 256);
      assert BeBytes(v)[0] == BeBytes(v / 256)[0];
    }
  }

  /** Byte `j` of the big-endian bytes is digit `n - 1 - j`. */
  lemma {:induction false} BeDigit(v: nat, j: nat)
    requires j < ByteLength(v)
    ensures BeBytes(v)[j] == Digit(v, ByteLength(v) - 1 - j)
  {
    var n := ByteLength(v);
    if v >= 256 && j < n - 1 {
      BeDigit(v / 256, j);
      var i := n - 1 - j;
      var p := Pow256(i - 1);
      assert Pow256(i) == 256 * p;
      var q, r := v / 256, v % 256;
      var q2, r2 := q / p, q % p;
      assert v == (256 * p) * q2 + (256 * r2 + r) by {
        assert q == p * q2 + r2;
      }
      MulMonotone(256, r2, p - 1);
      DivModUnique(v, 256 * p, q2, 256 * r2 + r);
    }
  }

  /** A byte at or above the length is zero. */
  lemma DigitHigh(v: nat, j: nat)
    requires j >= ByteLength(v)
    ensures Digit(v, j) == 0
  {
    ByteLengthFits(v);
    Pow256Monotone(ByteLength(v), j);
    DivModUnique(v, Pow256(j), 0, v);
  }

  /** The top byte of a non-zero value is not zero. */
  lemma DigitTop(v: nat)
    requires v > 0
    ensures Digit(v, ByteLength(v) - 1) != 0
  {
    var n := ByteLength(v);
    ByteLengthFits(v);
    var p := Pow256(n - 1);
    assert Pow256(n) == 256 * p;
    var q := v / p;
    DivAbove(v, p, 1);
    DivBelow(v, p, 256);
    DivModUnique(q, 256, 0, q);
  }

  /** The two shifts of the constructor keep byte `i`: `v << (56 - 8 i)`,
      cut to 64 bits, then `>> 56`. */
  lemma ShiftDigit(v: nat, i: nat)
    requires i < 8
    ensures ((v * Pow256(7 - i)) % U64) / Pow256(7) == Digit(v, i)
  {
    var a, p := Pow256(7 - i), Pow256(i);
    var b := 256 * p;
    assert Pow256(i + 1) == b;
    Pow256Add(7 - i, i + 1);
    Pow256Add(7 - i, i);
    Pow256Eight();
    assert U64 == a * b && Pow256(7) == a * p;
    ModMul(v, a, b);
    DivCancel(v % b, a, p);
    DivModSplit(v, p);
  }

  /** The constructor of `BitStream`: on a non-zero value, slot `i` of
      eight gets byte `i`, and the length runs up to the last non-zero slot;
      zero gets one byte. */
  method NewBitStream(value: nat) returns (byteLength: nat, bitStream: seq<nat>)
    requires value < U64
    ensures byteLength == ByteLength(value) && byteLength <= |bitStream|
    ensures forall i :: 0 <= i < byteLength ==> bitStream[i] == Digit(value, i)
  {
    if value == 0 {
      return 1, [0, 0];
    }
    bitStream := seq(8, _ => value);
    for i := 0 to 8
      invariant |bitStream| == 8
      invariant forall j :: 0 <= j < i ==> bitStream[j] == Digit(value, j)
      invariant forall j :: i <= j < 8 ==> bitStream[j] == value
    {
      var shift := (i + 1) * 8;
      ShiftDigit(value, i);
      // `<<= (64 - shift)` on 64 bits, then `>>= 56`
      bitStream := bitStream[i := ((bitStream[i] * Pow256(8 - (i + 1))) % U64) / Pow256(7)];
    }
    var i := 7;
    while i >= 0 && bitStream[i] == 0
      invariant -1 <= i <= 7
      invariant forall j :: i < j < 8 ==> bitStream[j] == 0
      decreases i + 1
    {
      i := i - 1;
    }
    var n := ByteLength(value);
    ByteLength64(value);
    DigitTop(value);
    if i + 1 > n {
      DigitHigh(value, i);
    }
    assert i + 1 == n;
    byteLength := i + 1;
  }

  /** A header byte and the value's bytes: `(parent << 4) | length`, the
      two fields not overlapping, then the bytes most significant first. */
  function NodeProperty(parent: nat, value: nat): seq<byte>
    requires parent < 16 && value < U64
  {
    ByteLength64(value);
    [16 * parent + ByteLength(value)] + BeBytes(value)
  }

  /** `extract_order`: the high nibble, and the low one by a left shift cut
      to a byte and a right shift. */
  function ExtractOrder(value: byte): (r: (nat, nat))
    ensures r.0 == value / 16 && r.1 == value % 16
    ensures r.0 < 16 && r.1 < 16
  {
    DivModUnique(16 * value, 256, value / 16, 16 * (value % 16));
    (value / 16, ((16 * value) % 256) / 16)
  }

  /** A header splits back into its group and its length. */
  lemma HeaderSplit(parent: nat, value: nat)
    requires parent < 16 && value < U64
    ensures NodeProperty(parent, value)[0] < 256
    ensures ExtractOrder(NodeProperty(parent, value)[0]) == (parent, ByteLength(value))
    ensures NodeProperty(parent, value)[1..] == BeBytes(value)
  {
    ByteLength64(value);
    DivModUnique(16 * parent + ByteLength(value), 16, parent, ByteLength(value));
  }

  /** `write_node_property`: the header, then `write_to_stream`, which
      pushes the length's slots from the highest down. */
  method WriteNodeProperty(stream: seq<byte>, parent: nat, value: nat) returns (out: seq<byte>)
    requires parent < 16 && value < U64
    ensures out == stream + NodeProperty(parent, value)
  {
    var byteLength, bitStream := NewBitStream(value);
    ByteLength64(value);
    out := stream + [16 * parent + byteLength];
    ghost var start := |out|;
    for i := byteLength downto 0
      invariant |out| == start + (byteLength - i)
      invariant out == stream + [16 * parent + byteLength] + BeBytes(value)[..byteLength - i]
    {
      BeDigit(value, byteLength - 1 - i);
      assert BeBytes(value)[..byteLength - i] == BeBytes(value)[..byteLength - 1 - i] + [bitStream[i]];
      out := out + [bitStream[i]];
    }
  }
}
