/** Bit-level operations on unbounded naturals. Bytes, 16-bit code units and
    machine words are naturals below a power of two. With constant operands,
    `x >> k` is `x / 2^k`, `x & (2^k - 1)` is `x % 2^k`, `x << k` is
    `x * 2^k`, and `|` of two values with disjoint bits is `+`; exclusive or
    is defined here bit by bit. */
module Bits {

  /** A value that fits in 8 bits. */
  type byte = x: int | 0 <= x < 256

  /** A UTF-16 code unit: a Java `char` or an element of a JavaScript
      string. */
  type char16 = x: int | 0 <= x < 65536

  /** `2^k`. */
  function Pow2(k: nat): (p: nat)
    ensures p >= 1
  {
    if k == 0 then 1 else 2 * Pow2(k - 1)
  }

  /** Exclusive or of two bits. */
  function BitXor(p: nat, q: nat): nat
  {
    if p == q then 0 else 1
  }

  /** Bitwise exclusive or: bit `i` of the result is set iff exactly one of
      bit `i` of `a` and bit `i` of `b` is set. */
  function Xor(a: nat, b: nat): nat
    decreases a + b
  {
    if a == 0 && b == 0 then 0 else 2 * Xor(a / 2, b / 2) + BitXor(a % 2, b % 2)
  }

  /** The halves of an exclusive or: its quotient and remainder by 2. */
  lemma XorHalves(a: nat, b: nat)
    ensures Xor(a, b) / 2 == Xor(a / 2, b / 2)
    ensures Xor(a, b) % 2 == BitXor(a % 2, b % 2)
  {
  }

  /** Zero is the identity. */
  lemma {:induction false} XorZero(a: nat)
    ensures Xor(a, 0) == a && Xor(0, a) == a
    decreases a
  {
    if a != 0 {
      XorZero(a / 2);
    }
  }

  /** Exclusive or is commutative. */
  lemma {:induction false} XorComm(a: nat, b: nat)
    ensures Xor(a, b) == Xor(b, a)
    decreases a + b
  {
    if a != 0 || b != 0 {
      XorComm(a / 2, b / 2);
    }
  }

  /** A value XORed with itself is 0. */
  lemma {:induction false} XorSelf(a: nat)
    ensures Xor(a, a) == 0
    decreases a
  {
    if a != 0 {
      XorSelf(a / 2);
    }
  }

  /** Exclusive or with the same value twice restores the value. */
  lemma {:induction false} XorCancel(a: nat, b: nat)
    ensures Xor(Xor(a, b), b) == a
    decreases a + b
  {
    if a != 0 || b != 0 {
      var c := Xor(a, b);
      assert c / 2 == Xor(a / 2, b / 2) && c % 2 == BitXor(a % 2, b % 2) by {
        XorHalves(a, b);
      }
      assert Xor(c / 2, b / 2) == a / 2 by {
        XorCancel(a / 2, b / 2);
      }
    }
  }

  /** Exclusive or is associative. */
  lemma {:induction false} XorAssoc(a: nat, b: nat, c: nat)
    ensures Xor(Xor(a, b), c) == Xor(a, Xor(b, c))
    decreases a + b + c
  {
    if a != 0 || b != 0 || c != 0 {
      var ab, bc := Xor(a, b), Xor(b, c);
      assert ab / 2 == Xor(a / 2, b / 2) && ab % 2 == BitXor(a % 2, b % 2) by {
        XorHalves(a, b);
      }
      assert bc / 2 == Xor(b / 2, c / 2) && bc % 2 == BitXor(b % 2, c % 2) by {
        XorHalves(b, c);
      }
      assert Xor(ab / 2, c / 2) == Xor(a / 2, bc / 2) by {
        XorAssoc(a / 2, b / 2, c / 2);
      }
    }
  }

  /** Removing a two-part pad: `(a ^ b) ^ c` XORed with `b` is `a ^ c`, and
      XORed with `b` and then `c` it is `a`. */
  lemma XorCancel2(a: nat, b: nat, c: nat)
    ensures Xor(Xor(Xor(a, b), c), b) == Xor(a, c)
    ensures Xor(Xor(Xor(Xor(a, b), c), b), c) == a
  {
    calc {
      Xor(Xor(Xor(a, b), c), b);
      { XorAssoc(a, b, c); }
      Xor(Xor(a, Xor(b, c)), b);
      { XorComm(b, c); }
      Xor(Xor(a, Xor(c, b)), b);
      { XorAssoc(a, c, b); }
      Xor(Xor(Xor(a, c), b), b);
      { XorCancel(Xor(a, c), b); }
      Xor(a, c);
    }
    XorCancel(a, c);
  }

  /** Exclusive or of two `k`-bit values is a `k`-bit value. */
  lemma {:induction false} XorBound(a: nat, b: nat, k: nat)
    requires a < Pow2(k) && b < Pow2(k)
    ensures Xor(a, b) < Pow2(k)
  {
    if k > 0 {
      XorBound(a / 2, b / 2, k - 1);
    }
  }

  /** Exclusive or of two bytes is a byte. */
  lemma XorByte(a: nat, b: nat)
    requires a < 256 && b < 256
    ensures Xor(a, b) < 256
  {
    assert Pow2(8) == 256;
    XorBound(a, b, 8);
  }

  /** `2^16`, the bound of a code unit. */
  lemma Pow2Sixteen()
    ensures Pow2(16) == 65536
  {
    assert Pow2(8) == 256;
    assert Pow2(12) == 16 * Pow2(8);
    assert Pow2(16) == 16 * Pow2(12);
  }

  /** Exclusive or of two nibbles is a nibble. */
  lemma XorNibble(a: nat, b: nat)
    requires a < 16 && b < 16
    ensures Xor(a, b) < 16
  {
    assert Pow2(4) == 16;
    XorBound(a, b, 4);
  }

  /** A multiple of a positive `d` strictly between `-d` and `d` is 0. */
  lemma MulZero(d: int, z: int)
    requires d > 0 && -d < d * z < d
    ensures z == 0
  {
    if z >= 1 {
      assert d * z == d + d * (z - 1);
      MulNonNegative(d, z - 1);
    }
  }

  /** A product of non-negative factors is non-negative. */
  lemma MulNonNegative(d: int, z: int)
    requires d > 0 && z >= 0
    ensures d * z >= 0
  {
  }

  /** Quotient and remainder are determined by the division equation. */
  lemma DivModUnique(a: int, d: int, q: int, r: int)
    requires d > 0 && a == d * q + r && 0 <= r < d
    ensures a / d == q && a % d == r
  {
    var q', r' := a / d, a % d;
    assert d * (q' - q) == r - r';
    MulZero(d, q' - q);
  }

  /** The key index after one more step: from `j` with `j % c == d % c`,
      resetting at `c` and incrementing gives a value that agrees with
      `d + 1` modulo `c`. */
  lemma KeyIndexStep(j: nat, d: nat, c: nat)
    requires 0 < c && j <= c && j % c == d % c
    ensures var j' := if j == c then 0 else j;
            j' < c && j' == d % c && (j' + 1) % c == (d + 1) % c
  {
    var j' := if j == c then 0 else j;
    DivModUnique(j, c, if j == c then 1 else 0, j');
    var q := d / c;
    assert d == c * q + j';
    if j' + 1 < c {
      DivModUnique(d + 1, c, q, j' + 1);
      DivModUnique(j' + 1, c, 0, j' + 1);
    } else {
      DivModUnique(d + 1, c, q + 1, 0);
      DivModUnique(j' + 1, c, 1, 0);
    }
  }

  /** Halving commutes with dividing by, and taking the remainder of, a
      positive `q`. */
  lemma HalfDivMod(a: nat, q: nat)
    requires q >= 1
    ensures (a / 2) / q == a / (2 * q)
    ensures (a % (2 * q)) / 2 == (a / 2) % q
    ensures (a % (2 * q)) % 2 == a % 2
  {
    var h := a / 2;
    var d, e := h / q, h % q;
    assert h == q * d + e;
    assert a == (2 * q) * d + (2 * e + a % 2);
    DivModUnique(a, 2 * q, d, 2 * e + a % 2);
  }

  /** `x >> k`, as `k` halvings. */
  function Shr(x: nat, k: nat): nat
  {
    if k == 0 then x else Shr(x / 2, k - 1)
  }

  /** `k` halvings divide by `2^k`. */
  lemma {:induction false} ShrDiv(x: nat, k: nat)
    ensures Shr(x, k) == x / Pow2(k)
  {
    if k > 0 {
      ShrDiv(x / 2, k - 1);
      HalfDivMod(x, Pow2(k - 1));
    }
  }

  /** Exclusive or commutes with `>> k`. */
  lemma {:induction false} XorShr(a: nat, b: nat, k: nat)
    ensures Shr(Xor(a, b), k) == Xor(Shr(a, k), Shr(b, k))
  {
    if k > 0 {
      XorHalves(a, b);
      XorShr(a / 2, b / 2, k - 1);
    }
  }

  /** Exclusive or commutes with keeping the low `k` bits. */
  lemma {:induction false} XorMod(a: nat, b: nat, k: nat)
    ensures var p := Pow2(k); Xor(a, b) % p == Xor(a % p, b % p)
  {
    if k > 0 {
      var q, p := Pow2(k - 1), Pow2(k);
      assert p == 2 * q;
      var x := Xor(a, b);
      assert x % p == 2 * Xor((a / 2) % q, (b / 2) % q) + BitXor(a % 2, b % 2) by {
        HalfDivMod(x, q);
        XorHalves(a, b);
        XorMod(a / 2, b / 2, k - 1);
        assert x % p == 2 * ((x % p) / 2) + (x % p) % 2;
      }
      assert Xor(a % p, b % p) == 2 * Xor((a / 2) % q, (b / 2) % q) + BitXor(a % 2, b % 2) by {
        HalfDivMod(a, q);
        HalfDivMod(b, q);
        XorHalves(a % p, b % p);
      }
    }
  }

  /** The nibble split of an exclusive or. */
  lemma XorNibbles(a: nat, b: nat)
    ensures Xor(a, b) / 16 == Xor(a / 16, b / 16)
    ensures Xor(a, b) % 16 == Xor(a % 16, b % 16)
  {
    assert Pow2(4) == 16;
    ShrDiv(a, 4);
    ShrDiv(b, 4);
    ShrDiv(Xor(a, b), 4);
    XorShr(a, b, 4);
    XorMod(a, b, 4);
  }

  /** Exclusive or of two bytes, as a byte. */
  function Xor8(a: byte, b: byte): byte
  {
    XorByte(a, b);
    Xor(a, b)
  }

  /** Inclusive or of two bits. */
  function BitOr(p: nat, q: nat): nat
  {
    if p == 1 || q == 1 then 1 else 0
  }

  /** Bitwise inclusive or. */
  function Or(a: nat, b: nat): nat
    decreases a + b
  {
    if a == 0 && b == 0 then 0 else 2 * Or(a / 2, b / 2) + BitOr(a % 2, b % 2)
  }

  /** Zero is the identity of inclusive or. */
  lemma {:induction false} OrZero(a: nat)
    ensures Or(0, a) == a
    decreases a
  {
    if a != 0 {
      OrZero(a / 2);
    }
  }

  /** A value below `2^k` and a multiple of `2^k` have no bit in common, so
      their inclusive or is their sum. */
  lemma {:induction false} OrDisjoint(l: nat, h: nat, k: nat)
    requires l < Pow2(k)
    ensures Or(l, Pow2(k) * h) == Pow2(k) * h + l
  {
    if k == 0 {
      OrZero(h);
    } else {
      var q := Pow2(k - 1);
      var b := Pow2(k) * h;
      assert b == 2 * (q * h);
      assert b / 2 == q * h && b % 2 == 0;
      OrDisjoint(l / 2, h, k - 1);
    }
  }

  /** Inclusive or of two `k`-bit values is a `k`-bit value. */
  lemma {:induction false} OrBound(a: nat, b: nat, k: nat)
    requires a < Pow2(k) && b < Pow2(k)
    ensures Or(a, b) < Pow2(k)
  {
    if k > 0 {
      OrBound(a / 2, b / 2, k - 1);
    }
  }

  /** Inclusive or of two bytes is a byte. */
  lemma OrByte(a: nat, b: nat)
    requires a < 256 && b < 256
    ensures Or(a, b) < 256
  {
    assert Pow2(8) == 256;
    OrBound(a, b, 8);
  }

  /** The high and the low nibble of `16 * h + l`. */
  lemma Nibbles(h: nat, l: nat)
    requires l < 16
    ensures (16 * h + l) / 16 == h && (16 * h + l) % 16 == l
  {
    DivModUnique(16 * h + l, 16, h, l);
  }

  /** Two sequences that agree everywhere are equal. */
  lemma SeqExt<T>(a: seq<T>, b: seq<T>)
    requires |a| == |b| && forall i :: 0 <= i < |a| ==> a[i] == b[i]
    ensures a == b
  {
  }
}
