/** The Java port of the substitution cipher (Java/XORCryptor.java). It works
    on `int` arrays filled from Java strings, so buffer and key entries are
    UTF-16 code units rather than bytes; the arithmetic is the same as in
    module XorCryptor, whose functions serve as the specification. */
module JavaXorCryptor {
  import opened Bits
  import opened Wrappers
  import opened XorCryptor

  /** Every entry is a byte. */
  predicate IsBytes(s: seq<int>)
  {
    forall i :: 0 <= i < |s| ==> 0 <= s[i] < 256
  }

  /** Every entry is a `char`. */
  predicate IsChars(s: seq<int>)
  {
    forall i :: 0 <= i < |s| ==> 0 <= s[i] < 65536
  }

  /** The low byte of every entry (`x & 0xFF` of a non-negative `int`). */
  function LowBytes(s: seq<int>): (r: seq<byte>)
    ensures |r| == |s|
    ensures forall i :: 0 <= i < |s| ==> r[i] == s[i] % 256
  {
    seq(|s|, i requires 0 <= i < |s| => s[i] % 256)
  }

  /** On bytes, taking the low byte changes nothing. */
  lemma LowBytesOfBytes(s: seq<int>)
    requires IsBytes(s)
    ensures LowBytes(s) == s
  {
    forall i | 0 <= i < |s|
      ensures LowBytes(s)[i] == s[i]
    {
      DivModUnique(s[i], 256, 0, s[i]);
    }
  }

  /** The entries that are bytes, with every other entry replaced by 0. */
  function ByteView(s: seq<int>): (r: seq<byte>)
    ensures |r| == |s|
    ensures forall i :: 0 <= i < |s| && 0 <= s[i] < 256 ==> r[i] == s[i]
  {
    seq(|s|, i requires 0 <= i < |s| => if 0 <= s[i] < 256 then s[i] else 0)
  }

  /** On bytes, the byte view changes nothing. */
  lemma ByteViewOfBytes(s: seq<int>)
    requires IsBytes(s)
    ensures ByteView(s) == s
  {
  }

  // ---------------------------------------------------------------------------
  // Key mask
  // ---------------------------------------------------------------------------

  /** `generateXORMask(v)` for a `char` `v` with popcount `p`. The value
      `p | ((8 - p) << 4)` is `128 - 15 p`, negative when `p > 8`. Only the
      low byte of the result survives the final `& 0xFF`, and the low byte of
      `a ^ b` and of `a | b` depends only on the low bytes of `a` and `b`,
      which for an `int` in two's complement are its Euclidean remainder by
      256; `>> 4` is floor division by 16 and `(m << 4) & 0xF0` is
      `16 * (m mod 16)`. */
  function JavaMask(v: char16): (r: byte)
  {
    var p := Popcount(v);
    var m := p + 16 * (8 - p);
    var shifted := Or((m / 16) % 256, 16 * (m % 16));
    OrByte((m / 16) % 256, 16 * (m % 16));
    XorByte(m % 256, shifted);
    XorByte(Xor(m % 256, shifted), v % 256);
    Xor(Xor(m % 256, shifted), v % 256)
  }

  /** The folding of `generateXORMask` on the low byte, for a popcount of at
      most 8: the pad `17 * (p ^ (8 - p))` of the C++ `generate_mask`. */
  lemma JavaFold(p: nat, m: int)
    requires p <= 8 && m == p + 16 * (8 - p)
    ensures Xor(m % 256, Or((m / 16) % 256, 16 * (m % 16))) == 17 * Xor(p, 8 - p)
  {
    var q := 8 - p;
    var a, b, c := m % 256, (m / 16) % 256, 16 * (m % 16);
    DivModUnique(m, 16, q, p);
    DivModUnique(m, 256, 0, m);
    DivModUnique(q, 256, 0, q);
    var lo := 16 * p + q;
    assert Or(b, c) == lo by {
      assert b == q && c == 16 * p;
      assert Pow2(4) == 16;
      OrDisjoint(q, p, 4);
    }
    var hm := m / 16 + 16 * m;
    FoldPad(p, m, hm);
    assert Pow2(8) == 256;
    XorMod(m, hm, 8);
    DivModUnique(hm, 256, q, lo);
    assert Xor(a, lo) == 17 * Xor(p, q);
  }

  /** On byte values the Java mask is the C++ `generate_mask`: the `& 0xF0`
      and `& 0xFF` masks reproduce the C++ byte truncation. */
  lemma JavaMaskIsKeyMask(v: byte)
    ensures JavaMask(v) == KeyMask(v)
  {
    var p := Popcount(v);
    PopcountByte(v);
    var m := p + 16 * (8 - p);
    JavaFold(p, m);
    DivModUnique(v, 256, 0, v);
    XorComm(17 * PadNibble(v), v);
  }

  /** `generateXORMask`: a popcount loop, then the folding, cut to a byte. */
  method GenerateXorMask(v: char16) returns (r: byte)
    ensures r == JavaMask(v)
  {
    var mask: int, vt: nat := 0, v;
    while vt != 0
      invariant mask + Popcount(vt) == Popcount(v)
      decreases vt
    {
      mask := mask + vt % 2;
      vt := vt / 2;
    }
    // `mask |= (8 - mask) << 4`: the shifted value has a clear low nibble.
    mask := mask + 16 * (8 - mask);
    // `mask ^ ((mask >> 4) | ((mask << 4) & 0xF0))`, then `(mask ^ v) & 0xFF`,
    // computed on the low bytes.
    var high, low := (mask / 16) % 256, 16 * (mask % 16);
    OrByte(high, low);
    var shifted := Or(high, low);
    var m := mask % 256;
    XorByte(m, shifted);
    var folded := Xor(m, shifted);
    var w := v % 256;
    XorByte(folded, w);
    r := Xor(folded, w);
  }

  /** Every key entry replaced by its mask. */
  function JavaMasks(key: seq<char16>): (m: seq<byte>)
    ensures |m| == |key|
    ensures forall i :: 0 <= i < |key| ==> m[i] == JavaMask(key[i])
  {
    seq(|key|, i requires 0 <= i < |key| => JavaMask(key[i]))
  }

  /** A key of bytes gets the same masks in Java as in C++. */
  lemma JavaMasksAreKeyMasks(key: seq<byte>)
    ensures JavaMasks(key) == KeyMasks(key)
  {
    forall i | 0 <= i < |key|
      ensures JavaMasks(key)[i] == KeyMasks(key)[i]
    {
      JavaMaskIsKeyMask(key[i]);
    }
  }

  // ---------------------------------------------------------------------------
  // Table and cipher bytes
  // ---------------------------------------------------------------------------

  /** `generateCipherBytes`: replaces every key entry by its mask, then
      fills the table in the requested direction. */
  method GenerateCipherBytes(cipher: array<int>, table: array<int>, toEncrypt: bool)
    requires table.Length == 256 && cipher != table && IsChars(cipher[..])
    modifies cipher, table
    ensures cipher[..] == JavaMasks(old(cipher[..]))
    ensures table[..] == if toEncrypt then EncodeTable() else DecodeTable()
  {
    MaskKey(cipher);
    FillTable(table, toEncrypt);
  }

  /** The first loop of `generateCipherBytes`: every key entry is replaced
      by its mask. */
  method MaskKey(cipher: array<int>)
    requires IsChars(cipher[..])
    modifies cipher
    ensures cipher[..] == JavaMasks(old(cipher[..]))
  {
    ghost var key: seq<char16> := cipher[..];
    for i := 0 to cipher.Length
      invariant forall j :: 0 <= j < i ==> cipher[j] == JavaMask(key[j])
      invariant forall j :: i <= j < cipher.Length ==> cipher[j] == key[j]
    {
      var c: char16 := cipher[i];
      var m := GenerateXorMask(c);
      cipher[i] := m;
    }
    MasksOf(cipher[..], key);
  }

  /** A sequence that holds the mask of every key entry is `JavaMasks`. */
  lemma MasksOf(r: seq<int>, key: seq<char16>)
    requires |r| == |key| && forall j :: 0 <= j < |key| ==> r[j] == JavaMask(key[j])
    ensures r == JavaMasks(key)
  {
  }

  /** The second loop of `generateCipherBytes`: for every `i` it stores
      `table[i] = T(i)` when encrypting and `table[T(i)] = i` when
      decrypting, where `T` is the substitution. As `T` is a bijection, the
      decrypting direction fills every entry exactly once. */
  method FillTable(table: array<int>, toEncrypt: bool)
    requires table.Length == 256
    modifies table
    ensures table[..] == if toEncrypt then EncodeTable() else DecodeTable()
  {
    for i := 0 to 256
      invariant toEncrypt ==> forall j :: 0 <= j < i ==> table[j] == Classify(j)
      invariant !toEncrypt ==> forall w: byte :: w < i ==> table[Classify(w)] == w
    {
      var mask := ClassifyByte(i);
      if !toEncrypt {
        forall w: byte | w < i
          ensures Classify(w) != mask
        {
          ClassifyInjective(w, i);
        }
      }
      table[if toEncrypt then i else mask] := if toEncrypt then mask else i;
    }
    if toEncrypt {
      assert table[..] == EncodeTable();
    } else {
      forall j | 0 <= j < 256
        ensures table[j] == DecodeTable()[j]
      {
        ClassifyUnclassify(j);
        assert table[Classify(Unclassify(j))] == Unclassify(j);
      }
      assert table[..] == DecodeTable();
    }
  }

  // ---------------------------------------------------------------------------
  // The transform on int arrays
  // ---------------------------------------------------------------------------

  /** `encryptBytes`: the pair transform of `encrypt_bytes`, in place on an
      `int` array. `table[src[i]]` throws `ArrayIndexOutOfBoundsException` at
      the first entry that is not a byte; otherwise the buffer ends as the
      transform of its bytes. */
  method EncryptBytes(src: array<int>, cipher: array<int>, table: array<int>) returns (thrown: bool)
    requires table.Length == 256 && cipher.Length > 0
    requires src != table && src != cipher
    requires IsChars(src[..]) && IsBytes(cipher[..]) && IsBytes(table[..])
    modifies src
    ensures thrown <==> !IsBytes(old(src[..]))
    ensures !thrown ==> src[..] == Encrypt(old(src[..]), KeyStream(cipher[..], src.Length), table[..])
  {
    ghost var s0 := src[..];
    ghost var t: seq<byte> := table[..];
    ghost var k := KeyStream(cipher[..], src.Length);
    var n := src.Length;
    var mask, mode;
    thrown, mask, mode := EncryptPairs(src, cipher, table, t);
    if thrown {
      return;
    }
    ghost var s: seq<byte> := s0;
    if n % 2 == 1 {
      EncryptLast(src, cipher, table, mask, mode, s, k, t);
    }
    EncryptOf(src[..], s, k, t);
  }

  /** The loop of `encryptBytes`: it throws at the first entry that is not
      a byte; otherwise every complete pair is transformed and, for an odd
      length, the nibbles of the last substituted byte are left in `mask`
      and `mode`. */
  method EncryptPairs(src: array<int>, cipher: array<int>, table: array<int>, ghost t: seq<byte>)
    returns (thrown: bool, mask: byte, mode: byte)
    requires table.Length == 256 && cipher.Length > 0
    requires src != table && src != cipher
    requires IsChars(src[..]) && IsBytes(cipher[..]) && t == table[..]
    modifies src
    ensures thrown <==> !IsBytes(old(src[..]))
    ensures !thrown ==> var n, s, k := src.Length, old(src[..]), KeyStream(cipher[..], src.Length);
              forall j :: 0 <= j < n - n % 2 ==> src[j] == EncryptedAt(s, k, t, j)
    ensures !thrown ==> var n, s := src.Length, old(src[..]);
              n % 2 == 1 ==> src[n - 1] == s[n - 1] && mask == t[s[n - 1]] / 16
                             && mode == t[s[n - 1]] % 16
  {
    ghost var s0 := src[..];
    ghost var s := ByteView(s0);
    ghost var k := KeyStream(cipher[..], src.Length);
    var n := src.Length;
    mask, mode := 0, 0;
    var i := 0;
    ghost var done := 0;
    while i < n
      invariant 0 <= done <= i <= n && done == i - i % 2
      invariant forall j :: 0 <= j < i ==> s0[j] == s[j]
      invariant forall j :: 0 <= j < done ==> src[j] == EncryptedAt(s, k, t, j)
      invariant forall j :: done <= j < n ==> src[j] == s0[j]
      invariant i % 2 == 1 ==> mask == t[s[i - 1]] / 16 && mode == t[s[i - 1]] % 16
      invariant i % 2 == 0 ==> mask == 0 && mode == 0
    {
      var v := src[i];
      if v >= table.Length {
        assert !(0 <= s0[i] < 256);
        thrown := true;
        return;
      }
      if i % 2 == 1 {
        EncryptPair(src, cipher, table, i, mask, mode, s, k, t);
        mask, mode := 0, 0;
        done := i + 1;
      } else {
        var b := table[v];
        mask := mask + b / 16;
        mode := mode + b % 16;
      }
      NextParity(i);
      i := i + 1;
    }
    assert IsBytes(s0);
    ByteViewOfBytes(s0);
    thrown := false;
  }

  /** The odd step of `encryptBytes`, as in `encrypt_bytes`. */
  method EncryptPair(src: array<int>, cipher: array<int>, table: array<int>, i: nat,
                     mask: byte, mode: byte, ghost s: seq<byte>, ghost k: seq<byte>, ghost t: seq<byte>)
    requires table.Length == 256 && cipher.Length > 0 && src != table && src != cipher
    requires IsBytes(cipher[..]) && t == table[..]
    requires |s| == src.Length && k == KeyStream(cipher[..], |s|)
    requires i % 2 == 1 && i < |s| && src[i] == s[i]
    requires mask == t[s[i - 1]] / 16 && mode == t[s[i - 1]] % 16
    modifies src
    ensures src[i - 1] == EncryptedAt(s, k, t, i - 1)
    ensures src[i] == EncryptedAt(s, k, t, i)
    ensures forall j :: 0 <= j < src.Length && j != i - 1 && j != i ==> src[j] == old(src[j])
  {
    var b: byte := table[src[i]];
    var high := mask + 16 * (b / 16);
    var mixed := mode + 16 * (b % 16);
    mixed := Xor8(mixed, high);
    assert cipher[i % cipher.Length] == k[i] && cipher[(i - 1) % cipher.Length] == k[i - 1];
    EncryptPairStep(s, k, t, i, mask, mode, b, high, mixed,
                    cipher[(i - 1) % cipher.Length], cipher[i % cipher.Length]);
    src[i] := Xor8(mixed, cipher[i % cipher.Length]);
    src[i - 1] := Xor8(high, cipher[(i - 1) % cipher.Length]);
  }

  /** The unpaired last byte of `encryptBytes`, as in `encrypt_bytes`. */
  method EncryptLast(src: array<int>, cipher: array<int>, table: array<int>, mask: byte, mode: byte,
                     ghost s: seq<byte>, ghost k: seq<byte>, ghost t: seq<byte>)
    requires table.Length == 256 && cipher.Length > 0 && src != table && src != cipher
    requires IsBytes(cipher[..]) && t == table[..]
    requires |s| == src.Length && k == KeyStream(cipher[..], |s|)
    requires |s| % 2 == 1 && mask == t[s[|s| - 1]] / 16 && mode == t[s[|s| - 1]] % 16
    modifies src
    ensures src[|s| - 1] == EncryptedAt(s, k, t, |s| - 1)
    ensures forall j :: 0 <= j < |s| - 1 ==> src[j] == old(src[j])
  {
    var i := src.Length;
    XorNibble(mode, mask);
    var folded := Xor(mode, mask);
    var value := 16 * mask + folded;
    assert cipher[(i - 1) % cipher.Length] == k[i - 1];
    EncryptTailStep(s, k, t, i - 1, mask, mode, folded, cipher[(i - 1) % cipher.Length]);
    src[i - 1] := Xor8(value, cipher[(i - 1) % cipher.Length]);
  }

  /** The low byte of an exclusive or is the exclusive or of the low bytes. */
  lemma LowByteXor(a: nat, b: nat)
    ensures Xor(a, b) % 256 == Xor(a % 256, b % 256)
  {
    assert Pow2(8) == 256;
    XorMod(a, b, 8);
  }

  /** Unmasking an `int` entry `v` with a key byte `c` yields, in its low
      byte, the unmasked low byte of `v`. */
  lemma UnmaskLow(v: nat, c: byte, b: byte, m: nat, x: byte)
    requires v % 256 == b && m == Xor(v, c) && x == Xor8(b, c)
    ensures x == m % 256
  {
    LowByteXor(v, c);
    DivModUnique(c, 256, 0, c);
  }

  /** The two nibbles of the low byte of `z`. */
  lemma LowNibbles(z: nat)
    ensures z % 16 == (z % 256) % 16 && (z / 16) % 16 == (z % 256) / 16
  {
    var r := z % 256;
    var a, b, c := z / 256, r / 16, r % 16;
    DivModUnique(z, 16, 16 * a + b, c);
    DivModUnique(z / 16, 16, a, b);
  }

  /** The table indexes `decryptBytes` forms for a pair depend only on the
      low bytes `x` and `y` of its `int` values `mask` and `mode`. */
  lemma JavaPairIndices(mask: nat, mode: nat, x: byte, y: byte)
    requires x == mask % 256 && y == mode % 256
    ensures 16 * (mask % 16) + mode % 16 == FirstIndex(x, y)
    ensures 16 * ((mask / 16) % 16) + (mode / 16) % 16 == SecondIndex(x, y)
  {
    LowNibbles(mask);
    LowNibbles(mode);
  }

  /** The table index `decryptBytes` forms for the unpaired last byte depends
      only on the low byte `x` of its `int` value `v`. */
  lemma JavaTailIndex(v: nat, x: byte)
    requires x == v % 256
    ensures 16 * ((v / 16) % 16) + Xor(v % 16, v / 16) % 16 == OddIndex(x)
  {
    LowNibbles(v);
    assert Pow2(4) == 16;
    XorMod(v % 16, v / 16, 4);
    DivModUnique(v % 16, 16, 0, v % 16);
  }

  /** `decryptBytes`: the inverse transform, in place on an `int` array, with
      the write index `w` (the source's `k`) equal to the read index at the
      top of every iteration. Only the low byte of each entry takes part. */
  method DecryptBytes(src: array<int>, cipher: array<int>, table: array<int>)
    requires table.Length == 256 && cipher.Length > 0
    requires src != table && src != cipher
    requires IsChars(src[..]) && IsBytes(cipher[..]) && IsBytes(table[..])
    modifies src
    ensures src[..] == Decrypt(LowBytes(old(src[..])), KeyStream(cipher[..], src.Length), table[..])
  {
    ghost var s0 := src[..];
    ghost var s := LowBytes(s0);
    ghost var t: seq<byte> := table[..];
    ghost var k := KeyStream(cipher[..], src.Length);
    var n := src.Length;
    var odd := n % 2 == 1;
    var i, w := 0, 0;
    while i < n
      invariant 0 <= i <= n && w == i
      invariant i < n ==> i % 2 == 0
      invariant forall j :: 0 <= j < i ==> src[j] == DecryptedAt(s, k, t, j)
      invariant forall j :: i <= j < n ==> 0 <= src[j] && src[j] % 256 == s[j]
    {
      var v: nat, c: byte := src[i], cipher[i % cipher.Length];
      var mask: nat := Xor(v, c);
      var mode: nat;
      ghost var x := Xor8(s[i], k[i]);
      UnmaskLow(v, c, s[i], mask, x);
      if i == n - 1 && odd {
        mask, mode := SplitLast(table, mask, i, x, s, k, t);
      } else {
        PairFollows(i, n);
        i := i + 1;
        mask, mode := DecryptFirst(src, cipher, table, w, i, mask, x, s, k, t);
        w := w + 1;
      }
      ghost var d := DecryptedAt(s, k, t, i);
      src[w] := table[16 * (mask % 16) + mode % 16];
      assert src[i] == d;
      w := w + 1;
      i := i + 1;
    }
    DecryptOf(src[..], s, k, t);
  }

  /** The unpaired last byte of `decryptBytes`: the unmasked value `mask` is
      split into its high nibble and its low nibble XORed with the high one;
      the entry they index is the decrypted byte. */
  method SplitLast(table: array<int>, mask: nat, ghost j: nat, ghost x: byte,
                   ghost s: seq<byte>, ghost k: seq<byte>, ghost t: seq<byte>)
    returns (high: nat, mode: nat)
    requires table.Length == 256 && t == table[..]
    requires |k| == |s| && j % 2 == 0 && j + 1 == |s|
    requires x == Xor8(s[j], k[j]) && x == mask % 256
    ensures table[16 * (high % 16) + mode % 16] == DecryptedAt(s, k, t, j)
  {
    DecryptTailStep(s, k, t, j, x);
    JavaTailIndex(mask, x);
    mode := mask % 16;
    high := mask / 16;
    mode := Xor(mode, high);
  }

  /** The first half of a pair of `decryptBytes`: the second entry (at `i`)
      is unmasked and XORed with the unmasked first entry `mask`, the table
      entry indexed by their low nibbles is stored at `w`, and both values
      are shifted right by 4, so that their low nibbles now index the
      decrypted second byte. */
  method DecryptFirst(src: array<int>, cipher: array<int>, table: array<int>, w: nat, i: nat,
                      mask: nat, ghost x: byte, ghost s: seq<byte>, ghost k: seq<byte>,
                      ghost t: seq<byte>)
    returns (high: nat, mode: nat)
    requires table.Length == 256 && cipher.Length > 0 && src != table && src != cipher
    requires IsBytes(cipher[..]) && t == table[..]
    requires |s| == src.Length && k == KeyStream(cipher[..], |s|)
    requires w % 2 == 0 && i == w + 1 && i < |s| && 0 <= src[i] && src[i] % 256 == s[i]
    requires x == Xor8(s[w], k[w]) && x == mask % 256
    modifies src
    ensures src[w] == DecryptedAt(s, k, t, w)
    ensures table[16 * (high % 16) + mode % 16] == DecryptedAt(s, k, t, i)
    ensures forall j :: 0 <= j < src.Length && j != w ==> src[j] == old(src[j])
  {
    ghost var y := Xor8(Xor8(s[i], k[i]), x);
    DecryptPairStep(s, k, t, w, x, y);
    assert cipher[i % cipher.Length] == k[i];
    mode := Xor(src[i], cipher[i % cipher.Length]);
    ghost var m0 := mode;
    mode := Xor(mode, mask);
    assert y == mode % 256 by {
      UnmaskLow(src[i], k[i], s[i], m0, Xor8(s[i], k[i]));
      LowByteXor(m0, mask);
    }
    JavaPairIndices(mask, mode, x, y);
    src[w] := table[16 * (mask % 16) + mode % 16];
    high, mode := mask / 16, mode / 16;
  }

  // ---------------------------------------------------------------------------
  // processData, encrypt and decrypt
  // ---------------------------------------------------------------------------

  /** What `processData` hands back: `null`, an exception thrown from
      `encryptBytes`, or a string. */
  datatype Outcome = Null | Thrown | Text(chars: seq<char16>)

  /** `(char) j` of an `int`: its low 16 bits. */
  function CharCast(s: seq<int>): (r: seq<char16>)
    ensures |r| == |s|
    ensures forall i :: 0 <= i < |s| ==> r[i] == s[i] % 65536
  {
    seq(|s|, i requires 0 <= i < |s| => s[i] % 65536)
  }

  /** The result of `processData(input, key, toEncrypt)`, as a function of
      its arguments; `None` stands for a `null` string. */
  function ProcessResult(input: Option<seq<char16>>, key: Option<seq<char16>>, toEncrypt: bool): Outcome
  {
    if input.None? || |input.value| == 0 || key.None? || |key.value| < 6 then Null
    else
      var s, k := input.value, KeyStream(JavaMasks(key.value), |input.value|);
      if toEncrypt then
        if IsBytes(s) then Text(Encrypt(ByteView(s), k, EncodeTable())) else Thrown
      else Text(Decrypt(LowBytes(s), k, DecodeTable()))
  }

  /** `processData`: rejects a `null` or empty input and a `null` key or one
      shorter than 6, copies both strings into `int` arrays, builds the key
      masks and the table, transforms the buffer and reads it back as a
      string. */
  method ProcessData(input: Option<seq<char16>>, key: Option<seq<char16>>, toEncrypt: bool)
    returns (r: Outcome)
    ensures r == ProcessResult(input, key, toEncrypt)
  {
    if input.None? || |input.value| == 0 {
      return Null;
    }
    if key.None? || |key.value| < 6 {
      return Null;
    }
    ghost var s := input.value;
    var src := ToInts(input.value);
    var cipher := ToInts(key.value);
    var table := new int[256];
    GenerateCipherBytes(cipher, table, toEncrypt);
    ghost var k := KeyStream(cipher[..], src.Length);
    assert k == KeyStream(JavaMasks(key.value), |s|);
    ghost var e: seq<byte>;
    if toEncrypt {
      var thrown := EncryptBytes(src, cipher, table);
      if thrown {
        return Thrown;
      }
      ByteViewOfBytes(s);
      e := Encrypt(ByteView(s), k, EncodeTable());
    } else {
      DecryptBytes(src, cipher, table);
      e := Decrypt(LowBytes(s), k, DecodeTable());
    }
    assert src[..] == e;
    var out := ToChars(src);
    CharCastOfBytes(e);
    r := Text(out);
  }

  /** On bytes, the `char` cast changes nothing. */
  lemma CharCastOfBytes(s: seq<byte>)
    ensures CharCast(s) == s
  {
  }

  /** `new int[s.length()]` filled with `s.charAt(i)`. */
  method ToInts(s: seq<char16>) returns (a: array<int>)
    ensures fresh(a) && a[..] == s
  {
    a := new int[|s|];
    for i := 0 to |s|
      invariant forall j :: 0 <= j < i ==> a[j] == s[j]
    {
      a[i] := s[i];
    }
    assert a[..] == s;
  }

  /** The `StringBuilder` loop: every entry appended as `(char) j`. */
  method ToChars(a: array<int>) returns (sb: seq<char16>)
    ensures sb == CharCast(a[..])
  {
    sb := [];
    for j := 0 to a.Length
      invariant sb == CharCast(a[..j])
    {
      assert a[..j + 1] == a[..j] + [a[j]];
      sb := sb + [a[j] % 65536];
    }
    assert a[..] == a[..a.Length];
  }

  /** `encrypt(input, key)`. */
  method EncryptString(input: Option<seq<char16>>, key: Option<seq<char16>>) returns (r: Outcome)
    ensures r == ProcessResult(input, key, true)
  {
    r := ProcessData(input, key, true);
  }

  /** `decrypt(input, key)`. */
  method DecryptString(input: Option<seq<char16>>, key: Option<seq<char16>>) returns (r: Outcome)
    ensures r == ProcessResult(input, key, false)
  {
    r := ProcessData(input, key, false);
  }

  // ---------------------------------------------------------------------------
  // Properties of processData
  // ---------------------------------------------------------------------------

  /** `processData` returns `null` exactly for a `null` or empty input or a
      `null` key or one shorter than 6 characters. */
  lemma ProcessNull(input: Option<seq<char16>>, key: Option<seq<char16>>, toEncrypt: bool)
    ensures ProcessResult(input, key, toEncrypt) == Null <==>
            input.None? || |input.value| == 0 || key.None? || |key.value| < 6
  {
  }

  /** Encryption throws exactly when the arguments are accepted and some
      input character is not a byte. */
  lemma EncryptThrows(input: Option<seq<char16>>, key: Option<seq<char16>>)
    ensures ProcessResult(input, key, true) == Thrown <==>
            input.Some? && |input.value| > 0 && key.Some? && |key.value| >= 6
            && exists i :: 0 <= i < |input.value| && input.value[i] >= 256
  {
  }

  /** A returned string has the length of the input, and every character
      of it is a byte. */
  lemma ProcessText(input: Option<seq<char16>>, key: Option<seq<char16>>, toEncrypt: bool)
    requires ProcessResult(input, key, toEncrypt).Text?
    ensures var out := ProcessResult(input, key, toEncrypt).chars;
            input.Some? && |out| == |input.value| && IsBytes(out)
  {
  }

  /** On a byte input and a byte key, Java encryption is the C++ transform
      under the C++ key masks. */
  lemma JavaEncryptIsCpp(s: seq<byte>, key: seq<byte>)
    requires |s| > 0 && |key| >= 6
    ensures ProcessResult(Some(s), Some(key), true)
            == Text(Encrypt(s, KeyStream(KeyMasks(key), |s|), EncodeTable()))
  {
    JavaMasksAreKeyMasks(key);
    ByteViewOfBytes(s);
  }

  /** Round trip: decrypting the encryption of a non-empty string of byte
      characters under a key of at least 6 characters restores it. */
  lemma ProcessRoundTrip(s: seq<char16>, key: seq<char16>)
    requires |s| > 0 && IsBytes(s) && |key| >= 6
    ensures ProcessResult(Some(s), Some(key), true).Text?
    ensures ProcessResult(Some(ProcessResult(Some(s), Some(key), true).chars), Some(key), false)
            == Text(s)
  {
    var m := JavaMasks(key);
    var k := KeyStream(m, |s|);
    var b := ByteView(s);
    ByteViewOfBytes(s);
    var e := Encrypt(b, k, EncodeTable());
    assert ProcessResult(Some(s), Some(key), true) == Text(e);
    LowBytesOfBytes(e);
    RoundTrip(b, m);
  }
}
