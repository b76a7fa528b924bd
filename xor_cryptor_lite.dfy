/** The lite cipher of xor_cryptor_lite.cpp: every byte is XORed with the
    mask of the key byte at its position, the key repeating. Its
    `generate_mask` is the same code as the one of xor_cryptor.cpp and is
    modelled by `XorCryptor.GenerateMask`. Strings are sequences of bytes
    (`char` and `unsigned char` convert both ways without loss). */
module XorCryptorLite {
  import opened Bits
  import opened XorCryptor

  /** The transform of positions `start ..` of `s`, the key index starting
      at 0 there: byte `i` is XORed with the mask of key byte
      `(i - start) % |key|`; bytes before `start` are kept. */
  function Processed(s: seq<byte>, key: seq<byte>, start: nat): (r: seq<byte>)
    requires |key| > 0
    ensures |r| == |s|
  {
    seq(|s|, i requires 0 <= i < |s| =>
      if i < start then s[i] else Xor8(s[i], KeyMask(key[(i - start) % |key|])))
  }

  /** The transform is an involution: applying it twice with the same key
      and start restores the buffer, so decryption is the same operation. */
  lemma ProcessedInvolution(s: seq<byte>, key: seq<byte>, start: nat)
    requires |key| > 0
    ensures Processed(Processed(s, key, start), key, start) == s
  {
    var r := Processed(Processed(s, key, start), key, start);
    forall i | 0 <= i < |s|
      ensures r[i] == s[i]
    {
      if i >= start {
        XorCancel(s[i], KeyMask(key[(i - start) % |key|]));
      }
    }
  }

  /** `process_bytes`: the loop runs the iterator `*itr` from its value
      `start` up to the length, resetting the key index to 0 when it reaches
      the key length, and XORs each byte with the mask of the key byte at the
      key index. The iterator ends at the length (or stays at `start` when
      that is past the end). An empty key is read out of bounds as soon as
      one byte is processed, hence the precondition. */
  method ProcessBytes(src: array<byte>, cipher: array<byte>, start: nat) returns (itr: nat)
    requires start < src.Length ==> cipher.Length > 0
    requires src != cipher
    modifies src
    ensures itr == if start < src.Length then src.Length else start
    ensures cipher.Length > 0 ==> src[..] == Processed(old(src[..]), cipher[..], start)
    ensures cipher.Length == 0 ==> src[..] == old(src[..])
  {
    ghost var s := src[..];
    var keyIdx := 0;
    itr := start;
    if src.Length <= start {
      return;
    }
    ghost var c := cipher.Length;
    while itr < src.Length
      invariant start <= itr <= src.Length && keyIdx <= c
      invariant keyIdx % c == (itr - start) % c
      invariant forall i :: 0 <= i < src.Length && !(start <= i < itr) ==> src[i] == s[i]
      invariant forall i :: start <= i < itr ==> src[i] == Xor8(s[i], KeyMask(cipher[(i - start) % c]))
    {
      KeyIndexStep(keyIdx, itr - start, c);
      if keyIdx == cipher.Length {
        keyIdx := 0;
      }
      var k := cipher[keyIdx];
      keyIdx := keyIdx + 1;
      var kMask := GenerateMask(k);
      var b := src[itr];
      src[itr] := Xor8(b, kMask);
      itr := itr + 1;
    }
    ProcessedOf(src[..], s, cipher[..], start);
  }

  /** A buffer that agrees with the transform at every position is it. */
  lemma ProcessedOf(r: seq<byte>, s: seq<byte>, key: seq<byte>, start: nat)
    requires |key| > 0 && |r| == |s|
    requires forall i :: 0 <= i < |s| && i < start ==> r[i] == s[i]
    requires forall i :: start <= i < |s| ==> r[i] == Xor8(s[i], KeyMask(key[(i - start) % |key|]))
    ensures r == Processed(s, key, start)
  {
  }

  /** `encrypt_string` (and `decrypt_string`, lines 121-133, which is the
      same code): copies the string and the key into byte arrays, runs
      `process_bytes` from 0 and appends the result to `dest`. */
  method ProcessString(str: seq<byte>, key: seq<byte>, dest: seq<byte>) returns (out: seq<byte>)
    requires |str| > 0 ==> |key| > 0
    ensures |key| > 0 ==> out == dest + Processed(str, key, 0)
    ensures |key| == 0 ==> out == dest
  {
    var input := new byte[|str|](i requires 0 <= i < |str| => str[i]);
    var cipherKey := new byte[|key|](i requires 0 <= i < |key| => key[i]);
    assert input[..] == str && cipherKey[..] == key;
    var itr := ProcessBytes(input, cipherKey, 0);
    out := dest;
    for i := 0 to |str|
      invariant out == dest + input[..i]
    {
      assert input[..i + 1] == input[..i] + [input[i]];
      out := out + [input[i]];
    }
    assert input[..] == input[..|str|];
  }
}
