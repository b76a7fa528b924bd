/** The `xorCrypt` namespace of C++/xor-cryptor.cpp: the same random-pad
    scheme over `std::string`, with letters as pads and the result written
    into a two-slot output array, slot 0 for the data and slot 1 for the
    error. The input checks and their messages are those of
    `XorCrypt::encrypt_bytes` and `decrypt_bytes`, an empty string taking the
    place of a null pointer. */
module XorCryptSource {
  import opened Bits
  import opened Wrappers
  import opened Pad
  import XorCryptHeader

  /** `NULL_STR` of C++/xor-cryptor.h: "!#-". */
  const NullStr: seq<byte> := [33, 35, 45]

  /** The bytes of an ASCII message. */
  function Bytes(s: string): (b: seq<byte>)
    ensures |b| == |s|
    ensures forall i :: 0 <= i < |s| && s[i] as int < 256 ==> b[i] == s[i] as int
  {
    seq(|s|, i requires 0 <= i < |s| => (s[i] as int) % 256)
  }

  const Alphabets := "abcdefghijklmnopqrstuvwxyz"

  /** `getRandChar` for the two draws it makes: a letter of `ALPHABETS`,
      turned upper-case by subtracting 32 when `cap` is 1. */
  function RandChar(index: nat, cap: nat): (c: nat)
    requires index < 26 && cap < 2
    ensures IsLetter(c)
    ensures cap == 1 <==> c <= 90
    ensures c == (if cap == 1 then 65 else 97) + index
  {
    var letter := Alphabets[index] as int;
    if cap == 1 then letter - 32 else letter
  }

  /** Every letter is drawn by exactly one pair of draws. */
  lemma RandCharLetters(c: nat)
    requires IsLetter(c)
    ensures c <= 90 ==> RandChar(c - 65, 1) == c
    ensures c > 90 ==> RandChar(c - 97, 0) == c
  {
  }

  /** `encrypt`: both slots start as `NULL_STR`; on an error slot 1 holds
      the message, otherwise slot 0 holds the sealed text and slot 1 keeps
      `NULL_STR`. */
  method Encrypt(text: seq<byte>, key: seq<byte>, pads: seq<byte>, output: array<seq<byte>>)
    requires output.Length == 2
    requires |pads| >= |text| && forall i :: 0 <= i < |pads| ==> IsLetter(pads[i])
    modifies output
    ensures var e := XorCryptHeader.EncryptCheck(Some(text), Some(key));
            if e.Some? then output[..] == [NullStr, Bytes(e.value)]
            else output[..] == [Seal(text, key, pads), NullStr]
  {
    output[0], output[1] := NullStr, NullStr;
    if |text| == 0 || |key| == 0 {
      output[1] := Bytes(XorCryptHeader.TextOrKeyNull);
      return;
    }
    if |key| > |text| {
      output[1] := Bytes(XorCryptHeader.KeyLonger);
      return;
    }
    if |text| < 6 || |key| < 6 {
      output[1] := Bytes(XorCryptHeader.TextOrKeyShort);
      return;
    }
    var enc := SealStream(text, key, pads);
    assert Pow2(8) == 256;
    SealBelow(text, key, pads, 8);
    output[0] := enc;
  }

  /** The pads sit at the odd positions of the sealed text, so they are
      letters there. */
  lemma SealedLetters(text: seq<byte>, key: seq<byte>, pads: seq<byte>, j: nat)
    requires |key| > 0 && |pads| >= |text| && j < |text|
    requires forall i :: 0 <= i < |pads| ==> IsLetter(pads[i])
    ensures IsLetter(Seal(text, key, pads)[2 * j + 1])
  {
    SealAt(text, key, pads, j);
  }

  /** `decrypt`: both slots start as `NULL_STR`; on an error slot 1 holds
      the message, otherwise slot 0 holds the opened input. */
  method Decrypt(input: seq<byte>, key: seq<byte>, output: array<seq<byte>>)
    requires output.Length == 2
    modifies output
    ensures var e := XorCryptHeader.DecryptCheck(Some(input), Some(key));
            if e.Some? then output[..] == [NullStr, Bytes(e.value)]
            else output[..] == [Open(input, key), NullStr]
  {
    output[0], output[1] := NullStr, NullStr;
    if |input| == 0 || |key| == 0 {
      output[1] := Bytes(XorCryptHeader.TextOrKeyNull);
      return;
    }
    if |key| < 6 {
      output[1] := Bytes(XorCryptHeader.KeyShort);
      return;
    }
    var dec := OpenStream(input, key);
    assert Pow2(8) == 256;
    OpenBelow(input, key, 8);
    output[0] := dec;
  }
}
