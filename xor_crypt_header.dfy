/** The header-only class `XorCrypt` of C++/xor-cryptor.hpp: the random-pad
    scheme over byte buffers, with its input checks and its `CipherData`
    result. A pointer with its length is an `Option` of a byte sequence,
    `None` being the null pointer; the pads drawn from `get<char>(0, 127)`
    are an input sequence. */
module XorCryptHeader {
  import opened Bits
  import opened Wrappers
  import opened Pad

  /** The result: the data (null on error), its length and the error. */
  datatype CipherData = CipherData(data: Option<seq<byte>>, n: nat, err: Option<string>)

  const TextOrKeyNull := "Text or key NULL"
  const KeyLonger := "Key length more than input length"
  const TextOrKeyShort := "Text length or Key length less than 6"
  const KeyShort := "Key length less than 6"

  /** A null pointer or a zero length. */
  predicate Missing(p: Option<seq<byte>>)
  {
    p.None? || |p.value| == 0
  }

  /** The checks of `encrypt_bytes`, in their order. */
  function EncryptCheck(text: Option<seq<byte>>, key: Option<seq<byte>>): (e: Option<string>)
    ensures e.None? <==> !Missing(text) && !Missing(key) && 6 <= |key.value| <= |text.value|
    ensures Missing(text) || Missing(key) ==> e == Some(TextOrKeyNull)
    ensures !Missing(text) && !Missing(key) && |key.value| > |text.value| ==> e == Some(KeyLonger)
  {
    if Missing(text) || Missing(key) then Some(TextOrKeyNull)
    else if |key.value| > |text.value| then Some(KeyLonger)
    else if |text.value| < 6 || |key.value| < 6 then Some(TextOrKeyShort)
    else None
  }

  /** The checks of `decrypt_bytes`: no comparison with the input length. */
  function DecryptCheck(input: Option<seq<byte>>, key: Option<seq<byte>>): (e: Option<string>)
    ensures e.None? <==> !Missing(input) && !Missing(key) && |key.value| >= 6
    ensures Missing(input) || Missing(key) ==> e == Some(TextOrKeyNull)
  {
    if Missing(input) || Missing(key) then Some(TextOrKeyNull)
    else if |key.value| < 6 then Some(KeyShort)
    else None
  }

  /** The loop of `encrypt_bytes`: pair `i` goes to `out[2 * i]` and
      `out[2 * i + 1]`, the key index `k` reset when it reaches the key
      length. */
  method SealInto(out: array<byte>, t: seq<byte>, kb: seq<byte>, pads: seq<byte>)
    requires |kb| > 0 && |pads| >= |t| && out.Length == 2 * |t| + 1
    modifies out
    ensures out[..2 * |t|] == Seal(t, kb, pads)
  {
    var tn, kn := |t|, |kb|;
    var k, idx := 0, 0;
    for i := 0 to tn
      invariant idx == 2 * i && 0 <= k <= kn && k % kn == i % kn
      invariant forall j :: 0 <= j < i ==>
                  out[2 * j] == Xor(Xor(t[j], kb[j % kn]), pads[j]) && out[2 * j + 1] == pads[j]
    {
      KeyIndexStep(k, i, kn);
      if k == kn {
        k := 0;
      }
      var c := pads[i];
      out[idx] := Xor8(Xor8(t[i], kb[k]), c);
      idx, k := idx + 1, k + 1;
      out[idx] := c;
      idx := idx + 1;
    }
    SealOf(out[..2 * tn], t, kb, pads);
  }

  /** `encrypt_bytes`: on success a buffer of `2 * tn + 1` bytes holding the
      sealed pairs and a NUL, with length `2 * tn`. */
  method EncryptBytes(text: Option<seq<byte>>, key: Option<seq<byte>>, pads: seq<byte>) returns (r: CipherData)
    requires text.Some? ==> |pads| >= |text.value|
    requires forall i :: 0 <= i < |pads| ==> pads[i] < 128
    ensures r.err == EncryptCheck(text, key)
    ensures r.err.Some? ==> r.data.None? && r.n == 0
    ensures r.err.None? ==> r.n == 2 * |text.value| && r.data == Some(Seal(text.value, key.value, pads) + [0])
    ensures r.err.None? ==> forall j :: 0 <= j < |text.value| ==> r.data.value[2 * j + 1] < 128
  {
    if Missing(text) || Missing(key) {
      return CipherData(None, 0, Some(TextOrKeyNull));
    }
    var t, kb := text.value, key.value;
    var tn, kn := |t|, |kb|;
    if kn > tn {
      return CipherData(None, 0, Some(KeyLonger));
    }
    if tn < 6 || kn < 6 {
      return CipherData(None, 0, Some(TextOrKeyShort));
    }
    var out := new byte[2 * tn + 1];
    SealInto(out, t, kb, pads);
    ghost var sealed := out[..2 * tn];
    out[2 * tn] := 0;
    assert out[..] == sealed + [0];
    forall j | 0 <= j < tn
      ensures out[..][2 * j + 1] < 128
    {
      SealAt(t, kb, pads, j);
    }
    r := CipherData(Some(out[..]), 2 * tn, None);
  }

  /** `decrypt_bytes`: on success a buffer of `tn / 2 + 1` bytes holding the
      opened pairs and a NUL, with length `tn / 2`; an odd last byte is
      ignored. */
  method DecryptBytes(input: Option<seq<byte>>, key: Option<seq<byte>>) returns (r: CipherData)
    ensures r.err == DecryptCheck(input, key)
    ensures r.err.Some? ==> r.data.None? && r.n == 0
    ensures r.err.None? ==> r.n == |input.value| / 2 && r.data == Some(Open(input.value, key.value) + [0])
  {
    if Missing(input) || Missing(key) {
      return CipherData(None, 0, Some(TextOrKeyNull));
    }
    var t, kb := input.value, key.value;
    var tn, kn := |t|, |kb|;
    if kn < 6 {
      return CipherData(None, 0, Some(KeyShort));
    }
    var out := new byte[tn / 2 + 1];
    var i, k, idx := 0, 0, 0;
    while i < tn - 1
      invariant i == 2 * idx && idx <= tn / 2 && 0 <= k <= kn && k % kn == idx % kn
      invariant forall j :: 0 <= j < idx ==> out[j] == Xor(Xor(t[2 * j], kb[j % kn]), t[2 * j + 1])
      decreases tn - i
    {
      KeyIndexStep(k, idx, kn);
      if k == kn {
        k := 0;
      }
      var encryptedByte, cipherByte := t[i], t[i + 1];
      out[idx] := Xor8(Xor8(encryptedByte, kb[k]), cipherByte);
      idx := idx + 1;
      i, k := i + 2, k + 1;
    }
    assert idx == tn / 2 by {
      DivModUnique(tn, 2, tn / 2, tn % 2);
    }
    out[tn / 2] := 0;
    forall j | 0 <= j < tn / 2
      ensures out[j] == Open(t, kb)[j]
    {
      OpenAt(t, kb, j);
    }
    assert out[..tn / 2] == Open(t, kb);
    assert out[..] == out[..tn / 2] + [0];
    r := CipherData(Some(out[..]), tn / 2, None);
  }

  /** Round trip: the first `n` bytes of an encryption pass the checks of
      decryption and decrypt to the text, whatever the pads. */
  lemma HeaderRoundTrip(text: seq<byte>, key: seq<byte>, pads: seq<byte>, sealed: seq<byte>)
    requires EncryptCheck(Some(text), Some(key)).None? && |pads| >= |text|
    requires sealed == Seal(text, key, pads)
    ensures DecryptCheck(Some(sealed), Some(key)).None?
    ensures Open(sealed, key) == text
  {
    SealOpen(text, key, pads);
  }
}
