/** The random-pad `XORCryptor` of
    Java/com/beesechurger/shank03/XORCryptor.java. Encryption either XORs
    the text with the repeating key or, when randomized, writes the flag
    "RANDOMIZED" followed by the sealed pairs; decryption recognises the
    flag and undoes whichever was done. The result reaches the caller
    through a listener from a worker thread: `Called(data, err)` is the one
    call of `onResult`, `NotCalled` a thread that died before making it. */
module JavaPadCryptor {
  import opened Bits
  import opened Wrappers
  import opened Pad

  datatype Callback = Called(data: Option<seq<byte>>, err: Option<string>) | NotCalled

  const TextOrKeyNull := "Text or Key NULL"
  const KeyLonger := "Key length more than input length"
  const TextShort := "Text length less than 6"
  const KeyShort := "Key length less than 6"

  /** `RANDOM_FLAG`: the bytes of "RANDOMIZED". */
  const Flag: seq<byte> := [82, 65, 78, 68, 79, 77, 73, 90, 69, 68]

  /** The input starts with the flag. */
  predicate Flagged(data: seq<nat>)
  {
    |data| >= |Flag| && data[..|Flag|] == Flag
  }

  /** The text XORed with the repeating key: the non-randomized mode. */
  function KeyXor(s: seq<nat>, key: seq<nat>): (r: seq<nat>)
    requires |key| > 0
    ensures |r| == |s|
  {
    seq(|s|, i requires 0 <= i < |s| => Xor(s[i], key[i % |key|]))
  }

  /** XORing with the key twice gives the input back. */
  lemma KeyXorTwice(s: seq<nat>, key: seq<nat>)
    requires |key| > 0
    ensures KeyXor(KeyXor(s, key), key) == s
  {
    forall i | 0 <= i < |s|
      ensures KeyXor(KeyXor(s, key), key)[i] == s[i]
    {
      XorCancel(s[i], key[i % |key|]);
    }
  }

  /** The checks of `encrypt`, in their order. The message for a short text
      or key only speaks of the text. */
  function EncryptCheck(text: Option<seq<byte>>, key: Option<seq<byte>>): (e: Option<string>)
    ensures e.None? <==> text.Some? && key.Some? && 6 <= |key.value| <= |text.value|
    ensures text.None? || key.None? ==> e == Some(TextOrKeyNull)
    ensures text.Some? && key.Some? && |key.value| > |text.value| ==> e == Some(KeyLonger)
  {
    if text.None? || key.None? then Some(TextOrKeyNull)
    else if |key.value| > |text.value| then Some(KeyLonger)
    else if |text.value| < 6 || |key.value| < 6 then Some(TextShort)
    else None
  }

  /** The checks of `decrypt`: no comparison with the input length, and an
      empty input is accepted. */
  function DecryptCheck(input: Option<seq<byte>>, key: Option<seq<byte>>): (e: Option<string>)
    ensures e.None? <==> input.Some? && key.Some? && |key.value| >= 6
    ensures input.None? || key.None? ==> e == Some(TextOrKeyNull)
  {
    if input.None? || key.None? then Some(TextOrKeyNull)
    else if |key.value| < 6 then Some(KeyShort)
    else None
  }

  /** What an accepted encryption delivers. */
  function Encrypted(text: seq<nat>, key: seq<nat>, randomized: bool, pads: seq<nat>): (r: seq<nat>)
    requires |key| > 0 && |pads| >= |text|
    ensures |r| == if randomized then 2 * |text| + |Flag| else |text|
  {
    if randomized then Flag + Seal(text, key, pads) else KeyXor(text, key)
  }

  /** What an accepted decryption delivers when the thread survives: a
      flagged input is opened after the flag, any other is XORed with the
      key again. */
  function Decrypted(input: seq<nat>, key: seq<nat>): (r: seq<nat>)
    requires |key| > 0
    ensures |r| == if Flagged(input) then (|input| - |Flag|) / 2 else |input|
  {
    if Flagged(input) then Open(input[|Flag|..], key) else KeyXor(input, key)
  }

  /** `handleRandomized`: drops the flag when the first ten bytes all match
      it, and otherwise returns the input, a shorter one included. */
  method HandleRandomized(data: seq<byte>) returns (r: seq<byte>)
    ensures Flagged(data) ==> r == data[|Flag|..]
    ensures !Flagged(data) ==> r == data
  {
    if |data| < |Flag| {
      return data;
    }
    var flagCount := 0;
    for i := 0 to |Flag|
      invariant 0 <= flagCount <= i
      invariant flagCount == i <==> data[..i] == Flag[..i]
    {
      assert data[..i + 1] == data[..i] + [data[i]] && Flag[..i + 1] == Flag[..i] + [Flag[i]];
      if data[i] == Flag[i] {
        flagCount := flagCount + 1;
      }
    }
    assert Flag[..|Flag|] == Flag;
    r := if flagCount == |Flag| then data[|Flag|..] else data;
  }

  /** `encrypt`: the checks, then the output buffer of `2n + 10` or `n`
      bytes filled by the worker thread; a pad is drawn for every byte,
      and used only when randomized. */
  method Encrypt(text: Option<seq<byte>>, key: Option<seq<byte>>, randomized: bool, pads: seq<byte>)
      returns (r: Callback)
    requires text.Some? ==> |pads| >= |text.value|
    requires forall i :: 0 <= i < |pads| ==> pads[i] < 128
    ensures r.Called? && (r.data.Some? <==> r.err.None?)
    ensures r.err == EncryptCheck(text, key)
    ensures r.err.None? ==> r.data == Some(Encrypted(text.value, key.value, randomized, pads))
  {
    if text.None? || key.None? {
      return Called(None, Some(TextOrKeyNull));
    }
    var t, kb := text.value, key.value;
    if |kb| > |t| {
      return Called(None, Some(KeyLonger));
    }
    if |t| < 6 || |kb| < 6 {
      return Called(None, Some(TextShort));
    }
    var out := new byte[if randomized then 2 * |t| + |Flag| else |t|];
    var oIndex := 0;
    if randomized {
      for i := 0 to |Flag|
        invariant oIndex == i && forall j :: 0 <= j < i ==> out[j] == Flag[j]
      {
        out[i] := Flag[i];
        oIndex := oIndex + 1;
      }
    }
    if randomized {
      FillSealed(t, kb, pads, out);
      assert out[..] == Flag + out[|Flag|..];
      SealOf(out[|Flag|..], t, kb, pads);
    } else {
      FillKeyXor(t, kb, out);
    }
    r := Called(Some(out[..]), None);
  }

  /** The text loop of `encrypt` when randomized, after the flag. */
  method FillSealed(t: seq<byte>, kb: seq<byte>, pads: seq<byte>, out: array<byte>)
    requires |kb| > 0 && |pads| >= |t| && out.Length == 2 * |t| + |Flag|
    modifies out
    ensures forall j :: 0 <= j < |Flag| ==> out[j] == old(out[j])
    ensures forall j :: 0 <= j < |t| ==>
              out[|Flag| + 2 * j] == Xor(Xor(t[j], kb[j % |kb|]), pads[j]) && out[|Flag| + 2 * j + 1] == pads[j]
  {
    var k, oIndex := 0, |Flag|;
    for i := 0 to |t|
      invariant oIndex == |Flag| + 2 * i && 0 <= k <= |kb| && k % |kb| == i % |kb|
      invariant forall j :: 0 <= j < |Flag| ==> out[j] == old(out[j])
      invariant forall j :: 0 <= j < i ==>
                  out[|Flag| + 2 * j] == Xor(Xor(t[j], kb[j % |kb|]), pads[j]) && out[|Flag| + 2 * j + 1] == pads[j]
    {
      KeyIndexStep(k, i, |kb|);
      if k == |kb| {
        k := 0;
      }
      var c := pads[i];
      out[oIndex] := Xor8(Xor8(t[i], kb[k]), c);
      oIndex := oIndex + 1;
      out[oIndex] := c;
      oIndex := oIndex + 1;
      k := k + 1;
    }
  }

  /** The text loop of `encrypt` when not randomized. */
  method FillKeyXor(t: seq<byte>, kb: seq<byte>, out: array<byte>)
    requires |kb| > 0 && out.Length == |t|
    modifies out
    ensures out[..] == KeyXor(t, kb)
  {
    var k := 0;
    for i := 0 to |t|
      invariant 0 <= k <= |kb| && k % |kb| == i % |kb|
      invariant forall j :: 0 <= j < i ==> out[j] == Xor(t[j], kb[j % |kb|])
    {
      KeyIndexStep(k, i, |kb|);
      if k == |kb| {
        k := 0;
      }
      out[i] := Xor8(t[i], kb[k]);
      k := k + 1;
    }
  }

  /** `decrypt`: the checks, then `handleRandomized`, then the worker
      thread. A flagged input of odd length gives one pad more than the
      `rands` buffer holds, so the thread dies and the listener is never
      called. */
  method Decrypt(input: Option<seq<byte>>, key: Option<seq<byte>>) returns (r: Callback)
    ensures DecryptCheck(input, key).Some? ==> r == Called(None, DecryptCheck(input, key))
    ensures DecryptCheck(input, key).None? ==> (r.NotCalled? <==> Flagged(input.value) && |input.value| % 2 == 1)
    ensures r.Called? ==> (r.data.Some? <==> r.err.None?)
    ensures DecryptCheck(input, key).None? && r.Called? ==> r.err.None? && r.data == Some(Decrypted(input.value, key.value))
  {
    if input.None? || key.None? {
      return Called(None, Some(TextOrKeyNull));
    }
    var inp, kb := input.value, key.value;
    if |kb| < 6 {
      return Called(None, Some(KeyShort));
    }
    var fInput := HandleRandomized(inp);
    var randomized := |fInput| < |inp|;
    var arrayLen := if randomized then |fInput| / 2 else |fInput|;
    var rands, encryptedText, out := new byte[|fInput| / 2], new byte[arrayLen], new byte[arrayLen];
    if randomized {
      var whole := SplitInto(fInput, rands, encryptedText);
      if !whole {
        DivModUnique(|inp|, 2, |inp| / 2, |inp| % 2);
        DivModUnique(|fInput|, 2, |fInput| / 2, 1);
        return NotCalled;
      }
      DivModUnique(|fInput|, 2, |fInput| / 2, 0);
      DivModUnique(|inp|, 2, |inp| / 2, 0);
      OpenInto(encryptedText, rands, kb, out);
      assert out[..] == Open(fInput, kb);
    } else {
      forall i | 0 <= i < |fInput| {
        encryptedText[i] := fInput[i];
      }
      assert encryptedText[..] == fInput;
      KeyXorInto(encryptedText, kb, out);
    }
    r := Called(Some(out[..]), None);
  }

  /** The split loop of the worker thread: even positions to `rands`, odd
      ones to `encryptedText`, stopping at the write past the end of
      `rands` that an odd length causes. */
  method SplitInto(f: seq<byte>, rands: array<byte>, encryptedText: array<byte>) returns (whole: bool)
    requires rands.Length == |f| / 2 && encryptedText.Length == |f| / 2 && rands != encryptedText
    modifies rands, encryptedText
    ensures whole <==> |f| % 2 == 0
    ensures whole ==> rands[..] == Evens(f) && encryptedText[..] == Odds(f)
  {
    var rIndex, eIndex := 0, 0;
    for i := 0 to |f|
      invariant rIndex == (i + 1) / 2 && eIndex == i / 2 && rIndex <= rands.Length
      invariant forall j :: 0 <= j < rIndex ==> rands[j] == f[2 * j]
      invariant forall j :: 0 <= j < eIndex ==> encryptedText[j] == f[2 * j + 1]
    {
      if i % 2 == 0 {
        if rIndex == rands.Length {
          DivModUnique(|f|, 2, rIndex, 1);
          return false;
        }
        rands[rIndex] := f[i];
        rIndex := rIndex + 1;
      } else {
        encryptedText[eIndex] := f[i];
        eIndex := eIndex + 1;
      }
    }
    DivModUnique(|f|, 2, |f| / 2, 0);
    whole := true;
  }

  /** The output loop when randomized: `k` wraps at the key length, `c` at
      the length of `rands`, which here is that of `encryptedText`. */
  method OpenInto(encryptedText: array<byte>, rands: array<byte>, kb: seq<byte>, out: array<byte>)
    requires |kb| > 0 && encryptedText.Length == rands.Length == out.Length
    requires out != encryptedText && out != rands
    modifies out
    ensures out[..] == Opened(encryptedText[..], rands[..], kb)
  {
    var k, c := 0, 0;
    for o := 0 to out.Length
      invariant 0 <= k <= |kb| && k % |kb| == o % |kb| && c == o
      invariant forall j :: 0 <= j < o ==> out[j] == Xor(Xor(encryptedText[j], kb[j % |kb|]), rands[j])
    {
      KeyIndexStep(k, o, |kb|);
      if k == |kb| {
        k := 0;
      }
      if c == rands.Length {
        c := 0;
      }
      out[o] := Xor8(Xor8(encryptedText[o], kb[k]), rands[c]);
      k, c := k + 1, c + 1;
    }
    forall j | 0 <= j < out.Length
      ensures out[j] == Opened(encryptedText[..], rands[..], kb)[j]
    {
      DivModUnique(j, rands.Length, 0, j);
    }
  }

  /** The output loop when not randomized. */
  method KeyXorInto(encryptedText: array<byte>, kb: seq<byte>, out: array<byte>)
    requires |kb| > 0 && encryptedText.Length == out.Length && out != encryptedText
    modifies out
    ensures out[..] == KeyXor(encryptedText[..], kb)
  {
    var k := 0;
    for o := 0 to out.Length
      invariant 0 <= k <= |kb| && k % |kb| == o % |kb|
      invariant forall j :: 0 <= j < o ==> out[j] == Xor(encryptedText[j], kb[j % |kb|])
    {
      KeyIndexStep(k, o, |kb|);
      if k == |kb| {
        k := 0;
      }
      out[o] := Xor8(encryptedText[o], kb[k]);
      k := k + 1;
    }
  }

  /** Randomized round trip: the delivered bytes pass the checks of
      `decrypt`, carry the flag, have an even length, so the thread
      survives, and decrypt to the text whatever the pads. */
  lemma RandomizedRoundTrip(text: seq<byte>, key: seq<byte>, pads: seq<byte>, sent: seq<byte>)
    requires EncryptCheck(Some(text), Some(key)).None? && |pads| >= |text|
    requires sent == Encrypted(text, key, true, pads)
    ensures DecryptCheck(Some(sent), Some(key)).None?
    ensures Flagged(sent) && |sent| % 2 == 0
    ensures Decrypted(sent, key) == text
  {
    var sealed := Seal(text, key, pads);
    assert sent == Flag + sealed;
    assert sent[..|Flag|] == Flag && sent[|Flag|..] == sealed;
    DivModUnique(|sent|, 2, |text| + 5, 0);
    SealOpen(text, key, pads);
  }

  /** Plain round trip: decrypting the key-XORed text gives it back exactly
      when the ciphertext does not happen to start with the flag. */
  lemma PlainRoundTrip(text: seq<byte>, key: seq<byte>, sent: seq<byte>)
    requires |key| > 0 && sent == KeyXor(text, key)
    ensures Decrypted(sent, key) == text <==> !Flagged(sent)
  {
    KeyXorTwice(text, key);
    if Flagged(sent) {
      assert |Decrypted(sent, key)| < |text|;
    }
  }

  /** A collision: ten zero bytes under the key "RANDOMIZED" encrypt, not
      randomized, to the flag itself, which decrypts to nothing. */
  lemma FlagCollision(zeros: seq<byte>)
    requires zeros == seq(10, _ => 0)
    ensures EncryptCheck(Some(zeros), Some(Flag)).None?
    ensures KeyXor(zeros, Flag) == Flag
    ensures Decrypted(Flag, Flag) == []
  {
    forall i | 0 <= i < 10
      ensures KeyXor(zeros, Flag)[i] == Flag[i]
    {
      DivModUnique(i, 10, 0, i);
      XorZero(Flag[i]);
      XorComm(0, Flag[i]);
    }
    assert Flag[..|Flag|] == Flag;
  }
}
