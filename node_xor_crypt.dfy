/** The Node.js package: Nodejs/lib/xor-crypt.ts and the JavaScript it is
    published as, Nodejs/dist/xor-crypt.js. Strings are sequences of UTF-16
    code units; `charCodeAt` and `String.fromCharCode` pass the units
    through unchanged since the XOR of two units is a unit. Both return an
    object holding either a value or `err`; the pads drawn by `getRandChar`
    are an input sequence of letter codes. */
module NodeLib {
  import opened Bits
  import opened Wrappers
  import opened Pad

  /** `{encrypted | decrypted, err}`; `None` is `undefined`. */
  datatype Reply = Reply(value: Option<seq<char16>>, err: Option<string>)

  const TextOrKeyNull := "Text or Key NULL"
  const KeyLonger := "Key length more than input length"
  const TextOrKeyShort := "Text length or Key length less than 6"
  const KeyShort := "Key length less than 6"

  /** The checks of `encrypt` in xor-crypt.ts, in their order; `None` for
      a `null` or `undefined` argument. */
  function EncryptCheck(text: Option<seq<char16>>, key: Option<seq<char16>>): (e: Option<string>)
    ensures e.None? <==> text.Some? && key.Some? && 6 <= |key.value| <= |text.value|
    ensures text.None? || key.None? ==> e == Some(TextOrKeyNull)
    ensures text.Some? && key.Some? && |key.value| > |text.value| ==> e == Some(KeyLonger)
  {
    if text.None? || key.None? then Some(TextOrKeyNull)
    else if |key.value| > |text.value| then Some(KeyLonger)
    else if |text.value| < 6 || |key.value| < 6 then Some(TextOrKeyShort)
    else None
  }

  /** The checks of `decrypt` in xor-crypt.ts. */
  function DecryptCheck(input: Option<seq<char16>>, key: Option<seq<char16>>): (e: Option<string>)
    ensures e.None? <==> input.Some? && key.Some? && |key.value| >= 6
    ensures input.None? || key.None? ==> e == Some(TextOrKeyNull)
  {
    if input.None? || key.None? then Some(TextOrKeyNull)
    else if |key.value| < 6 then Some(KeyShort)
    else None
  }

  /** `encrypt`: on success the sealed text, twice as long, with a letter at
      every odd position. */
  method Encrypt(text: Option<seq<char16>>, key: Option<seq<char16>>, pads: seq<char16>) returns (r: Reply)
    requires text.Some? ==> |pads| >= |text.value|
    requires forall i :: 0 <= i < |pads| ==> IsLetter(pads[i])
    ensures r.value.Some? <==> r.err.None?
    ensures r.err == EncryptCheck(text, key)
    ensures r.err.None? ==> r.value == Some(Seal(text.value, key.value, pads))
  {
    if text.None? || key.None? {
      return Reply(None, Some(TextOrKeyNull));
    }
    var t, kb := text.value, key.value;
    if |kb| > |t| {
      return Reply(None, Some(KeyLonger));
    }
    if |t| < 6 || |kb| < 6 {
      return Reply(None, Some(TextOrKeyShort));
    }
    r := TrySeal(t, kb, pads);
  }

  /** The `try` block of `encrypt`: the loop of `SealStream`, whose units
      stay below 2^16. */
  method TrySeal(t: seq<char16>, kb: seq<char16>, pads: seq<char16>) returns (r: Reply)
    requires |kb| > 0 && |pads| >= |t|
    ensures r.value == Some(Seal(t, kb, pads)) && r.err.None?
  {
    var out := SealStream(t, kb, pads);
    Pow2Sixteen();
    SealBelow(t, kb, pads, 16);
    var units: seq<char16> := out;
    r := Reply(Some(units), None);
  }

  /** The `try` block of `decrypt`: the loops of `OpenStream`. */
  method TryOpen(inp: seq<char16>, kb: seq<char16>) returns (r: Reply)
    requires |kb| > 0
    ensures r.value == Some(Open(inp, kb)) && r.err.None?
  {
    var out := OpenStream(inp, kb);
    Pow2Sixteen();
    OpenBelow(inp, kb, 16);
    var units: seq<char16> := out;
    r := Reply(Some(units), None);
  }

  /** `decrypt`: on success the opened input, half as long. */
  method Decrypt(input: Option<seq<char16>>, key: Option<seq<char16>>) returns (r: Reply)
    ensures r.value.Some? <==> r.err.None?
    ensures r.err == DecryptCheck(input, key)
    ensures r.err.None? ==> r.value == Some(Open(input.value, key.value))
  {
    if input.None? || key.None? {
      return Reply(None, Some(TextOrKeyNull));
    }
    if |key.value| < 6 {
      return Reply(None, Some(KeyShort));
    }
    r := TryOpen(input.value, key.value);
  }

  /** Round trip: whatever `encrypt` accepts, `decrypt` accepts in return
      and opens to the text, whatever the pads. */
  lemma LibRoundTrip(text: seq<char16>, key: seq<char16>, pads: seq<char16>, sent: seq<char16>)
    requires EncryptCheck(Some(text), Some(key)).None? && |pads| >= |text|
    requires sent == Seal(text, key, pads)
    ensures DecryptCheck(Some(sent), Some(key)).None?
    ensures Open(sent, key) == text
  {
    SealOpen(text, key, pads);
  }
}

/** Nodejs/dist/xor-crypt.js: the same loops with fewer checks. Without a
    minimum key length an empty key reaches the loops, where `key[0]` is
    `undefined` and `charCodeAt` throws a `TypeError`; the `catch` returns
    "Err: " and the message, which depends on the JavaScript engine and is
    a parameter here. */
module NodeDist {
  import opened Bits
  import opened Wrappers
  import opened Pad
  import opened NodeLib

  const TextShort := "Text length less than 6"

  /** The checks of `encrypt` in xor-crypt.js: no minimum key length. */
  function EncryptCheck(text: Option<seq<char16>>, key: Option<seq<char16>>): (e: Option<string>)
    ensures e.None? <==> text.Some? && key.Some? && |key.value| <= |text.value| && |text.value| >= 6
    ensures text.None? || key.None? ==> e == Some(TextOrKeyNull)
  {
    if text.None? || key.None? then Some(TextOrKeyNull)
    else if |key.value| > |text.value| then Some(KeyLonger)
    else if |text.value| < 6 then Some(TextShort)
    else None
  }

  /** Every text and key the compiled checks accept and the source's
      reject has a key shorter than 6. */
  lemma ChecksWeaker(text: Option<seq<char16>>, key: Option<seq<char16>>)
    ensures NodeLib.EncryptCheck(text, key).None? ==> EncryptCheck(text, key).None?
    ensures EncryptCheck(text, key).None? && NodeLib.EncryptCheck(text, key).Some? ==> |key.value| < 6
  {
  }

  /** `encrypt` of xor-crypt.js: an empty key passes the checks and makes
      the first loop iteration throw. */
  method Encrypt(text: Option<seq<char16>>, key: Option<seq<char16>>, pads: seq<char16>, failure: string)
      returns (r: Reply)
    requires text.Some? ==> |pads| >= |text.value|
    requires forall i :: 0 <= i < |pads| ==> IsLetter(pads[i])
    ensures r.value.Some? <==> r.err.None?
    ensures EncryptCheck(text, key).Some? ==> r.err == EncryptCheck(text, key)
    ensures EncryptCheck(text, key).None? && |key.value| == 0 ==> r == Reply(None, Some("Err: " + failure))
    ensures EncryptCheck(text, key).None? && |key.value| > 0 ==> r.value == Some(Seal(text.value, key.value, pads))
  {
    if text.None? || key.None? {
      return Reply(None, Some(TextOrKeyNull));
    }
    var t, kb := text.value, key.value;
    if |kb| > |t| {
      return Reply(None, Some(KeyLonger));
    }
    if |t| < 6 {
      return Reply(None, Some(TextShort));
    }
    if |kb| == 0 {
      // the text is not empty, so the first iteration reads `key[0]`
      return Reply(None, Some("Err: " + failure));
    }
    r := TrySeal(t, kb, pads);
  }

  /** `decrypt` of xor-crypt.js: only the null check; an empty key throws
      as soon as there is one encrypted unit, and with none the result is
      the empty string. */
  method Decrypt(input: Option<seq<char16>>, key: Option<seq<char16>>, failure: string) returns (r: Reply)
    ensures r.value.Some? <==> r.err.None?
    ensures input.None? || key.None? ==> r == Reply(None, Some(TextOrKeyNull))
    ensures input.Some? && key.Some? && |key.value| == 0 ==>
              r == if |input.value| >= 2 then Reply(None, Some("Err: " + failure)) else Reply(Some([]), None)
    ensures input.Some? && key.Some? && |key.value| > 0 ==> r.value == Some(Open(input.value, key.value))
  {
    if input.None? || key.None? {
      return Reply(None, Some(TextOrKeyNull));
    }
    var inp, kb := input.value, key.value;
    if |kb| == 0 {
      // `encrypted` is empty exactly when the input has fewer than 2 units
      if |inp| >= 2 {
        return Reply(None, Some("Err: " + failure));
      }
      return Reply(Some([]), None);
    }
    r := TryOpen(inp, kb);
  }

  /** Nodejs/test/test.js: "hello bro!" under the 4-unit key "cool". */
  const Hello: seq<char16> := [104, 101, 108, 108, 111, 32, 98, 114, 111, 33]
  const Cool: seq<char16> := [99, 111, 111, 108]

  /** The test passes against the compiled code, for every draw of pads:
      its checks accept the text and the key and the round trip holds. The
      source's checks refuse the key as shorter than 6. */
  lemma HelloBro(pads: seq<char16>)
    requires |pads| >= |Hello|
    ensures EncryptCheck(Some(Hello), Some(Cool)).None?
    ensures Open(Seal(Hello, Cool, pads), Cool) == Hello
    ensures NodeLib.EncryptCheck(Some(Hello), Some(Cool)) == Some(TextOrKeyShort)
  {
    SealOpen(Hello, Cool, pads);
  }
}
