/** The command-line driver of src/main.rs: the destination name rule of
    `exec_cli`, what happens to the source and the destination of one
    file, and the key masks `generate_hash` derives before the HMAC (the
    HMAC itself is not part of this model). */
module RustMain {
  import opened Bits
  import opened Wrappers
  import opened XorCryptor
  import opened RustJob

  /** `pat` occurs in `s` at position `p`. */
  predicate OccursAt(s: string, pat: string, p: nat)
  {
    p + |pat| <= |s| && s[p..p + |pat|] == pat
  }

  /** No occurrence of `pat` anywhere in `s`. */
  ghost predicate Lacks(s: string, pat: string)
  {
    forall p: nat :: !OccursAt(s, pat, p)
  }

  /** `str::replace(pat, "")`: every occurrence of `pat`, found from the
      left without overlapping, is removed. */
  function RemoveAll(s: string, pat: string): string
    requires |pat| > 0
    decreases |s|
  {
    if |s| < |pat| then s
    else if s[..|pat|] == pat then RemoveAll(s[|pat|..], pat)
    else [s[0]] + RemoveAll(s[1..], pat)
  }

  /** No occurrence in `s` means none in its tail. */
  lemma LacksTail(s: string, pat: string)
    requires |s| > 0 && Lacks(s, pat)
    ensures Lacks(s[1..], pat)
  {
    forall p: nat ensures !OccursAt(s[1..], pat, p) {
      if p + |pat| <= |s| - 1 {
        assert s[1..][p..p + |pat|] == s[p + 1..p + 1 + |pat|];
        assert !OccursAt(s, pat, p + 1);
      }
    }
  }

  /** A string without an occurrence of `pat` is kept as it is. */
  lemma {:induction false} RemoveAllAbsent(s: string, pat: string)
    requires |pat| > 0 && Lacks(s, pat)
    ensures RemoveAll(s, pat) == s
    decreases |s|
  {
    if |s| >= |pat| {
      assert !OccursAt(s, pat, 0);
      assert s[0..|pat|] == s[..|pat|];
      LacksTail(s, pat);
      RemoveAllAbsent(s[1..], pat);
      assert s == [s[0]] + s[1..];
    }
  }

  /** A leading character that cannot start `pat` is kept. */
  lemma RemoveKeeps(c: char, s: string, pat: string)
    requires |pat| > 0 && c != pat[0]
    ensures RemoveAll([c] + s, pat) == [c] + RemoveAll(s, pat)
  {
    var t := [c] + s;
    assert t[1..] == s;
    if |t| >= |pat| {
      assert t[..|pat|][0] == c;
    }
  }

  /** A leading occurrence of `pat` is dropped. */
  lemma RemoveDrops(s: string, pat: string)
    requires |pat| > 0
    ensures RemoveAll(pat + s, pat) == RemoveAll(s, pat)
  {
    var t := pat + s;
    assert t[..|pat|] == pat && t[|pat|..] == s;
  }

  /** What `exec_cli` decides for a source path: a rejected source (its
      path is returned as `Some`) or the destination it processes into. */
  datatype Decision = Rejected(path: string) | Destination(path: string)

  /** The rule: encrypting rejects a path ending in ".xrc" and otherwise
      appends ".xrc"; decrypting rejects a path not ending in ".xrc" and
      otherwise removes every ".xrc" in it. */
  function ExecDecision(src: string, toEncrypt: bool): (d: Decision)
    ensures d.Rejected? ==> d.path == src
  {
    if toEncrypt then
      if EndsWith(src, DotXrc) then Rejected(src) else Destination(src + DotXrc)
    else if !EndsWith(src, DotXrc) then Rejected(src)
    else Destination(RemoveAll(src, DotXrc))
  }

  /** Each mode rejects exactly the paths the other one accepts. */
  lemma DecisionPartition(src: string)
    ensures ExecDecision(src, true).Rejected? <==> EndsWith(src, DotXrc)
    ensures ExecDecision(src, false).Rejected? <==> !EndsWith(src, DotXrc)
    ensures ExecDecision(src, true).Destination? ==>
              EndsWith(ExecDecision(src, true).path, DotXrc) && ExecDecision(src, true).path[..|src|] == src
  {
    var d := src + DotXrc;
    assert d[|d| - 4..] == DotXrc && d[..|src|] == src;
  }

  /** Removing ".xrc" from a path with no ".xrc" but the appended one gives
      the path back. */
  lemma {:induction false} RemoveAppended(s: string)
    requires Lacks(s, DotXrc)
    ensures RemoveAll(s + DotXrc, DotXrc) == s
    decreases |s|
  {
    var t := s + DotXrc;
    if |s| == 0 {
      assert t[..4] == DotXrc && t[4..] == [];
    } else {
      assert t[..4] != DotXrc by {
        if |s| >= 4 {
          assert !OccursAt(s, DotXrc, 0);
          assert t[..4] == s[0..4];
        } else {
          assert t[|s|] == '.' && DotXrc[|s|] != '.';
        }
      }
      LacksTail(s, DotXrc);
      assert t[1..] == s[1..] + DotXrc;
      RemoveAppended(s[1..]);
      assert s == [s[0]] + s[1..];
    }
  }

  /** The names round-trip when the only ".xrc" is the appended one: the
      encrypted file is decrypted back to the path it came from. */
  lemma ExecRoundTrip(src: string)
    requires Lacks(src, DotXrc)
    ensures ExecDecision(src, true) == Destination(src + DotXrc)
    ensures ExecDecision(src + DotXrc, false) == Destination(src)
  {
    DecisionPartition(src);
    if |src| >= 4 {
      assert !OccursAt(src, DotXrc, |src| - 4);
    }
    var d := src + DotXrc;
    assert d[|d| - 4..] == DotXrc;
    RemoveAppended(src);
  }

  /** `replace` removes the inner ".xrc" as well as the suffix. */
  lemma RemoveBoth()
    ensures RemoveAll(['a'] + DotXrc + ['b'] + DotXrc, DotXrc) == ['a', 'b']
  {
    var tail := ['b'] + DotXrc;
    assert RemoveAll(tail, DotXrc) == "b" by {
      RemoveDrops([], DotXrc);
      RemoveKeeps('b', DotXrc, DotXrc);
    }
    assert RemoveAll(DotXrc + tail, DotXrc) == "b" by {
      RemoveDrops(tail, DotXrc);
    }
    RemoveKeeps('a', DotXrc + tail, DotXrc);
    assert ['a'] + DotXrc + ['b'] + DotXrc == ['a'] + (DotXrc + tail);
  }

  /** Every ".xrc" goes, not only the suffix, so a name that had one of its
      own does not come back: "a.xrcb" is encrypted to "a.xrcb.xrc", which
      decrypts to "ab". */
  lemma InnerXrcLost()
    ensures ExecDecision("a.xrcb", true) == Destination("a.xrcb.xrc")
    ensures ExecDecision("a.xrcb.xrc", false) == Destination("ab")
  {
    assert "a.xrcb"[2..] != DotXrc;
    assert "a.xrcb" + DotXrc == "a.xrcb.xrc";
    assert "a.xrcb.xrc"[6..] == DotXrc;
    RemoveBoth();
    assert ['a'] + DotXrc + ['b'] + DotXrc == "a.xrcb.xrc";
  }

  /** What one `exec_cli` call in its loop of `main` (lines 109-116) does to
      the file system: the destination it creates, if any, and the paths it
      removes. A rejected source is removed by the caller; an empty source
      is removed unless `preserve` is set and gets no destination
      (`process_file`, lines 171-176); any other source gets its
      destination and is removed unless `preserve` is set (lines 230-232),
      whatever the writer reports. I/O errors are not modelled. */
  datatype Effect = Effect(created: Option<string>, removed: set<string>)

  function ExecEffect(src: string, toEncrypt: bool, srcLen: nat, preserve: bool): (e: Effect)
    ensures e.removed <= {src}
    ensures e.created.Some? <==> ExecDecision(src, toEncrypt).Destination? && srcLen > 0
    ensures e.created.Some? ==> e.created.value == ExecDecision(src, toEncrypt).path
    ensures src in e.removed <==> ExecDecision(src, toEncrypt).Rejected? || !preserve
  {
    match ExecDecision(src, toEncrypt)
    case Rejected(p) => Effect(None, {p})
    case Destination(d) =>
      Effect(if srcLen == 0 then None else Some(d), if preserve then {} else {src})
  }

  /** A source the rule rejects is deleted even when `preserve` is set:
      encrypting an ".xrc" file, or decrypting any other file, removes it. */
  lemma RejectedRemoved(src: string, toEncrypt: bool, srcLen: nat)
    requires toEncrypt == EndsWith(src, DotXrc)
    ensures ExecEffect(src, toEncrypt, srcLen, true) == Effect(None, {src})
  {
    DecisionPartition(src);
  }

  /** `m ^ ((m >> 4) | (m << 4))` on `u8` for `m = p | (q << 4)`: the left
      shift drops the high nibble, so the two shifted values swap the
      nibbles and the result is `p ^ q` in both nibbles. */
  lemma SwapFold(p: nat, q: nat, m: nat, h: nat)
    requires p < 16 && q < 16 && m == 16 * q + p && h == 16 * p + q
    ensures Xor(m, h) == 17 * Xor(p, q)
  {
    Nibbles(q, p);
    Nibbles(p, q);
    XorNibbles(m, h);
    XorByte(m, h);
    XorComm(q, p);
    var z := Xor(m, h);
    assert z == 16 * (z / 16) + z % 16;
  }

  /** `l | (h << 4)` for a nibble `l`. */
  lemma Or16(l: nat, h: nat)
    requires l < 16
    ensures Or(l, 16 * h) == 16 * h + l
  {
    assert Pow2(4) == 16;
    OrDisjoint(l, h, 4);
  }

  /** The `u8` steps of `generate_hash` for one key byte `v` of popcount
      `p` give its mask. */
  lemma RustMask(v: byte, p: nat, m: nat, hi: nat, lo: nat)
    requires p == Popcount(v) && p <= 8 && m == Or(p, 16 * (8 - p))
    requires hi == m / 16 && lo == (16 * m) % 256
    ensures Xor(m, Or(hi, lo)) < 256
    ensures Xor8(Xor(m, Or(hi, lo)), v) == KeyMask(v)
  {
    var q := 8 - p;
    Or16(p, q);
    assert m == 16 * q + p;
    DivModUnique(m, 16, q, p);
    DivModUnique(16 * m, 256, q, 16 * p);
    Or16(q, p);
    SwapFold(p, q, m, Or(hi, lo));
    XorNibble(p, q);
    XorComm(v, 17 * Xor(p, q));
  }

  /** The mask loop of `generate_hash`: every key byte is replaced by its
      mask, computed with `u8` arithmetic. */
  method GenerateHash(kCipher: seq<byte>) returns (cipher: seq<byte>)
    ensures cipher == KeyMasks(kCipher)
  {
    cipher := seq(|kCipher|, _ => 0);
    for i := 0 to |cipher|
      invariant |cipher| == |kCipher|
      invariant forall j :: 0 <= j < i ==> cipher[j] == KeyMask(kCipher[j])
    {
      var v := kCipher[i];
      var mask: nat, vt: nat := 0, v;
      while vt != 0
        invariant mask + Popcount(vt) == Popcount(v)
        decreases vt
      {
        mask := mask + if vt % 2 == 1 then 1 else 0;
        vt := vt / 2;
      }
      PopcountByte(v);
      // `mask |= (8 - mask) << 4`
      mask := Or(mask, 16 * (8 - mask));
      // `mask ^= (mask >> 4) | (mask << 4)`, the left shift cut to a byte
      var hi, lo := mask / 16, (16 * mask) % 256;
      RustMask(v, Popcount(v), mask, hi, lo);
      var m: byte := Xor(mask, Or(hi, lo));
      cipher := cipher[i := Xor8(m, v)];
    }
  }
}
