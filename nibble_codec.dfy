/** The round trip of the nibble-tree codec of xor_cryptor.hpp and
    C++/xor_cryptor.hpp: `decrypt_bytes` with the same key gives back
    what `encrypt_bytes` was given, for every input that is not empty and
    short enough that no `uint64_t` position wraps. The empty input is the
    exception: its encoding is the single byte 0, and the decoder then
    takes the first group of an empty order. */
module NibbleCodec {
  import opened Bits
  import opened Wrappers
  import opened BitStreams
  import opened NibbleTree
  import opened NibbleDecoder
  import opened NibbleRoundTrip
  import NibbleExceptionsRead
  import NibbleFillRead
  import NibbleWalkRead

  /** After the header the parse stands at the streams, every listed group
      holds its size and no exception, and the sizes add up to the input
      length. */
  lemma HeaderEnd(s: seq<byte>)
    requires Fits(s)
    ensures HeaderState(s, |Order(s)|)
            == Parsed(StreamsStart(s), NibbleExceptionsRead.ExcTable(s, 0), Order(s), |s|)
  {
    var o := Order(s);
    assert o[..|o|] == o;
    TotalOrder(s);
    var a, b := HeaderTable(s, o), NibbleExceptionsRead.ExcTable(s, 0);
    forall h | 0 <= h < 16
      ensures a[h] == b[h]
    {
      assert ListOf(ExcList(s, 0, h)) == None;
    }
  }

  /** The exceptions start after the header and the sizes. */
  lemma ExceptionsAt(s: seq<byte>)
    requires Fits(s)
    ensures ExceptionsFrom(HeaderDone(s)) == ExceptionsStart(s)
  {
    OrderBound(s);
    HeaderLength(s, Order(s));
  }

  /** The table the exceptions leave is the one the streams are read into. */
  lemma ExceptionsDone(s: seq<byte>)
    ensures NibbleExceptionsRead.ExcTable(s, |s|) == NibbleFillRead.ExceptedTable(s)
  {
  }

  /** The decoder's phases, on any input: the header, the exceptions from
      after the sizes, the streams from the end of the header, and the walk
      from the first group. */
  lemma DecodeSteps(e: seq<byte>, key: seq<byte>, p: Parsed, excepted: seq<Option<Group>>,
                    filled: seq<Option<Group>>, out: seq<byte>)
    requires |e| > 0 && ParseHeader(e, e[0], Start()) == Some(p)
    requires ParseExceptions(e, ExceptionsFrom(p), p.table) == Some(excepted)
    requires FillStreams(e, key, p.order, 0, p.idx, 0, excepted) == Some(filled)
    requires |p.order| > 0 && Walk(filled, p.order[0], []) == Some(out)
    ensures Decode(e, key) == Some(out)
  {
  }

  /** The parse state after the header of the encoding of `s`. */
  function HeaderDone(s: seq<byte>): (p: Parsed)
    requires |s| < U64
    ensures Wf(p)
  {
    Parsed(StreamsStart(s), NibbleExceptionsRead.ExcTable(s, 0), Order(s), |s|)
  }

  /** The header of an encoding reads back. */
  lemma HeaderPhase(s: seq<byte>, key: seq<byte>)
    requires Fits(s) && |key| > 0
    ensures |Encode(s, key)| > 0
    ensures ParseHeader(Encode(s, key), Encode(s, key)[0], Start()) == Some(HeaderDone(s))
  {
    HeaderLayout(s, key);
    HeaderRead(s, Encode(s, key), |Order(s)|);
    HeaderEnd(s);
  }

  /** The exceptions of an encoding read back. */
  lemma ExceptionPhase(s: seq<byte>, key: seq<byte>)
    requires Fits(s) && |key| > 0
    ensures ParseExceptions(Encode(s, key), ExceptionsFrom(HeaderDone(s)), HeaderDone(s).table)
            == Some(NibbleFillRead.ExceptedTable(s))
  {
    ExceptionsLayout(s, key);
    ExceptionsAt(s);
    NibbleExceptionsRead.ExcPhase(s, Encode(s, key), ExceptionsStart(s));
    ExceptionsDone(s);
  }

  /** The streams of an encoding read back. */
  lemma StreamPhase(s: seq<byte>, key: seq<byte>)
    requires Fits(s) && |key| > 0
    ensures FillStreams(Encode(s, key), key, HeaderDone(s).order, 0, HeaderDone(s).idx, 0, NibbleFillRead.ExceptedTable(s))
            == Some(NibbleFillRead.FilledTable(s))
  {
    StreamsLayout(s, key);
    NibbleFillRead.FillPhase(s, Encode(s, key), key, StreamsStart(s));
  }

  /** The walk from the first group of the header gives the input back. */
  lemma OutputPhase(s: seq<byte>)
    requires Fits(s)
    ensures |HeaderDone(s).order| > 0
    ensures Walk(NibbleFillRead.FilledTable(s), HeaderDone(s).order[0], []) == Some(s)
  {
    NibbleWalkRead.WalkPhase(s);
  }

  /** Decryption with the same key undoes encryption. */
  lemma RoundTrip(s: seq<byte>, key: seq<byte>)
    requires Fits(s) && |key| > 0
    ensures Decode(Encode(s, key), key) == Some(s)
  {
    HeaderPhase(s, key);
    ExceptionPhase(s, key);
    StreamPhase(s, key);
    OutputPhase(s);
    DecodeSteps(Encode(s, key), key, HeaderDone(s), NibbleFillRead.ExceptedTable(s), NibbleFillRead.FilledTable(s), s);
  }

  /** The empty input is encoded as the group count 0 alone, and that does
      not decode: the decoder reads the first group of an empty order. */
  lemma EmptyLost(key: seq<byte>)
    ensures Encode([], key) == [0]
    ensures Decode([0], key) == None
  {
    assert Order([]) == [];
  }

  /** `decrypt_bytes` with an empty header giving the empty output; in every
      other case it is the decoder as written. */
  function DecodeFixed(input: seq<byte>, key: seq<byte>): (r: Option<seq<byte>>)
    ensures r != Decode(input, key) ==> r == Some([])
    ensures Decode(input, key).Some? ==> r == Decode(input, key)
  {
    if |input| == 0 then None
    else
      match ParseHeader(input, input[0], Start())
      case None => None
      case Some(p) => if |p.order| == 0 then Some([]) else DecodeBody(input, key, p)
  }

  /** The corrected decoder undoes encryption on every input, the empty one
      included, and with any key when the input is empty. */
  lemma RoundTripFixed(s: seq<byte>, key: seq<byte>)
    requires |s| + 256 <= U64 && (|key| > 0 || |s| == 0)
    ensures DecodeFixed(Encode(s, key), key) == Some(s)
  {
    if |s| == 0 {
      EmptyLost(key);
    } else {
      RoundTrip(s, key);
    }
  }
}
