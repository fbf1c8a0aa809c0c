/**
 * Properties of the ADTS header codec and of the stream of frames built
 * with it: the reader and the writer are inverse on well-ranged records and
 * on 7-byte strings, the header the builder means to write reads back as
 * the AAC-LC fields it was given, and a run of such frames can be split
 * back into its payloads by following the frame length fields.
 */
module AdtsProperties {
  import opened Wrappers
  import opened Adts

  /** Writing a well-ranged record and reading it back gives the record. */
  lemma ParseSerialize(h: AdtsHeader)
    requires WellRanged(h)
    ensures ParseAdtsHeader(SerializeAdtsHeader(h)) == h
  {
  }

  /** Every 7-byte string is the writing of the record read from it. */
  lemma SerializeParse(b: seq<bv8>)
    requires |b| == HEADER_BYTES
    ensures WellRanged(ParseAdtsHeader(b))
    ensures SerializeAdtsHeader(ParseAdtsHeader(b)) == b
  {
    ParsedRanges(b);
    var s := SerializeAdtsHeader(ParseAdtsHeader(b));
    SyncBytesBack(b);
    FieldBytesBack(b);
    LengthBytesBack(b);
    assert s == b;
  }

  lemma ParsedRanges(b: seq<bv8>)
    requires |b| == HEADER_BYTES
    ensures WellRanged(ParseAdtsHeader(b))
  {
  }

  lemma SyncBytesBack(b: seq<bv8>)
    requires |b| == HEADER_BYTES
    ensures WellRanged(ParseAdtsHeader(b))
    ensures SerializeAdtsHeader(ParseAdtsHeader(b))[0] == b[0]
    ensures SerializeAdtsHeader(ParseAdtsHeader(b))[1] == b[1]
  {
    ParsedRanges(b);
  }

  lemma FieldBytesBack(b: seq<bv8>)
    requires |b| == HEADER_BYTES
    ensures WellRanged(ParseAdtsHeader(b))
    ensures SerializeAdtsHeader(ParseAdtsHeader(b))[2] == b[2]
    ensures SerializeAdtsHeader(ParseAdtsHeader(b))[3] == b[3]
  {
    ParsedRanges(b);
  }

  lemma LengthBytesBack(b: seq<bv8>)
    requires |b| == HEADER_BYTES
    ensures WellRanged(ParseAdtsHeader(b))
    ensures SerializeAdtsHeader(ParseAdtsHeader(b))[4] == b[4]
    ensures SerializeAdtsHeader(ParseAdtsHeader(b))[5] == b[5]
    ensures SerializeAdtsHeader(ParseAdtsHeader(b))[6] == b[6]
  {
    ParsedRanges(b);
  }

  /** The header the builder means to write reads back as its inputs, with the constant fields of AAC LC. */
  lemma IntendedHeaderReadsBack(sampleRateIndex: bv32, channelConfig: bv32, len: bv64, h: AdtsHeader)
    requires sampleRateIndex < 16 && len < 0x2000
    requires h == ParseAdtsHeader(SerializeAdtsHeader(IntendedHeader(sampleRateIndex, channelConfig, len)))
    ensures h.syncword == 0xFFF && h.id == 0 && h.layer == 0 && h.protectionAbsent == 1
    ensures h.profile == 1 && h.privateBit == 0
    ensures h.samplingFrequencyIndex as bv32 == sampleRateIndex
    ensures h.channelConfiguration as bv32 == channelConfig & 7
    ensures h.frameLength as bv64 == len && h.frameLength == len as bv16
    ensures h.bufferFullness == 0x7FF && h.rawDataBlocks == 0
  {
    ParseSerialize(IntendedHeader(sampleRateIndex, channelConfig, len));
  }

  // ---------------------------------------------------------------------
  // Frame lengths as bit vectors
  //
  // A payload's length is a `nat`; the frame length field is a bit vector.
  // The verifier handles a direct conversion `n as bv16` poorly, so the
  // frame length is built by counting up from zero (`Bits13`) and its value
  // is established once, by induction (`BitsValue`).  Each one-line lemma
  // below states a single fact about a bit vector and its integer value
  // (Narrow, BelowAsBits, Increment, BoundAsBits, Widen, BelowFrameBits,
  // ZeroExtendPlusSeven, SameValue).  They stand apart so that each such
  // fact is proved on its own, away from the header fields.

  /** The number `n`, below 2^13, as a 16-bit vector, counted up from zero. */
  function Bits13(n: nat): bv16
    requires n < 0x2000
  {
    if n == 0 then 0 else Bits13(n - 1) + 1
  }

  /** Counting up gives the number's own value. */
  lemma {:induction false} BitsValue(n: nat)
    requires n < 0x2000
    ensures Bits13(n) as int == n
  {
    if n > 0 {
      BitsValue(n - 1);
      BitsUnfold(n);
      BitsStep(Bits13(n - 1), Bits13(n), n);
    }
  }

  lemma BitsUnfold(n: nat)
    requires 0 < n < 0x2000
    ensures Bits13(n) == Bits13(n - 1) + 1
  {
  }

  lemma BitsStep(y: bv16, z: bv16, n: nat)
    requires y as int == n - 1 && n < 0x2000 && z == y + 1
    ensures z as int == n
  {
    BelowAsBits(y);
    Increment(y);
  }

  lemma BelowAsBits(y: bv16)
    requires y as int < 0x1FFF
    ensures y < 0x1FFF
  {
  }

  lemma Increment(y: bv16)
    requires y < 0x1FFF
    ensures (y + 1) as int == y as int + 1
  {
  }

  /** The frame length a payload of `n` bytes gets: `n + 7` as a 64-bit `size_t`. */
  function FrameLength(n: nat): bv64
    requires n + HEADER_BYTES < 0x2000
  {
    Bits13(n + HEADER_BYTES) as bv64
  }

  /** The frame length fits the 13-bit field. */
  lemma FrameLengthBound(n: nat)
    requires n + HEADER_BYTES < 0x2000
    ensures FrameLength(n) < 0x2000
  {
    var x := Bits13(n + HEADER_BYTES);
    BitsValue(n + HEADER_BYTES);
    BoundAsBits(x);
  }

  lemma BoundAsBits(x: bv16)
    requires x as int < 0x2000
    ensures x < 0x2000
  {
  }

  lemma Widen(x: bv16)
    ensures (x as bv64) as int == x as int
  {
  }

  /** A `size_t` length whose value is `n` makes the frame length `FrameLength(n)` when 7 is added. */
  lemma LengthPlusHeader(length: bv64, n: nat)
    requires length as int == n && n + HEADER_BYTES < 0x2000
    ensures length + 7 == FrameLength(n)
  {
    var x := Bits13(n);
    BitsPlusSeven(n);
    BitsValue(n);
    BelowFrameBits(x);
    ZeroExtendPlusSeven(x);
    Widen(x);
    SameValue(x as bv64, length);
  }

  lemma BitsPlusSeven(n: nat)
    requires n + HEADER_BYTES < 0x2000
    ensures Bits13(n + 7) == Bits13(n) + 7
  {
    BitsUnfold(n + 1); BitsUnfold(n + 2); BitsUnfold(n + 3); BitsUnfold(n + 4);
    BitsUnfold(n + 5); BitsUnfold(n + 6); BitsUnfold(n + 7);
  }

  lemma BelowFrameBits(x: bv16)
    requires x as int < 0x1FF9
    ensures x < 0x1FF9
  {
  }

  lemma ZeroExtendPlusSeven(x: bv16)
    requires x < 0x1FF9
    ensures (x + 7) as bv64 == x as bv64 + 7
  {
  }

  lemma SameValue(a: bv64, b: bv64)
    requires a as int == b as int
    ensures a == b
  {
    assert (a as int) as bv64 == a;
    assert (b as int) as bv64 == b;
  }

  lemma Narrow(x: bv16)
    ensures (x as bv64) as bv16 == x
  {
  }

  // ---------------------------------------------------------------------
  // A stream of frames

  /** Every payload fits a frame: with its header it is shorter than 2^13 bytes. */
  predicate AllFit(payloads: seq<seq<bv8>>) {
    forall i :: 0 <= i < |payloads| ==> |payloads[i]| + HEADER_BYTES < 0x2000
  }

  /** An AAC-LC frame: the intended header for the payload's length, then the payload. */
  function Frame(sampleRateIndex: bv32, channelConfig: bv32, data: seq<bv8>): (f: seq<bv8>)
    requires sampleRateIndex < 16 && |data| + HEADER_BYTES < 0x2000
    ensures |f| == |data| + HEADER_BYTES && f[HEADER_BYTES..] == data
  {
    FrameLengthBound(|data|);
    SerializeAdtsHeader(IntendedHeader(sampleRateIndex, channelConfig, FrameLength(|data|))) + data
  }

  /** The frames of the payloads, one after the other. */
  function Frames(sampleRateIndex: bv32, channelConfig: bv32, payloads: seq<seq<bv8>>): seq<bv8>
    requires sampleRateIndex < 16 && AllFit(payloads)
  {
    if |payloads| == 0 then []
    else Frame(sampleRateIndex, channelConfig, payloads[0]) + Frames(sampleRateIndex, channelConfig, payloads[1..])
  }

  /**
   * A reader of a frame stream: each frame starts with the sync word and
   * declares its own length in its header; the payload is what follows the
   * header up to that length.
   */
  function ReadFrames(stream: seq<bv8>): Option<seq<seq<bv8>>>
    decreases |stream|
  {
    if |stream| == 0 then Some([])
    else if |stream| < HEADER_BYTES then None
    else
      var h := ParseAdtsHeader(stream);
      var n := h.frameLength as int;
      if h.syncword != 0xFFF || n < HEADER_BYTES || n > |stream| then None
      else match ReadFrames(stream[n..])
        case None => None
        case Some(rest) => Some([stream[HEADER_BYTES .. n]] + rest)
  }

  /** `ReadFrames` of a stream that starts with one frame: that payload, then what the rest reads as. */
  lemma ReadFirstFrame(sampleRateIndex: bv32, channelConfig: bv32, data: seq<bv8>, rest: seq<bv8>)
    requires sampleRateIndex < 16 && |data| + HEADER_BYTES < 0x2000
    ensures ReadFrames(Frame(sampleRateIndex, channelConfig, data) + rest)
         == match ReadFrames(rest) case None => None case Some(ps) => Some([data] + ps)
  {
    FrameLengthBound(|data|);
    var header := SerializeAdtsHeader(IntendedHeader(sampleRateIndex, channelConfig, FrameLength(|data|)));
    assert Frame(sampleRateIndex, channelConfig, data) == header + data;
    FrameHeaderLength(sampleRateIndex, channelConfig, data, rest);
    BitsValue(|data| + HEADER_BYTES);
    AfterHeader(header, data, rest);
    ReadFrameOf(header + data + rest, data, rest, Bits13(|data| + HEADER_BYTES));
  }

  /** The sync word and length field at the front of a frame, the length as the counted 16-bit value. */
  lemma FrameHeaderLength(sampleRateIndex: bv32, channelConfig: bv32, data: seq<bv8>, rest: seq<bv8>)
    requires sampleRateIndex < 16 && |data| + HEADER_BYTES < 0x2000
    ensures FrameLength(|data|) < 0x2000
    ensures |SerializeAdtsHeader(IntendedHeader(sampleRateIndex, channelConfig, FrameLength(|data|))) + data + rest| >= HEADER_BYTES
    ensures ParseAdtsHeader(SerializeAdtsHeader(IntendedHeader(sampleRateIndex, channelConfig, FrameLength(|data|))) + data + rest).syncword == 0xFFF
    ensures ParseAdtsHeader(SerializeAdtsHeader(IntendedHeader(sampleRateIndex, channelConfig, FrameLength(|data|))) + data + rest).frameLength
         == Bits13(|data| + HEADER_BYTES)
  {
    FrameLengthBound(|data|);
    FirstFrameHeader(sampleRateIndex, channelConfig, FrameLength(|data|), data, rest);
    Narrow(Bits13(|data| + HEADER_BYTES));
  }

  /** The header at the front of a frame has the sync word and the frame's length. */
  lemma FirstFrameHeader(sampleRateIndex: bv32, channelConfig: bv32, len: bv64, data: seq<bv8>, rest: seq<bv8>)
    requires sampleRateIndex < 16 && len < 0x2000
    ensures |SerializeAdtsHeader(IntendedHeader(sampleRateIndex, channelConfig, len)) + data + rest| >= HEADER_BYTES
    ensures ParseAdtsHeader(SerializeAdtsHeader(IntendedHeader(sampleRateIndex, channelConfig, len)) + data + rest).syncword == 0xFFF
    ensures ParseAdtsHeader(SerializeAdtsHeader(IntendedHeader(sampleRateIndex, channelConfig, len)) + data + rest).frameLength == len as bv16
  {
    var header := SerializeAdtsHeader(IntendedHeader(sampleRateIndex, channelConfig, len));
    IntendedHeaderReadsBack(sampleRateIndex, channelConfig, len, ParseAdtsHeader(header));
    FrontOf(header, data, rest);
    HeaderPrefix(header + data + rest, header);
  }

  /**
   * The reader takes a stream that starts with the sync word and the length
   * `7 + |data|`, followed by `data` and `rest`, as one frame and a rest.
   */
  lemma ReadFrameOf(stream: seq<bv8>, data: seq<bv8>, rest: seq<bv8>, x: bv16)
    requires |stream| == HEADER_BYTES + |data| + |rest|
    requires stream[HEADER_BYTES .. HEADER_BYTES + |data|] == data && stream[HEADER_BYTES + |data| ..] == rest
    requires ParseAdtsHeader(stream).syncword == 0xFFF && ParseAdtsHeader(stream).frameLength == x
    requires x as int == |data| + HEADER_BYTES
    ensures ReadFrames(stream) == match ReadFrames(rest) case None => None case Some(ps) => Some([data] + ps)
  {
    ReadFrameAt(stream, data, rest);
  }

  /** The payload and the rest of a stream that starts with a 7-byte header. */
  lemma AfterHeader(header: seq<bv8>, data: seq<bv8>, rest: seq<bv8>)
    requires |header| == HEADER_BYTES
    ensures (header + data + rest)[HEADER_BYTES .. HEADER_BYTES + |data|] == data
    ensures (header + data + rest)[HEADER_BYTES + |data| ..] == rest
  {
  }

  lemma FrontOf(header: seq<bv8>, data: seq<bv8>, rest: seq<bv8>)
    requires |header| == HEADER_BYTES
    ensures |header + data + rest| >= HEADER_BYTES && (header + data + rest)[..HEADER_BYTES] == header
  {
  }


  /** The header fields read from a stream are those of its first seven bytes. */
  lemma HeaderPrefix(stream: seq<bv8>, header: seq<bv8>)
    requires |stream| >= HEADER_BYTES && stream[..HEADER_BYTES] == header
    ensures ParseAdtsHeader(stream) == ParseAdtsHeader(header)
  {
    assert forall k :: 0 <= k < HEADER_BYTES ==> stream[k] == header[k];
  }

  /** One step of the reader over a frame with the sync word and the length `7 + |data|`. */
  lemma ReadFrameAt(stream: seq<bv8>, data: seq<bv8>, rest: seq<bv8>)
    requires |stream| == HEADER_BYTES + |data| + |rest|
    requires stream[HEADER_BYTES .. HEADER_BYTES + |data|] == data && stream[HEADER_BYTES + |data| ..] == rest
    requires ParseAdtsHeader(stream).syncword == 0xFFF
    requires ParseAdtsHeader(stream).frameLength as int == HEADER_BYTES + |data|
    ensures ReadFrames(stream) == match ReadFrames(rest) case None => None case Some(ps) => Some([data] + ps)
  {
  }

  /** Reading a stream of frames gives back the payloads they were built from. */
  lemma {:induction false} FramesReadBack(sampleRateIndex: bv32, channelConfig: bv32, payloads: seq<seq<bv8>>)
    requires sampleRateIndex < 16 && AllFit(payloads)
    ensures ReadFrames(Frames(sampleRateIndex, channelConfig, payloads)) == Some(payloads)
  {
    if |payloads| > 0 {
      AllFitTail(payloads);
      FramesReadBack(sampleRateIndex, channelConfig, payloads[1..]);
      ReadCons(sampleRateIndex, channelConfig, payloads);
    }
  }

  lemma AllFitTail(payloads: seq<seq<bv8>>)
    requires |payloads| > 0 && AllFit(payloads)
    ensures |payloads[0]| + HEADER_BYTES < 0x2000 && AllFit(payloads[1..])
  {
    var tail := payloads[1..];
    forall i | 0 <= i < |tail| ensures |tail[i]| + HEADER_BYTES < 0x2000 {
      assert tail[i] == payloads[i + 1];
    }
  }

  /** The step of the read-back: the first frame reads as the first payload, the rest as before. */
  lemma ReadCons(sampleRateIndex: bv32, channelConfig: bv32, payloads: seq<seq<bv8>>)
    requires sampleRateIndex < 16 && |payloads| > 0 && |payloads[0]| + HEADER_BYTES < 0x2000
    requires AllFit(payloads[1..])
    requires ReadFrames(Frames(sampleRateIndex, channelConfig, payloads[1..])) == Some(payloads[1..])
    ensures ReadFrames(Frames(sampleRateIndex, channelConfig, payloads)) == Some(payloads)
  {
    ReadFirstFrame(sampleRateIndex, channelConfig, payloads[0], Frames(sampleRateIndex, channelConfig, payloads[1..]));
    assert [payloads[0]] + payloads[1..] == payloads;
  }

  /** Appending a frame to the stream of some payloads gives the stream of one more payload. */
  lemma {:induction false} FramesSnoc(sampleRateIndex: bv32, channelConfig: bv32, payloads: seq<seq<bv8>>, data: seq<bv8>)
    requires sampleRateIndex < 16 && AllFit(payloads) && |data| + HEADER_BYTES < 0x2000
    ensures AllFit(payloads + [data])
    ensures Frames(sampleRateIndex, channelConfig, payloads + [data])
         == Frames(sampleRateIndex, channelConfig, payloads) + Frame(sampleRateIndex, channelConfig, data)
  {
    var ps := payloads + [data];
    assert AllFit(ps) by {
      forall i | 0 <= i < |ps| ensures |ps[i]| + HEADER_BYTES < 0x2000 {
        if i < |payloads| { assert ps[i] == payloads[i]; }
      }
    }
    if |payloads| > 0 {
      assert ps[0] == payloads[0];
      assert ps[1..] == payloads[1..] + [data];
      assert AllFit(payloads[1..]) by {
        forall i | 0 <= i < |payloads[1..]| ensures |payloads[1..][i]| + HEADER_BYTES < 0x2000 {
          assert payloads[1..][i] == payloads[i + 1];
        }
      }
      FramesSnoc(sampleRateIndex, channelConfig, payloads[1..], data);
    } else {
      assert ps[1..] == [];
    }
  }
}
