/**
 * The two sinks' use of the codec.  Both constructors take the AAC "magic
 * cookie", pull the DecoderSpecificInfo out of its descriptors and decode
 * it as an AudioSpecificConfig.  The MP4 sink hands the sampling rate, a
 * channel count and the config bytes on to the container library; the ADTS
 * sink keeps the index and the channel configuration and, for every frame,
 * writes a 7-byte ADTS header followed by the frame's bytes.
 *
 * The output file of the ADTS sink is the sequence `written` of the bytes
 * written to it so far; opening it, and the write-error check, are not part
 * of this model.
 */
module Sink {
  import opened Wrappers
  import opened Descriptors
  import opened AudioConfig
  import opened Adts
  import opened AdtsProperties
  import DescriptorProperties
  import AudioConfigProperties

  /** Why a sink cannot be set up from a cookie: the descriptor walk or the config decoding failed. */
  datatype SinkError = BadCookie(cookieError: CookieError) | BadConfig(configError: ConfigError)

  /** The cookie's DecoderSpecificInfo bytes and what they decode to, as both constructors obtain them. */
  datatype CookieInfo = CookieInfo(config: seq<bv8>, decoded: DecoderConfig)

  function CookieConfig(cookie: seq<bv8>): (r: Result<CookieInfo, SinkError>)
    ensures Walk(cookie, 0).Err? ==> r == Err(BadCookie(Walk(cookie, 0).error))
    ensures Walk(cookie, 0).Ok? && DecodeAudioSpecificConfig(Walk(cookie, 0).value).Err? ==>
      r == Err(BadConfig(DecodeAudioSpecificConfig(Walk(cookie, 0).value).error))
    ensures r.Ok? ==>
      Walk(cookie, 0) == Ok(r.value.config) && DecodeAudioSpecificConfig(r.value.config) == Ok(r.value.decoded)
  {
    match Walk(cookie, 0)
    case Err(e) => Err(BadCookie(e))
    case Ok(config) =>
      match DecodeAudioSpecificConfig(config)
      case Err(e) => Err(BadConfig(e))
      case Ok(d) => Ok(CookieInfo(config, d))
  }

  // ---------------------------------------------------------------------
  // The MP4 sink

  /** What the MP4 sink's constructor passes to the container library for its one audio track. */
  datatype TrackParameters = TrackParameters(
    timeScale: bv32,             // the movie's and the track's time scale: the sampling rate
    sampleDuration: bv32,        // 1024 samples per AAC frame
    channelCount: bv32,          // the AudioSampleEntry's channel count
    esConfiguration: seq<bv8>)   // the decoder config, stored as the track's ES configuration

  const SAMPLES_PER_FRAME: bv32 := 1024

  function Mp4TrackParameters(cookie: seq<bv8>): (r: Result<TrackParameters, SinkError>)
    ensures r.Err? <==> CookieConfig(cookie).Err?
    ensures r.Err? ==> r.error == CookieConfig(cookie).error
    ensures r.Ok? ==>
      var info := CookieConfig(cookie).value;
      r.value.timeScale == info.decoded.samplingRate
      && r.value.sampleDuration == SAMPLES_PER_FRAME
      && r.value.esConfiguration == info.config
      && (r.value.channelCount == 1 || r.value.channelCount == 2)
      && (r.value.channelCount == 1 <==> info.decoded.channelConfig == 1)
  {
    match CookieConfig(cookie)
    case Err(e) => Err(e)
    case Ok(info) =>
      Ok(TrackParameters(info.decoded.samplingRate, SAMPLES_PER_FRAME,
                         AudioSampleEntryChannels(info.decoded.channelConfig), info.config))
  }

  // ---------------------------------------------------------------------
  // The ADTS sink

  class AdtsSink {
    const sampleRateIndex: bv32
    const channelConfig: bv32
    /** The bytes written to the output so far. */
    var written: seq<bv8>
    /** The payloads given to `WriteSamples` so far, in order. */
    ghost var payloads: seq<seq<bv8>>

    /** As long as the index and every payload fit their fields, the output is exactly their frame stream. */
    ghost predicate Valid()
      reads this
    {
      sampleRateIndex < 16 && AllFit(payloads) ==> written == Frames(sampleRateIndex, channelConfig, payloads)
    }

    constructor (d: DecoderConfig)
      ensures sampleRateIndex == d.samplingRateIndex && channelConfig == d.channelConfig
      ensures written == [] && payloads == []
      ensures Valid()
    {
      sampleRateIndex := d.samplingRateIndex;
      channelConfig := d.channelConfig;
      written := [];
      payloads := [];
    }

    /**
     * The constructor's parsing: the cookie's DecoderSpecificInfo, decoded;
     * the sink keeps its index and channel configuration and drops the rate.
     */
    static method Open(cookie: seq<bv8>) returns (r: Result<AdtsSink, SinkError>)
      ensures r.Err? <==> CookieConfig(cookie).Err?
      ensures r.Err? ==> r.error == CookieConfig(cookie).error
      ensures r.Ok? ==> fresh(r.value) && r.value.written == [] && r.value.payloads == [] && r.value.Valid()
      ensures r.Ok? ==>
        r.value.sampleRateIndex == CookieConfig(cookie).value.decoded.samplingRateIndex
        && r.value.channelConfig == CookieConfig(cookie).value.decoded.channelConfig
    {
      var config := ExtractDecoderSpecificInfo(cookie);
      if config.Err? {
        return Err(BadCookie(config.error));
      }
      var d := DecodeAudioSpecificConfig(config.value);
      if d.Err? {
        return Err(BadConfig(d.error));
      }
      var sink := new AdtsSink(d.value);
      return Ok(sink);
    }

    /**
     * Writes one frame: the ADTS header for a payload of `length` bytes,
     * then the payload.  The header always goes first and the payload
     * unchanged after it; when everything fits, the new output is the old
     * one followed by the AAC-LC frame of the payload.
     */
    method WriteSamples(data: seq<bv8>, length: bv64)
      requires length as int == |data|
      requires Valid()
      modifies this
      ensures payloads == old(payloads) + [data]
      ensures |written| == |old(written)| + HEADER_BYTES + |data|
      ensures written[..|old(written)|] == old(written)
      ensures TemplateFields(sampleRateIndex, channelConfig, length + 7, written[|old(written)| .. |old(written)| + HEADER_BYTES])
      ensures written[|old(written)| + HEADER_BYTES ..] == data
      ensures sampleRateIndex < 16 && |data| + HEADER_BYTES < 0x2000 ==>
        written == old(written) + Frame(sampleRateIndex, channelConfig, data)
      ensures Valid()
    {
      var header := BuildAdtsHeader(sampleRateIndex, channelConfig, length);
      Appended(sampleRateIndex, channelConfig, payloads, written, header, data, length);
      written := written + header + data;
      payloads := payloads + [data];
    }
  }

  /**
   * Everything `WriteSamples` promises about the output it extends: where the
   * header and the payload go, the frame they make when the payload fits, and
   * that the output stays the frame stream of the payloads.
   */
  lemma Appended(sampleRateIndex: bv32, channelConfig: bv32, earlier: seq<seq<bv8>>, before: seq<bv8>,
                 header: seq<bv8>, data: seq<bv8>, length: bv64)
    requires length as int == |data| && |header| == HEADER_BYTES
    requires sampleRateIndex < 16 && length + 7 < 0x2000 ==>
      header == SerializeAdtsHeader(IntendedHeader(sampleRateIndex, channelConfig, length + 7))
    requires sampleRateIndex < 16 && AllFit(earlier) ==> before == Frames(sampleRateIndex, channelConfig, earlier)
    ensures |before + header + data| == |before| + HEADER_BYTES + |data|
    ensures (before + header + data)[..|before|] == before
    ensures (before + header + data)[|before| .. |before| + HEADER_BYTES] == header
    ensures (before + header + data)[|before| + HEADER_BYTES ..] == data
    ensures sampleRateIndex < 16 && |data| + HEADER_BYTES < 0x2000 ==>
      before + header + data == before + Frame(sampleRateIndex, channelConfig, data)
    ensures sampleRateIndex < 16 && AllFit(earlier + [data]) ==>
      before + header + data == Frames(sampleRateIndex, channelConfig, earlier + [data])
  {
    AppendedSlices(before, header, data);
    PayloadFrameLength(sampleRateIndex, |data|, length);
    AppendedFrame(sampleRateIndex, channelConfig, before, header, data, length);
    FramesExtended(sampleRateIndex, channelConfig, earlier, data, before, before + header + data);
  }

  /** Where the header and the payload go when both are appended to the output. */
  lemma AppendedSlices(before: seq<bv8>, header: seq<bv8>, data: seq<bv8>)
    requires |header| == HEADER_BYTES
    ensures (before + header + data)[..|before|] == before
    ensures (before + header + data)[|before| .. |before| + HEADER_BYTES] == header
    ensures (before + header + data)[|before| + HEADER_BYTES ..] == data
  {
  }

  /** A payload of `length` bytes that fits its frame has the frame length `length + 7`. */
  lemma PayloadFrameLength(sampleRateIndex: bv32, n: nat, length: bv64)
    requires length as int == n
    ensures sampleRateIndex < 16 && n + HEADER_BYTES < 0x2000 ==> length + 7 == FrameLength(n)
  {
    if sampleRateIndex < 16 && n + HEADER_BYTES < 0x2000 {
      LengthPlusHeader(length, n);
    }
  }

  /** The output after a header and a payload are appended, when the two make the payload's frame. */
  lemma AppendedFrame(sampleRateIndex: bv32, channelConfig: bv32, before: seq<bv8>, header: seq<bv8>, data: seq<bv8>,
                      length: bv64)
    requires sampleRateIndex < 16 && |data| + HEADER_BYTES < 0x2000 ==> length + 7 == FrameLength(|data|)
    requires sampleRateIndex < 16 && length + 7 < 0x2000 ==>
      header == SerializeAdtsHeader(IntendedHeader(sampleRateIndex, channelConfig, length + 7))
    ensures sampleRateIndex < 16 && |data| + HEADER_BYTES < 0x2000 ==>
      before + header + data == before + Frame(sampleRateIndex, channelConfig, data)
  {
    if sampleRateIndex < 16 && |data| + HEADER_BYTES < 0x2000 {
      HeaderOfFrame(sampleRateIndex, channelConfig, header, data, length);
      assert before + header + data == before + (header + data);
    }
  }

  /** A header built for `length + 7` equal to the frame length of `data` is that frame's header. */
  lemma HeaderOfFrame(sampleRateIndex: bv32, channelConfig: bv32, header: seq<bv8>, data: seq<bv8>, length: bv64)
    requires sampleRateIndex < 16 && |data| + HEADER_BYTES < 0x2000 && length + 7 == FrameLength(|data|)
    requires sampleRateIndex < 16 && length + 7 < 0x2000 ==>
      header == SerializeAdtsHeader(IntendedHeader(sampleRateIndex, channelConfig, length + 7))
    ensures header + data == Frame(sampleRateIndex, channelConfig, data)
  {
    FrameLengthBound(|data|);
  }

  /** Appending one more payload's frame keeps the output equal to the frame stream while everything fits. */
  lemma FramesExtended(sampleRateIndex: bv32, channelConfig: bv32, earlier: seq<seq<bv8>>, data: seq<bv8>,
                       before: seq<bv8>, after: seq<bv8>)
    requires sampleRateIndex < 16 && AllFit(earlier) ==> before == Frames(sampleRateIndex, channelConfig, earlier)
    requires sampleRateIndex < 16 && |data| + HEADER_BYTES < 0x2000 ==>
      after == before + Frame(sampleRateIndex, channelConfig, data)
    ensures sampleRateIndex < 16 && AllFit(earlier + [data]) ==>
      after == Frames(sampleRateIndex, channelConfig, earlier + [data])
  {
    var payloads := earlier + [data];
    if sampleRateIndex < 16 && AllFit(payloads) {
      assert payloads[|earlier|] == data;
      assert AllFit(earlier) by {
        forall i | 0 <= i < |earlier| ensures |earlier[i]| + HEADER_BYTES < 0x2000 {
          assert earlier[i] == payloads[i];
        }
      }
      FramesSnoc(sampleRateIndex, channelConfig, earlier, data);
    }
  }

  /** While everything fits, the ADTS sink's output reads back, frame by frame, as the payloads it was given. */
  lemma WrittenReadsBack(sink: AdtsSink)
    requires sink.Valid() && sink.sampleRateIndex < 16 && AllFit(sink.payloads)
    ensures ReadFrames(sink.written) == Some(sink.payloads)
  {
    FramesReadBack(sink.sampleRateIndex, sink.channelConfig, sink.payloads);
  }

  // ---------------------------------------------------------------------
  // From encoder settings to sink settings

  /**
   * A cookie as an encoder lays it out, around an AudioSpecificConfig
   * written for `index`, `rate` and `channelConfig`, sets both sinks up
   * with those values.
   */
  lemma CookieRoundTrip(esSize: nat, esFields: seq<bv8>, dcSize: nat, dcFields: seq<bv8>, tail: seq<bv8>,
                        objectType: bv32, index: bv32, rate: bv32, channelConfig: bv32)
    requires esSize < 0x1000_0000 && dcSize < 0x1000_0000
    requires |esFields| == ES_DESCR_FIXED_BYTES && |dcFields| == DECODER_CONFIG_FIXED_BYTES
    requires objectType < 32 && index < 16 && channelConfig < 16
    requires index == ESCAPE_INDEX ==> rate < 0x100_0000
    ensures CookieConfig(DescriptorProperties.QuickTimeCookie(esSize, esFields, dcSize, dcFields,
              AudioConfigProperties.EncodeAudioSpecificConfig(objectType, index, rate, channelConfig), tail))
         == Ok(CookieInfo(AudioConfigProperties.EncodeAudioSpecificConfig(objectType, index, rate, channelConfig),
                          DecoderConfig(index, if index == ESCAPE_INDEX then rate else SamplingRates[index], channelConfig)))
  {
    var config := AudioConfigProperties.EncodeAudioSpecificConfig(objectType, index, rate, channelConfig);
    DescriptorProperties.WalkQuickTimeCookie(esSize, esFields, dcSize, dcFields, config, tail);
    AudioConfigProperties.EncodeDecodeRoundTrip(objectType, index, rate, channelConfig, []);
    assert config + [] == config;
  }
}
