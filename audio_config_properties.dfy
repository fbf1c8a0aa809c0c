/**
 * Properties of the AudioSpecificConfig reader: it inverts a writer of the
 * layout of ISO/IEC 14496-3 section 1.6.2.1, it looks at no byte past the
 * fields it needs, and what it makes of the table's reserved entries.
 */
module AudioConfigProperties {
  import opened Wrappers
  import opened AudioConfig

  // ---------------------------------------------------------------------
  // A writer of the same layout, and the round trip through the reader

  /** Byte 0: the 5-bit audioObjectType and the top 3 bits of the index. */
  function ObjectTypeByte(objectType: bv32, index: bv32): bv8
    requires objectType < 32 && index < 16
  {
    ((objectType << 3) | (index >> 1)) as bv8
  }

  /** Byte 1 without escape: the low index bit and the channel configuration, GASpecificConfig bits zero. */
  function IndexChannelByte(index: bv32, channelConfig: bv32): bv8
    requires index < 16 && channelConfig < 16
  {
    (((index & 1) << 7) | (channelConfig << 3)) as bv8
  }

  /** Bytes 1 to 4 with escape: the low index bit, the 24-bit rate, then the channel configuration. */
  function EscapeRateBytes(rate: bv32, channelConfig: bv32): (bs: seq<bv8>)
    requires rate < 0x100_0000 && channelConfig < 16
    ensures |bs| == 4
  {
    [(0x80 | (rate >> 17)) as bv8, ((rate >> 9) & 0xff) as bv8, ((rate >> 1) & 0xff) as bv8,
     (((rate & 1) << 7) | (channelConfig << 3)) as bv8]
  }

  /**
   * An AudioSpecificConfig as an encoder writes it: 2 bytes for a tabulated
   * rate, 5 bytes when the escape index carries an explicit rate.
   */
  function EncodeAudioSpecificConfig(objectType: bv32, index: bv32, rate: bv32, channelConfig: bv32): (c: seq<bv8>)
    requires objectType < 32 && index < 16 && channelConfig < 16
    requires index == ESCAPE_INDEX ==> rate < 0x100_0000
    ensures |c| == if index == ESCAPE_INDEX then 5 else 2
  {
    if index == ESCAPE_INDEX then [ObjectTypeByte(objectType, index)] + EscapeRateBytes(rate, channelConfig)
    else [ObjectTypeByte(objectType, index), IndexChannelByte(index, channelConfig)]
  }

  lemma IndexOfEncoded(objectType: bv32, index: bv32, b1: bv8)
    requires objectType < 32 && index < 16 && b1 & 0x80 == ((index & 1) << 7) as bv8
    ensures FrequencyIndex(ObjectTypeByte(objectType, index), b1) == index
  {
  }

  lemma PlainByteFields(index: bv32, channelConfig: bv32)
    requires index < 16 && channelConfig < 16
    ensures IndexChannelByte(index, channelConfig) & 0x80 == ((index & 1) << 7) as bv8
    ensures ChannelBits(IndexChannelByte(index, channelConfig)) == channelConfig
  {
  }

  lemma EscapeByteFields(rate: bv32, channelConfig: bv32)
    requires rate < 0x100_0000 && channelConfig < 16
    ensures var bs := EscapeRateBytes(rate, channelConfig);
      bs[0] & 0x80 == 0x80 && ExplicitRate(bs[0], bs[1], bs[2], bs[3]) == rate && ChannelBits(bs[3]) == channelConfig
  {
  }

  /**
   * Reading back what the writer wrote gives the index, the rate (from the
   * table, or the explicit one after an escape) and the channel
   * configuration, whatever follows the config.
   */
  lemma EncodeDecodeRoundTrip(objectType: bv32, index: bv32, rate: bv32, channelConfig: bv32, rest: seq<bv8>)
    requires objectType < 32 && index < 16 && channelConfig < 16
    requires index == ESCAPE_INDEX ==> rate < 0x100_0000
    ensures DecodeAudioSpecificConfig(EncodeAudioSpecificConfig(objectType, index, rate, channelConfig) + rest)
         == Ok(DecoderConfig(index, if index == ESCAPE_INDEX then rate else SamplingRates[index], channelConfig))
  {
    var c := EncodeAudioSpecificConfig(objectType, index, rate, channelConfig) + rest;
    if index == ESCAPE_INDEX {
      var bs := EscapeRateBytes(rate, channelConfig);
      EscapeByteFields(rate, channelConfig);
      assert c[1] == bs[0] && c[2] == bs[1] && c[3] == bs[2] && c[4] == bs[3];
      IndexOfEncoded(objectType, index, bs[0]);
    } else {
      PlainByteFields(index, channelConfig);
      IndexOfEncoded(objectType, index, IndexChannelByte(index, channelConfig));
    }
  }

  /** The reader looks at no byte past the fields it needs. */
  lemma DecodeIgnoresTrailingBytes(c: seq<bv8>, rest: seq<bv8>)
    requires DecodeAudioSpecificConfig(c).Ok?
    ensures DecodeAudioSpecificConfig(c + rest) == DecodeAudioSpecificConfig(c)
  {
    assert (c + rest)[0] == c[0] && (c + rest)[1] == c[1];
    if FrequencyIndex(c[0], c[1]) == ESCAPE_INDEX {
      assert (c + rest)[2] == c[2] && (c + rest)[3] == c[3] && (c + rest)[4] == c[4];
    }
  }

  /**
   * A tabulated index yields a non-zero rate exactly when it is one of the
   * thirteen defined ones; the reserved indices 13 and 14 are not rejected
   * and read as rate 0.
   */
  lemma TabulatedRates(c: seq<bv8>, d: DecoderConfig)
    requires DecodeAudioSpecificConfig(c) == Ok(d) && d.samplingRateIndex != ESCAPE_INDEX
    ensures d.samplingRate != 0 <==> d.samplingRateIndex < 13
    ensures d.samplingRateIndex < 13 ==> 7350 <= d.samplingRate <= 96000
  {
  }

  /** The common 44.1 kHz stereo AAC-LC config: index 4, 44100 Hz, two channels. */
  lemma DecodeLowComplexityStereo()
    ensures DecodeAudioSpecificConfig([0x12, 0x10]) == Ok(DecoderConfig(4, 44100, 2))
  {
  }

  /** The same stream with its rate written out after the escape index. */
  lemma DecodeEscapedRate()
    ensures DecodeAudioSpecificConfig([0x17, 0x80, 0x56, 0x22, 0x10]) == Ok(DecoderConfig(15, 44100, 2))
  {
  }

  /**
   * The escaped rate is not byte-aligned: a byte 1 with bit 7 clear cannot
   * complete an escape index, and bytes 1 to 4 of `00 00 AC 44` give the
   * rate 344.
   */
  lemma RateBytesOfFortyFourOne(b0: bv8)
    ensures FrequencyIndex(b0, 0x00) != ESCAPE_INDEX
    ensures ExplicitRate(0x00, 0x00, 0xAC, 0x44) == 344
  {
  }
}
