/**
 * The AudioSpecificConfig reader: sampling frequency index, sampling rate
 * and channel configuration taken from the first bytes of the
 * DecoderSpecificInfo payload (ISO/IEC 14496-3, section 1.6.2.1).
 *
 * Bytes are `bv8`; the `unsigned` results of sink.cpp are `bv32`, and every
 * shift and mask is done on `bv32` as the C integer promotions do.  The
 * C++ code reads `p[1]` (and `p[2]..p[4]` for the escape index) without
 * checking the length; here a config too short for those reads is the
 * explicit error `ConfigTooShort`.
 */
module AudioConfig {
  import opened Wrappers

  /** The sampling rates the 4-bit index selects; 13 and 14 are reserved and 15 escapes, all read as 0. */
  const SamplingRates: seq<bv32> :=
    [96000, 88200, 64000, 48000, 44100, 32000, 24000, 22050,
     16000, 12000, 11025, 8000, 7350, 0, 0, 0]

  /** The index value announcing that a 24-bit explicit rate follows. */
  const ESCAPE_INDEX: bv32 := 0xf

  /** What the reader hands back to its caller. */
  datatype DecoderConfig = DecoderConfig(samplingRateIndex: bv32, samplingRate: bv32, channelConfig: bv32)

  datatype ConfigError = ConfigTooShort

  /** The 4-bit sampling frequency index, which straddles the first two bytes. */
  function FrequencyIndex(b0: bv8, b1: bv8): (index: bv32)
    ensures index < 16
  {
    ((b0 as bv32 & 7) << 1) | (b1 as bv32 >> 7)
  }

  /** The 24-bit explicit rate that follows an escape index, spread over bytes 1 to 4. */
  function ExplicitRate(b1: bv8, b2: bv8, b3: bv8, b4: bv8): (rate: bv32)
    ensures rate < 0x100_0000
  {
    ((b1 as bv32 & 0x7f) << 17) | (b2 as bv32 << 9) | (b3 as bv32 << 1) | (b4 as bv32 >> 7)
  }

  /** The 4-bit channel configuration, bits 6..3 of the byte after the frequency fields. */
  function ChannelBits(b: bv8): (ch: bv32)
    ensures ch < 16
  {
    (b as bv32 >> 3) & 0xf
  }

  /**
   * Reads an AudioSpecificConfig.  With an ordinary index the rate comes
   * from the table and the channel configuration from byte 1; with the
   * escape index the rate is the explicit 24-bit value and the channel
   * configuration moves three bytes on, to byte 4.
   */
  function DecodeAudioSpecificConfig(config: seq<bv8>): (r: Result<DecoderConfig, ConfigError>)
    ensures r.Err? <==> |config| < 2 || (|config| < 5 && FrequencyIndex(config[0], config[1]) == ESCAPE_INDEX)
    ensures r.Ok? ==> r.value.samplingRateIndex == FrequencyIndex(config[0], config[1])
    ensures r.Ok? ==> r.value.samplingRateIndex < 16 && r.value.channelConfig < 16
    ensures r.Ok? && r.value.samplingRateIndex != ESCAPE_INDEX ==>
      r.value.samplingRate == SamplingRates[r.value.samplingRateIndex] &&
      r.value.channelConfig == ChannelBits(config[1])
    ensures r.Ok? && r.value.samplingRateIndex == ESCAPE_INDEX ==>
      r.value.samplingRate == ExplicitRate(config[1], config[2], config[3], config[4]) &&
      r.value.samplingRate < 0x100_0000 && r.value.channelConfig == ChannelBits(config[4])
  {
    if |config| < 2 then Err(ConfigTooShort)
    else
      var index := FrequencyIndex(config[0], config[1]);
      if index == ESCAPE_INDEX then
        if |config| < 5 then Err(ConfigTooShort)
        else Ok(DecoderConfig(index, ExplicitRate(config[1], config[2], config[3], config[4]),
                              ChannelBits(config[1 + 3])))
      else Ok(DecoderConfig(index, SamplingRates[index], ChannelBits(config[1])))
  }

  /**
   * The channel count written into the MP4 AudioSampleEntry: ISO/IEC 14496-12
   * allows only 1 or 2 there, so mono stays mono and every other
   * configuration is declared as stereo.
   */
  function AudioSampleEntryChannels(channelConfig: bv32): (count: bv32)
    ensures count == 1 || count == 2
    ensures count == 1 <==> channelConfig == 1
  {
    if channelConfig == 1 then 1 else 2
  }
}
