/**
 * The ADTS frame header (ISO/IEC 14496-3, Annex 1.A, tables 1.A.5 to 1.A.7)
 * that precedes every raw AAC frame written to an `.aac` file: a reader of
 * its fifteen fields, a writer of them, and the builder that fills a 7-byte
 * template in place, one `|=` at a time.
 *
 * The builder's inputs keep the widths of sink.cpp: the sampling rate index
 * and channel configuration are 32-bit `unsigned` (`bv32`), the payload
 * length is a `size_t` (`bv64`), and each `|=` into an `unsigned char`
 * keeps only the low 8 bits of the value it ors in.
 */
module Adts {
  /** The 56-bit fixed and variable header, field by field. */
  datatype AdtsHeader = AdtsHeader(
    syncword: bv16,          // 12 bits, all ones
    id: bv8,                 // 1 bit: 0 for MPEG-4
    layer: bv8,              // 2 bits
    protectionAbsent: bv8,   // 1 bit: 1 when no CRC follows
    profile: bv8,            // 2 bits: audio object type minus one
    samplingFrequencyIndex: bv8,  // 4 bits
    privateBit: bv8,         // 1 bit
    channelConfiguration: bv8,    // 3 bits
    originalCopy: bv8,       // 1 bit
    home: bv8,               // 1 bit
    copyrightIdBit: bv8,     // 1 bit
    copyrightIdStart: bv8,   // 1 bit
    frameLength: bv16,       // 13 bits: header plus payload, in bytes
    bufferFullness: bv16,    // 11 bits: 0x7FF for a variable-rate stream
    rawDataBlocks: bv8)      // 2 bits: raw data blocks in the frame, minus one

  const HEADER_BYTES: nat := 7

  /** Every field fits in its width. */
  predicate WellRanged(h: AdtsHeader) {
    h.syncword < 0x1000 && h.id < 2 && h.layer < 4 && h.protectionAbsent < 2
    && h.profile < 4 && h.samplingFrequencyIndex < 16 && h.privateBit < 2
    && h.channelConfiguration < 8 && h.originalCopy < 2 && h.home < 2
    && h.copyrightIdBit < 2 && h.copyrightIdStart < 2
    && h.frameLength < 0x2000 && h.bufferFullness < 0x800 && h.rawDataBlocks < 4
  }

  /** Reads the fields off the first seven bytes, most significant bit first. */
  function ParseAdtsHeader(b: seq<bv8>): (h: AdtsHeader)
    requires |b| >= HEADER_BYTES
  {
    AdtsHeader(
      (b[0] as bv16 << 4) | (b[1] as bv16 >> 4),
      (b[1] >> 3) & 1,
      (b[1] >> 1) & 3,
      b[1] & 1,
      b[2] >> 6,
      (b[2] >> 2) & 0xf,
      (b[2] >> 1) & 1,
      ((b[2] & 1) << 2) | (b[3] >> 6),
      (b[3] >> 5) & 1,
      (b[3] >> 4) & 1,
      (b[3] >> 3) & 1,
      (b[3] >> 2) & 1,
      ((b[3] as bv16 & 3) << 11) | (b[4] as bv16 << 3) | (b[5] as bv16 >> 5),
      ((b[5] as bv16 & 0x1f) << 6) | (b[6] as bv16 >> 2),
      b[6] & 3)
  }

  /** Writes the fields into seven bytes, most significant bit first. */
  function SerializeAdtsHeader(h: AdtsHeader): (b: seq<bv8>)
    requires WellRanged(h)
    ensures |b| == HEADER_BYTES
  {
    [(h.syncword >> 4) as bv8,
     ((h.syncword & 0xf) as bv8 << 4) | (h.id << 3) | (h.layer << 1) | h.protectionAbsent,
     (h.profile << 6) | (h.samplingFrequencyIndex << 2) | (h.privateBit << 1) | (h.channelConfiguration >> 2),
     ((h.channelConfiguration & 3) << 6) | (h.originalCopy << 5) | (h.home << 4)
       | (h.copyrightIdBit << 3) | (h.copyrightIdStart << 2) | (h.frameLength >> 11) as bv8,
     ((h.frameLength >> 3) & 0xff) as bv8,
     ((h.frameLength & 7) as bv8 << 5) | (h.bufferFullness >> 6) as bv8,
     ((h.bufferFullness & 0x3f) as bv8 << 2) | h.rawDataBlocks]
  }

  /** The header of an AAC-LC frame at sampling rate index `index` and channel configuration `channels`. */
  function LowComplexityHeader(index: bv8, channels: bv8, frameLength: bv16): (h: AdtsHeader)
    requires index < 16 && channels < 8 && frameLength < 0x2000
    ensures WellRanged(h)
  {
    AdtsHeader(0xFFF, 0, 0, 1, PROFILE as bv8, index, 0, channels, 0, 0, 0, 0, frameLength, 0x7FF, 0)
  }

  /** The profile field the builder writes: 1, audio object type 2, AAC LC. */
  const PROFILE: bv32 := 1

  /** The low 8 bits of a 32-bit value, as C's conversion to `unsigned char` keeps them. */
  function Low8(x: bv32): bv8 {
    (x & 0xff) as bv8
  }

  /** The low 8 bits of a 64-bit value, as C's conversion to `unsigned char` keeps them. */
  function Low8Of64(x: bv64): bv8 {
    (x & 0xff) as bv8
  }

  /**
   * Builds the 7-byte header for a payload of `length` bytes: the template
   * FF F1 00 00 00 1F FC with the profile, the index, the channel
   * configuration and the frame length (`length + 7`, wrapping like
   * `size_t`) or-ed in.  Whatever the inputs, the sync word, the MPEG-4 and
   * no-CRC bits, the private bit, the buffer fullness and the block count are
   * the template's, the index field keeps the low 4 bits of the index and the
   * frame length field the low 13 bits of `length + 7`.  When the index fits
   * in 4 bits and the frame length in 13, no value spills into its
   * neighbour's bits and the header is exactly the AAC-LC header for them.
   */
  method BuildAdtsHeader(sampleRateIndex: bv32, channelConfig: bv32, length: bv64) returns (header: seq<bv8>)
    ensures TemplateFields(sampleRateIndex, channelConfig, length + 7, header)
    ensures sampleRateIndex < 16 && length + 7 < 0x2000 ==>
      header == SerializeAdtsHeader(IntendedHeader(sampleRateIndex, channelConfig, length + 7))
  {
    var len := length + 7;
    header := OrFieldsIntoTemplate(sampleRateIndex, channelConfig, len);
    BuiltHeaderMeaning(sampleRateIndex, channelConfig, len, header);
  }

  /**
   * What every header the builder writes says, whatever its inputs: 7 bytes
   * starting FF F1, private bit 0, the low 4 bits of the index, the low 13
   * bits of the frame length `len`, buffer fullness 0x7FF and block count 0.
   * The fields next to the index and the length take those values' spilled
   * bits: the profile is 1 or-ed with bits 4 and 5 of the index, the
   * channel configuration is `channelConfig & 7` or-ed with bits 17 and 18
   * of `len`, and original_copy, home and the two copyright bits are bits
   * 16 down to 13 of `len`.
   */
  predicate TemplateFields(sampleRateIndex: bv32, channelConfig: bv32, len: bv64, header: seq<bv8>) {
    |header| == HEADER_BYTES && header[0] == 0xFF && header[1] == 0xF1
    && ParseAdtsHeader(header).profile as bv32 == PROFILE | ((sampleRateIndex >> 4) & 3)
    && ParseAdtsHeader(header).privateBit == 0
    && ParseAdtsHeader(header).samplingFrequencyIndex as bv32 == sampleRateIndex & 0xf
    && ParseAdtsHeader(header).channelConfiguration as bv64 == (channelConfig & 7) as bv64 | ((len >> 17) & 3)
    && ParseAdtsHeader(header).originalCopy as bv64 == (len >> 16) & 1
    && ParseAdtsHeader(header).home as bv64 == (len >> 15) & 1
    && ParseAdtsHeader(header).copyrightIdBit as bv64 == (len >> 14) & 1
    && ParseAdtsHeader(header).copyrightIdStart as bv64 == (len >> 13) & 1
    && ParseAdtsHeader(header).frameLength as bv64 == len & 0x1FFF
    && ParseAdtsHeader(header).bufferFullness == 0x7FF && ParseAdtsHeader(header).rawDataBlocks == 0
  }

  /**
   * The fields of a built header that do not depend on a fit: with an index
   * the decoder can produce the profile is AAC LC at any length, and the
   * channel configuration survives while `len` is below 2^17.
   */
  lemma SpilledFields(sampleRateIndex: bv32, channelConfig: bv32, len: bv64, header: seq<bv8>)
    requires TemplateFields(sampleRateIndex, channelConfig, len, header)
    ensures sampleRateIndex < 16 ==> ParseAdtsHeader(header).profile as bv32 == PROFILE
    ensures len < 0x2_0000 ==> ParseAdtsHeader(header).channelConfiguration as bv32 == channelConfig & 7
    ensures len < 0x2000 ==>
      ParseAdtsHeader(header).originalCopy == 0 && ParseAdtsHeader(header).home == 0
      && ParseAdtsHeader(header).copyrightIdBit == 0 && ParseAdtsHeader(header).copyrightIdStart == 0
  {
    var h := ParseAdtsHeader(header);
    if sampleRateIndex < 16 {
      assert (sampleRateIndex >> 4) & 3 == 0;
    }
    if len < 0x2_0000 {
      assert (len >> 17) & 3 == 0;
      assert h.channelConfiguration < 8;
    }
  }

  /**
   * The in-place part of the builder: a fresh copy of the template with
   * each field or-ed into its byte, one statement per `|=`.
   */
  method OrFieldsIntoTemplate(sampleRateIndex: bv32, channelConfig: bv32, len: bv64) returns (header: seq<bv8>)
    ensures BuilderBytes(sampleRateIndex, channelConfig, len, header)
  {
    var adts := new bv8[7] [0xFF, 0xF1, 0x00, 0x00, 0x00, 0x1F, 0xFC];
    adts[2] := adts[2] | Low8(PROFILE << 6);
    adts[2] := adts[2] | Low8(sampleRateIndex << 2);
    adts[2] := adts[2] | Low8((channelConfig & 4) >> 2);
    adts[3] := adts[3] | Low8((channelConfig & 3) << 6);
    adts[3] := adts[3] | Low8Of64(len >> 11);
    adts[4] := adts[4] | Low8Of64((len >> 3) & 0xff);
    adts[5] := adts[5] | Low8Of64((len & 7) << 5);
    header := adts[..];
    assert header == [adts[0], adts[1], adts[2], adts[3], adts[4], adts[5], adts[6]];
  }

  /** The AAC-LC header the builder means to write, defined when its fields fit. */
  function IntendedHeader(sampleRateIndex: bv32, channelConfig: bv32, len: bv64): (h: AdtsHeader)
    requires sampleRateIndex < 16 && len < 0x2000
    ensures WellRanged(h)
  {
    LowComplexityHeader(sampleRateIndex as bv8, (channelConfig & 7) as bv8, len as bv16)
  }

  /** The seven bytes the builder leaves in its array, as the or-ed values determine them. */
  predicate BuilderBytes(sampleRateIndex: bv32, channelConfig: bv32, len: bv64, header: seq<bv8>) {
    |header| == HEADER_BYTES && header[0] == 0xFF && header[1] == 0xF1 && header[6] == 0xFC
    && header[2] == ((0x00 | Low8(PROFILE << 6)) | Low8(sampleRateIndex << 2)) | Low8((channelConfig & 4) >> 2)
    && header[3] == (0x00 | Low8((channelConfig & 3) << 6)) | Low8Of64(len >> 11)
    && header[4] == 0x00 | Low8Of64((len >> 3) & 0xff)
    && header[5] == 0x1F | Low8Of64((len & 7) << 5)
  }

  /** What the builder's seven bytes say, field by field. */
  lemma BuiltHeaderMeaning(sampleRateIndex: bv32, channelConfig: bv32, len: bv64, header: seq<bv8>)
    requires BuilderBytes(sampleRateIndex, channelConfig, len, header)
    ensures TemplateFields(sampleRateIndex, channelConfig, len, header)
    ensures sampleRateIndex < 16 && len < 0x2000 ==>
      header == SerializeAdtsHeader(IntendedHeader(sampleRateIndex, channelConfig, len))
  {
    BuiltProfile(sampleRateIndex, channelConfig, len, header);
    BuiltPrivateBit(sampleRateIndex, channelConfig, len, header);
    BuiltChannels(sampleRateIndex, channelConfig, len, header);
    BuiltFlags(sampleRateIndex, channelConfig, len, header);
    BuiltIndex(sampleRateIndex, channelConfig, len, header);
    BuiltFrameLength(sampleRateIndex, channelConfig, len, header);
    BuiltFullness(sampleRateIndex, channelConfig, len, header);
    if sampleRateIndex < 16 && len < 0x2000 {
      BuiltIntended(sampleRateIndex, channelConfig, len, header);
    }
  }

  lemma BuiltProfile(sampleRateIndex: bv32, channelConfig: bv32, len: bv64, header: seq<bv8>)
    requires BuilderBytes(sampleRateIndex, channelConfig, len, header)
    ensures ParseAdtsHeader(header).profile as bv32 == PROFILE | ((sampleRateIndex >> 4) & 3)
  {
    ByteTwo(sampleRateIndex, channelConfig, len, header[2]);
  }

  lemma BuiltChannels(sampleRateIndex: bv32, channelConfig: bv32, len: bv64, header: seq<bv8>)
    requires BuilderBytes(sampleRateIndex, channelConfig, len, header)
    ensures ParseAdtsHeader(header).channelConfiguration as bv64 == (channelConfig & 7) as bv64 | ((len >> 17) & 3)
  {
    ByteTwo(sampleRateIndex, channelConfig, len, header[2]);
    ByteThree(sampleRateIndex, channelConfig, len, header[3]);
  }

  lemma BuiltFlags(sampleRateIndex: bv32, channelConfig: bv32, len: bv64, header: seq<bv8>)
    requires BuilderBytes(sampleRateIndex, channelConfig, len, header)
    ensures ParseAdtsHeader(header).originalCopy as bv64 == (len >> 16) & 1
    ensures ParseAdtsHeader(header).home as bv64 == (len >> 15) & 1
    ensures ParseAdtsHeader(header).copyrightIdBit as bv64 == (len >> 14) & 1
    ensures ParseAdtsHeader(header).copyrightIdStart as bv64 == (len >> 13) & 1
  {
    ByteThree(sampleRateIndex, channelConfig, len, header[3]);
  }

  lemma BuiltPrivateBit(sampleRateIndex: bv32, channelConfig: bv32, len: bv64, header: seq<bv8>)
    requires BuilderBytes(sampleRateIndex, channelConfig, len, header)
    ensures ParseAdtsHeader(header).privateBit == 0
  {
    ByteTwo(sampleRateIndex, channelConfig, len, header[2]);
  }

  lemma BuiltIndex(sampleRateIndex: bv32, channelConfig: bv32, len: bv64, header: seq<bv8>)
    requires BuilderBytes(sampleRateIndex, channelConfig, len, header)
    ensures ParseAdtsHeader(header).samplingFrequencyIndex as bv32 == sampleRateIndex & 0xf
  {
    ByteTwo(sampleRateIndex, channelConfig, len, header[2]);
  }

  lemma BuiltFrameLength(sampleRateIndex: bv32, channelConfig: bv32, len: bv64, header: seq<bv8>)
    requires BuilderBytes(sampleRateIndex, channelConfig, len, header)
    ensures ParseAdtsHeader(header).frameLength as bv64 == len & 0x1FFF
  {
    FrameLengthField(channelConfig, len, header[3], header[4], header[5]);
  }

  lemma BuiltFullness(sampleRateIndex: bv32, channelConfig: bv32, len: bv64, header: seq<bv8>)
    requires BuilderBytes(sampleRateIndex, channelConfig, len, header)
    ensures ParseAdtsHeader(header).bufferFullness == 0x7FF && ParseAdtsHeader(header).rawDataBlocks == 0
  {
    ByteFive(sampleRateIndex, channelConfig, len, header[5]);
  }

  lemma BuiltIntended(sampleRateIndex: bv32, channelConfig: bv32, len: bv64, header: seq<bv8>)
    requires BuilderBytes(sampleRateIndex, channelConfig, len, header)
    requires sampleRateIndex < 16 && len < 0x2000
    ensures header == SerializeAdtsHeader(IntendedHeader(sampleRateIndex, channelConfig, len))
  {
    ByteTwo(sampleRateIndex, channelConfig, len, header[2]);
    ByteThree(sampleRateIndex, channelConfig, len, header[3]);
    ByteFour(sampleRateIndex, channelConfig, len, header[4]);
    ByteFive(sampleRateIndex, channelConfig, len, header[5]);
    ConstantBytes(sampleRateIndex, channelConfig, len);
  }

  lemma FrameLengthField(channelConfig: bv32, len: bv64, b3: bv8, b4: bv8, b5: bv8)
    requires b3 == (0x00 | Low8((channelConfig & 3) << 6)) | Low8Of64(len >> 11)
    requires b4 == 0x00 | Low8Of64((len >> 3) & 0xff)
    requires b5 == 0x1F | Low8Of64((len & 7) << 5)
    ensures (((b3 as bv16 & 3) << 11) | (b4 as bv16 << 3) | (b5 as bv16 >> 5)) as bv64 == len & 0x1FFF
  {
  }

  lemma ConstantBytes(sampleRateIndex: bv32, channelConfig: bv32, len: bv64)
    requires sampleRateIndex < 16 && len < 0x2000
    ensures var b := SerializeAdtsHeader(IntendedHeader(sampleRateIndex, channelConfig, len));
      b[0] == 0xFF && b[1] == 0xF1 && b[6] == 0xFC
  {
  }

  lemma ByteTwo(sampleRateIndex: bv32, channelConfig: bv32, len: bv64, b: bv8)
    requires b == ((0x00 | Low8(PROFILE << 6)) | Low8(sampleRateIndex << 2)) | Low8((channelConfig & 4) >> 2)
    ensures (b >> 1) & 1 == 0 && ((b >> 2) & 0xf) as bv32 == sampleRateIndex & 0xf
    ensures (b >> 6) as bv32 == PROFILE | ((sampleRateIndex >> 4) & 3)
    ensures (b & 1) as bv32 == (channelConfig >> 2) & 1
    ensures sampleRateIndex < 16 && len < 0x2000 ==>
      b == SerializeAdtsHeader(IntendedHeader(sampleRateIndex, channelConfig, len))[2]
  {
  }

  lemma ByteThree(sampleRateIndex: bv32, channelConfig: bv32, len: bv64, b: bv8)
    requires b == (0x00 | Low8((channelConfig & 3) << 6)) | Low8Of64(len >> 11)
    ensures (b & 3) as bv64 == (len >> 11) & 3
    ensures (b >> 6) as bv64 == (channelConfig & 3) as bv64 | ((len >> 17) & 3)
    ensures ((b >> 5) & 1) as bv64 == (len >> 16) & 1 && ((b >> 4) & 1) as bv64 == (len >> 15) & 1
    ensures ((b >> 3) & 1) as bv64 == (len >> 14) & 1 && ((b >> 2) & 1) as bv64 == (len >> 13) & 1
    ensures sampleRateIndex < 16 && len < 0x2000 ==> b == SerializeAdtsHeader(IntendedHeader(sampleRateIndex, channelConfig, len))[3]
  {
  }

  lemma ByteFour(sampleRateIndex: bv32, channelConfig: bv32, len: bv64, b: bv8)
    requires b == 0x00 | Low8Of64((len >> 3) & 0xff)
    ensures b as bv64 == (len >> 3) & 0xff
    ensures sampleRateIndex < 16 && len < 0x2000 ==> b == SerializeAdtsHeader(IntendedHeader(sampleRateIndex, channelConfig, len))[4]
  {
  }

  lemma ByteFive(sampleRateIndex: bv32, channelConfig: bv32, len: bv64, b: bv8)
    requires b == 0x1F | Low8Of64((len & 7) << 5)
    ensures (b >> 5) as bv64 == len & 7 && b & 0x1f == 0x1f
    ensures sampleRateIndex < 16 && len < 0x2000 ==> b == SerializeAdtsHeader(IntendedHeader(sampleRateIndex, channelConfig, len))[5]
  {
  }
}
