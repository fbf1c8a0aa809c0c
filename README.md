# qaac output sinks: the MPEG-4 audio configuration codec

This project models how qaac's output sinks read an AAC encoder's
configuration and write it back out. The source is `sink.cpp`.

- **Descriptor header reader.** `getDescripterHeader` reads a one-byte tag
  and then a size. The size uses the expandable-class encoding of
  ISO/IEC 14496-1, section 8.3.3: seven value bits per byte, most
  significant first, bit 7 meaning "another byte follows". The size is
  accumulated in a 32-bit unsigned integer and wraps modulo 2^32.
- **Cookie walker.** `parseMagicCookieAAC` walks the flat descriptor
  sequence of the QuickTime "magic cookie".
  - It steps over the fixed fields of an ES_Descriptor (tag 3, 3 bytes) and
    a DecoderConfigDescriptor (tag 4, 13 bytes).
  - It steps over any other descriptor by its declared size.
  - It returns the payload of the first DecoderSpecificInfo (tag 5). If
    there is none, it fails.
- **AudioSpecificConfig decoder.** `parseDecSpecificConfig` reads the
  sampling frequency index, the sampling rate and the channel configuration
  (ISO/IEC 14496-3, section 1.6.2.1). Index 15 is the escape: an explicit
  24-bit rate follows it.
- **ADTS header builder.** `ADTSSink::writeSamples` starts from a 7-byte
  template and ors the profile, the index, the channel configuration and
  the frame length into it (ISO/IEC 14496-3, Annex 1.A).
- **Sink setup.** The two sinks use these pieces as follows.
  - The MP4 sink passes a time scale, a sample duration of 1024, a channel
    count of 1 or 2 and the config bytes to the container library.
  - The ADTS sink keeps the index and the channel configuration. It writes
    every frame as the header followed by the payload.

Data representation:
- Bytes are `bv8`.
- The source's `unsigned` and `uint32_t` results are `bv32`. The `size_t`
  length is `bv64`, so `length + 7` wraps as it does in C on a target
  where `size_t` is 64 bits wide. On a 32-bit target the wrap is modulo
  2^32 instead; the 13-bit frame length field comes out the same.
- The descriptor size accumulator is a `nat` kept below 2^32. One
  accumulation step is `(size * 128 + (b & 0x7f)) % 2^32`. This equals the
  source's `(size << 7) | (n & 0x7f)`, because the shifted value has its low
  seven bits clear.
- Cursors are `nat` offsets into the cookie. Like the source's pointer, a
  fixed skip may move a cursor past the end. After that no further header
  is read.

Structure of the model:
- The two loops and the in-place byte array are imperative methods:
  - `Descriptors.ReadDescriptorHeader`;
  - `Descriptors.ExtractDecoderSpecificInfo`;
  - `Adts.OrFieldsIntoTemplate`, called by `Adts.BuildAdtsHeader`.
- Each method is proved against a function: `ParseHeader`, `Walk`, and the
  field layout `ParseAdtsHeader` / `SerializeAdtsHeader`.
- `ReadFrames` splits an ADTS stream back into its payloads. It is the
  partner of the frame writer. While the sampling rate index is below 16 and
  every payload is shorter than 8185 bytes, the output of the ADTS sink
  reads back as the payloads that were written.
- The ADTS sink is a class.
  - `written` is the output file's contents.
  - A ghost `payloads` holds the payloads written so far.
  - `Valid()` says that, as long as the index is below 16 and every payload
    is shorter than 8185 bytes, the output is exactly their frame stream.

Two details of the decoder follow from the code:
- ISO/IEC 14496-3 marks sampling frequency indices 13 and 14 as reserved.
  `parseDecSpecificConfig` does not reject them and reads a rate of 0 from
  its table.
- The escaped rate is not byte-aligned: it runs from bit 6 of byte 1 to
  bit 7 of byte 4. With bytes 1 to 4 set to `00 00 AC 44` the rate is 344
  (`AudioConfigProperties.RateBytesOfFortyFourOne`).

## Model

| member | source | states |
|---|---|---|
| Descriptors.ParseHeaderMeaning | sink.cpp:14-23 | No header can be read exactly when the cursor is at or past the end, or when every byte after the tag has bit 7 set. Otherwise the header is the tag, then the size bytes up to and including the first with bit 7 clear, and the size is the 32-bit fold over those bytes. |
| Descriptors.ReadDescriptorHeader | sink.cpp:10-24 | The loop succeeds exactly when a complete header is there, and then returns its tag, size and following offset. On failure the cursor is at the end, or unchanged if it started at or past the end, and the size is the fold over every byte after the tag. |
| DescriptorProperties.SizeFoldIsBase128 | sink.cpp:19 | The accumulated size is the base-128 value of the size bytes, reduced modulo 2^32. |
| DescriptorProperties.SizeFoldNoWrap | sink.cpp:19 | A size field of at most four bytes never wraps, and its value is below 2^28. |
| DescriptorProperties.HeaderRoundTrip | sink.cpp:10-24 | A tag followed by a one- to four-byte expandable size field for `n` reads back as that tag and `n`, wherever it stands and whatever follows it. |
| Descriptors.ExtractDecoderSpecificInfo | sink.cpp:26-83 | The pointer-advancing loop returns exactly what the recursive walk from offset 0 returns, so two calls on one cookie give the same bytes. |
| DescriptorProperties.WalkSkipsEsDescriptor | sink.cpp:40-51 | After a tag-3 header the walk continues exactly 3 bytes past the header, ignoring its size field. |
| DescriptorProperties.WalkSkipsDecoderConfig | sink.cpp:52-69 | After a tag-4 header the walk continues exactly 13 bytes past the header, ignoring its size field. |
| DescriptorProperties.WalkSkipsOther | sink.cpp:77-78 | After a header with any tag other than 3, 4 or 5, the walk continues `size` bytes past the header. |
| DescriptorProperties.WalkFindsDescriptor | sink.cpp:38-76 | Any result other than "no DecoderSpecificInfo" comes from the tag-5 header the walk reaches: the first one at a cursor value the loop takes. It is exactly that header's `size` bytes, or the out-of-bounds error. |
| DescriptorProperties.WalkIgnoresSuffix | sink.cpp:70-76 | Once the walk has found its payload, appending bytes to the cookie does not change the result: no later descriptor is examined. |
| DescriptorProperties.WalkNeedsDecSpecificInfo | sink.cpp:38-82 | The walk fails with NoDecoderSpecificInfo, the source's "format is different" error, exactly when no offset it reaches holds a tag-5 header: the descriptors run out, or a skip moves the cursor past the end, before one is seen. |
| DescriptorProperties.SkippedTagIsNotReached | sink.cpp:40-51 | In `03 00 05 01 AA` a tag-5 header can be read at offset 2, inside the skipped ES_Descriptor fields, yet the walk fails: only headers at offsets the walk reaches count. |
| DescriptorProperties.WalkQuickTimeCookie | sink.cpp:30-76 | A cookie laid out as tag 3, tag 4, tag 5, each with a 4-byte size field, yields the config bytes. This holds for any wrapper sizes, any fixed-field contents and anything after the config. |
| AudioConfig.FrequencyIndex | sink.cpp:95 | The sampling frequency index is below 16. |
| AudioConfig.ExplicitRate | sink.cpp:98 | The escaped rate is below 2^24. |
| AudioConfig.ChannelBits | sink.cpp:103 | The channel configuration is below 16. |
| AudioConfig.DecodeAudioSpecificConfig | sink.cpp:85-107 | It fails exactly when the config is shorter than 2 bytes, or shorter than 5 with the escape index. With a plain index the rate is the table entry and the channel configuration comes from byte 1. With the escape index the rate is the explicit 24-bit value read from bytes 1 to 4, and the channel configuration comes from byte 4. |
| AudioConfigProperties.EncodeDecodeRoundTrip | sink.cpp:93-106 | Decoding what an encoder writes for an index, a rate and a channel configuration gives back the index, the table rate (or the explicit rate after an escape) and the channel configuration, whatever follows. |
| AudioConfigProperties.DecodeIgnoresTrailingBytes | sink.cpp:93-103 | Bytes after the fields it needs do not change a successful decoding. |
| AudioConfigProperties.TabulatedRates | sink.cpp:89-102 | For a plain index, the rate is non-zero exactly when the index is below 13, and a defined rate lies between 7350 and 96000. |
| AudioConfigProperties.DecodeLowComplexityStereo | sink.cpp:93-106 | The config `12 10` decodes to index 4, 44100 Hz and channel configuration 2. |
| AudioConfigProperties.DecodeEscapedRate | sink.cpp:97-103 | The config `17 80 56 22 10` decodes to index 15, an explicit 44100 Hz and channel configuration 2. |
| AudioConfigProperties.RateBytesOfFortyFourOne | sink.cpp:95-98 | A byte 1 of 00 cannot complete the escape index, and rate bytes `00 00 AC 44` weigh 344. |
| AudioConfig.AudioSampleEntryChannels | sink.cpp:163-165 | The AudioSampleEntry channel count is 1 or 2, and it is 1 exactly for channel configuration 1. |
| Adts.BuildAdtsHeader | sink.cpp:195-205 | For any input the header has 7 bytes and starts with `FF F1`. Its private bit is 0, its fullness is 0x7FF and its block count is 0. Its index field is the low 4 bits of the index, and its length field is the low 13 bits of `length + 7` (with `size_t` wrap-around). The profile is 1 or-ed with bits 4-5 of the index, the channel configuration is `channelConfig & 7` or-ed with bits 17-18 of `length + 7`, and original_copy, home and the two copyright bits are bits 16-13 of `length + 7`. When the fields fit, it is exactly the AAC-LC header for them. |
| Adts.OrFieldsIntoTemplate | sink.cpp:196-205 | The array, updated in place by one or-assignment per field, holds in each byte the template byte or-ed with the low 8 bits of the values written into it. |
| Adts.BuiltHeaderMeaning | sink.cpp:196-205 | The or-ed bytes read back, field by field, as: profile 1 or-ed with index bits 4-5, private bit 0, the masked index, the channel configuration or-ed with length bits 17-18, the one-bit flags as length bits 16-13, the masked frame length, fullness 0x7FF and block count 0. When the fields fit, they are the writing of the intended header. |
| Adts.SpilledFields | sink.cpp:199-203 | With an index below 16 the profile is 1 (AAC LC) at any length; with a frame length below 2^17 the channel configuration is `channelConfig & 7`; below 2^13 the four one-bit flags are 0. |
| AdtsProperties.ParseSerialize | sink.cpp:196-205 | Reading back a written header record whose fields fit their widths gives the same record. |
| AdtsProperties.SerializeParse | sink.cpp:196-205 | Every 7-byte string reads as a record whose fields fit their widths, and writing that record gives back the string. |
| AdtsProperties.IntendedHeaderReadsBack | sink.cpp:195-205 | The header built for an index below 16 and a frame length below 2^13 reads back with those fields. It has sync word 0xFFF, ID 0, layer 0, no CRC, profile 1 (AAC LC), private bit 0, channel configuration `channelConfig & 7`, fullness 0x7FF and block count 0. |
| AdtsProperties.ReadFirstFrame | sink.cpp:193-207 | A stream that starts with one frame reads as that frame's payload, followed by whatever the rest of the stream reads as. |
| AdtsProperties.FramesReadBack | sink.cpp:193-207 | A run of frames, one per payload, reads back by its length fields as exactly those payloads. |
| AdtsProperties.FramesSnoc | sink.cpp:206-207 | Writing one more frame after the frames of some payloads gives the frames of those payloads plus the new one. |
| Sink.CookieConfig | sink.cpp:151-155 | Both constructors get the cookie's config bytes this way. The error is the walker's or the decoder's, whichever failed. On success the config is what the walk returns, and the decoded values are what the decoder makes of it. |
| Sink.Mp4TrackParameters | sink.cpp:147-172 | The MP4 sink's settings fail exactly when the cookie does. Otherwise the time scale is the decoded rate, the sample duration is 1024 and the ES configuration is the config bytes. The channel count is 1 or 2, and it is 1 exactly for channel configuration 1. |
| Sink.AdtsSink.Open | sink.cpp:176-191 | The ADTS sink fails exactly when the cookie does. Otherwise it starts with empty output and keeps the decoded index and channel configuration. |
| Sink.AdtsSink.WriteSamples | sink.cpp:193-207 | The output grows by the 7-byte header and then the unchanged payload, and the earlier output is kept. For every input the new header has every field `Adts.TemplateFields` gives: `FF F1`, private bit 0, the low 4 bits of the index, the low 13 bits of `length + 7`, fullness 0x7FF, block count 0, and the profile, channel configuration and one-bit flags with the index's and the length's spilled bits. When the index and the payload fit, the new bytes are the payload's AAC-LC frame, and the output stays the frame stream of all payloads written. |
| Sink.Appended | sink.cpp:206-207 | Appending a header and a payload puts each where `WriteSamples` promises. When the index and the payloads fit, together they are the payload's frame, and the output stays the frame stream. |
| Sink.WrittenReadsBack | sink.cpp:193-207 | While everything fits, the ADTS sink's output reads back, frame by frame, as the payloads it was given. |
| Sink.CookieRoundTrip | sink.cpp:147-191 | Given a QuickTime-style cookie around an encoder's AudioSpecificConfig, both sinks set up with that config and its index, rate and channel configuration. |

## Left out

- The mp4v2 library calls are not modelled (`SetTimeScale`, `AddAudioTrack`, `SetIntegerProperty`, `SetTrackESConfiguration`). They belong to a library outside this model. `Sink.Mp4TrackParameters` states only the values the constructor passes to them.
- `MP4SinkBase` (file creation, brands, `close`) and the exception handling are not modelled. They are container-library plumbing.
- `ADTSSink`'s opening of the output file or stdout (`wfopenx`, `_setmode`) is I/O. The output is the sequence `written`.
- The `fwrite` calls are modelled as appending to `written`. The `ferror` check and its "write error" exception are I/O failures, which the model does not have.
- composite.h and alacenc.h are not part of this model. They wrap sources and an encoder defined outside these files.
- The object type (`p[0] >> 3`) is computed by `parseDecSpecificConfig` and then discarded, so the decoder does not return it.
- The `nsamples` argument of `writeSamples` is unused by the source and is not a parameter of `Sink.AdtsSink.WriteSamples`.
- The source copies a tag-5 payload with `memcpy`, without checking that the cookie holds `size` more bytes. The model returns the explicit error `PayloadOutOfBounds` instead of reading past the buffer.
- The source reads `p[1]`, and `p[2]` to `p[4]` after an escape index, without checking the config's length. The model returns the explicit error `ConfigTooShort` instead.
- Sink.AdtsSink.WriteSamples: states the frame it appends, and the frame-stream invariant, only when the index is below 16 and `length + 7` is below 2^13. Outside that range the source's `|=` lets bits 4-5 of an index of 16 or more spill into the profile, and bits 13-18 of a frame length of 2^13 or more spill into original_copy, home, the two copyright bits and the channel configuration. For those inputs the model states every field of the new header as a function of the index, the channel configuration and `length + 7` (`Adts.TemplateFields`), but not that the bytes form a frame of the stream.
- Sink.AdtsSink.WriteSamples: requires the payload's byte count to equal `length`, because the source's `data` pointer is not a sequence with a length of its own.
