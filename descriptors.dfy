/**
 * The descriptor layer of the AAC "magic cookie": the tag/size header of the
 * ISO/IEC 14496-1 expandable-class syntax (section 8.3.3) and the walk over
 * the flat descriptor sequence that pulls out the DecoderSpecificInfo payload.
 *
 * Bytes are `bv8`.  The size accumulator is the `uint32_t` of sink.cpp; it is
 * modelled as a `nat` below 2^32 so that its one statement,
 * `size = (size << 7) | (b & 0x7f)`, becomes multiplication by 128 modulo
 * 2^32 followed by addition of the low seven bits of `b` (the shifted value
 * has its low seven bits clear, so the `|` adds).  A cursor is a `nat` offset
 * into the cookie; like the C++ pointer it may be moved past the end by a
 * fixed skip, after which no further header is read.
 */
module Descriptors {
  import opened Wrappers

  const ES_DESCR_TAG: bv8 := 3
  const DECODER_CONFIG_DESCR_TAG: bv8 := 4
  const DEC_SPECIFIC_INFO_TAG: bv8 := 5

  /** ES_ID (16 bits), three flags and streamPriority (5 bits), all flags assumed zero. */
  const ES_DESCR_FIXED_BYTES: nat := 3
  /** objectTypeId, streamType, upStream, reserved, bufferSizeDB, maxBitrate, avgBitrate. */
  const DECODER_CONFIG_FIXED_BYTES: nat := 13

  const SIZE_MODULUS: nat := 0x1_0000_0000

  /** A parsed descriptor header: its tag, its declared size (below 2^32), and the offset of its payload. */
  datatype DescriptorHeader = DescriptorHeader(tag: bv8, size: nat, next: nat)

  datatype CookieError =
    | NoDecoderSpecificInfo   // the descriptor sequence ended before a tag-5 descriptor
    | PayloadOutOfBounds      // the tag-5 descriptor declares more bytes than the cookie holds

  /** Bit 7 of a size byte: another size byte follows. */
  predicate HasMore(b: bv8) {
    b & 0x80 != 0
  }

  /** The seven value bits of a size byte. */
  function Group(b: bv8): (g: nat)
    ensures g < 128
  {
    (b & 0x7f) as int
  }

  /** One step of the size accumulator of sink.cpp: shift left by 7 in 32 bits, then put the byte's seven value bits in. */
  function Accumulate(size: nat, b: bv8): (r: nat)
    ensures r < SIZE_MODULUS
  {
    (size * 128 + Group(b)) % SIZE_MODULUS
  }

  /** The value sink.cpp accumulates over the size bytes `bs`, starting from 0. */
  function SizeFold(bs: seq<bv8>): (r: nat)
    ensures r < SIZE_MODULUS
  {
    if |bs| == 0 then 0 else Accumulate(SizeFold(bs[..|bs| - 1]), bs[|bs| - 1])
  }

  lemma SizeFoldSnoc(bs: seq<bv8>, b: bv8)
    ensures SizeFold(bs + [b]) == Accumulate(SizeFold(bs), b)
  {
    assert (bs + [b])[..|bs|] == bs;
  }

  /** Taking one more size byte into the fold is one step of the accumulator. */
  lemma SizeFoldStep(buf: seq<bv8>, pos: nat, next: nat)
    requires pos + 1 <= next < |buf|
    ensures SizeFold(buf[pos + 1 .. next + 1]) == Accumulate(SizeFold(buf[pos + 1 .. next]), buf[next])
  {
    assert buf[pos + 1 .. next + 1] == buf[pos + 1 .. next] + [buf[next]];
    SizeFoldSnoc(buf[pos + 1 .. next], buf[next]);
  }

  /** The offset of the first byte at or after `i` without a continuation bit, or `|buf|` if there is none. */
  function SizeFieldEnd(buf: seq<bv8>, i: nat): (j: nat)
    requires i <= |buf|
    ensures i <= j <= |buf|
    ensures forall k :: i <= k < j ==> HasMore(buf[k])
    ensures j < |buf| ==> !HasMore(buf[j])
    decreases |buf| - i
  {
    if i == |buf| || !HasMore(buf[i]) then i else SizeFieldEnd(buf, i + 1)
  }

  /** The descriptor header starting at `pos`, if a complete one is there. */
  function ParseHeader(buf: seq<bv8>, pos: nat): (r: Option<DescriptorHeader>)
    ensures r.Some? ==> pos + 2 <= r.value.next <= |buf|
  {
    if pos >= |buf| then None
    else
      var j := SizeFieldEnd(buf, pos + 1);
      if j == |buf| then None
      else Some(DescriptorHeader(buf[pos], SizeFold(buf[pos + 1 .. j + 1]), j + 1))
  }

  /**
   * No header can be read exactly when the cursor is at or past the end, or
   * every byte after the tag has its continuation bit set.  Otherwise the
   * header is the tag byte and the size bytes up to and including the first
   * one whose bit 7 is clear, and its size is the 32-bit fold over them.
   */
  lemma ParseHeaderMeaning(buf: seq<bv8>, pos: nat)
    ensures ParseHeader(buf, pos).None? <==> pos >= |buf| || forall k :: pos < k < |buf| ==> HasMore(buf[k])
    ensures ParseHeader(buf, pos).Some? ==>
      var h := ParseHeader(buf, pos).value;
      && h.tag == buf[pos]
      && (forall k :: pos < k < h.next - 1 ==> HasMore(buf[k]))
      && !HasMore(buf[h.next - 1])
      && h.size == SizeFold(buf[pos + 1 .. h.next])
  {
    if pos < |buf| && SizeFieldEnd(buf, pos + 1) < |buf| {
      var j := SizeFieldEnd(buf, pos + 1);
      assert !HasMore(buf[j]);
    }
  }

  /** The bytes from `pos` to `next` are a complete header: continuation bits up to the last byte, which has none. */
  lemma ParseHeaderAt(buf: seq<bv8>, pos: nat, next: nat)
    requires pos + 2 <= next <= |buf|
    requires forall k :: pos < k < next - 1 ==> HasMore(buf[k])
    requires !HasMore(buf[next - 1])
    ensures ParseHeader(buf, pos) == Some(DescriptorHeader(buf[pos], SizeFold(buf[pos + 1 .. next]), next))
  {
    assert SizeFieldEnd(buf, pos + 1) == next - 1;
  }

  /**
   * Reads one descriptor header at `pos`: the tag byte, then size bytes up to
   * and including the first one whose bit 7 is clear.  On failure `next` is
   * where the C++ code leaves its pointer and `size` is what it accumulated.
   * When `pos` is inside the buffer the tag byte is read before the size can
   * fail, as in the C++ code; when it is at or past the end the C++ code
   * leaves the tag out-parameter untouched, and `tag` is 0 here.
   */
  method ReadDescriptorHeader(buf: seq<bv8>, pos: nat) returns (ok: bool, tag: bv8, size: nat, next: nat)
    ensures ok <==> ParseHeader(buf, pos).Some?
    ensures ok ==> ParseHeader(buf, pos).value == DescriptorHeader(tag, size, next)
    ensures !ok ==> next == (if pos < |buf| then |buf| else pos)
    ensures !ok ==> size == (if pos < |buf| then SizeFold(buf[pos + 1 ..]) else 0)
  {
    ok, tag, size, next := false, 0, 0, pos;
    if next < |buf| {
      tag := buf[next];
      next := next + 1;
      while next < |buf|
        invariant pos + 1 <= next <= |buf|
        invariant size == SizeFold(buf[pos + 1 .. next])
        invariant forall k :: pos < k < next ==> HasMore(buf[k])
      {
        var n := buf[next];
        SizeFoldStep(buf, pos, next);
        next := next + 1;
        size := Accumulate(size, n);
        if !HasMore(n) {
          ParseHeaderAt(buf, pos, next);
          ok := true;
          return;
        }
      }
      assert buf[pos + 1 ..] == buf[pos + 1 .. next];
    }
  }

  /** Where the walk continues after a header whose tag is not 5. */
  function SkipTarget(h: DescriptorHeader): nat {
    if h.tag == ES_DESCR_TAG then h.next + ES_DESCR_FIXED_BYTES
    else if h.tag == DECODER_CONFIG_DESCR_TAG then h.next + DECODER_CONFIG_FIXED_BYTES
    else h.next + h.size
  }

  /** The `size` bytes after a tag-5 header, or an error if the cookie is shorter than that. */
  function Payload(buf: seq<bv8>, h: DescriptorHeader): Result<seq<bv8>, CookieError> {
    if h.next + h.size <= |buf| then Ok(buf[h.next .. h.next + h.size])
    else Err(PayloadOutOfBounds)
  }

  /** The walk over the descriptor sequence from `pos`, as a recursive definition. */
  function Walk(buf: seq<bv8>, pos: nat): Result<seq<bv8>, CookieError>
    decreases |buf| - pos
  {
    match ParseHeader(buf, pos)
    case None => Err(NoDecoderSpecificInfo)
    case Some(h) =>
      if h.tag == DEC_SPECIFIC_INFO_TAG then Payload(buf, h) else Walk(buf, SkipTarget(h))
  }

  /**
   * Scans the cookie's descriptors from its start and returns the payload of
   * the first DecoderSpecificInfo (tag 5).  Tags 3 and 4 skip their fixed
   * fields, any other tag skips its declared size.
   */
  method ExtractDecoderSpecificInfo(cookie: seq<bv8>) returns (r: Result<seq<bv8>, CookieError>)
    ensures r == Walk(cookie, 0)
  {
    var p: nat := 0;
    var ok, tag, size, next := ReadDescriptorHeader(cookie, p);
    while ok
      invariant Walk(cookie, p) == Walk(cookie, 0)
      invariant ok <==> ParseHeader(cookie, p).Some?
      invariant ok ==> ParseHeader(cookie, p).value == DescriptorHeader(tag, size, next)
      decreases |cookie| - p
    {
      ghost var h := DescriptorHeader(tag, size, next);
      ghost var here := p;
      assert Walk(cookie, here) == if tag == DEC_SPECIFIC_INFO_TAG then Payload(cookie, h) else Walk(cookie, SkipTarget(h));
      p := next;
      if tag == ES_DESCR_TAG {
        p := p + ES_DESCR_FIXED_BYTES;
      } else if tag == DECODER_CONFIG_DESCR_TAG {
        p := p + DECODER_CONFIG_FIXED_BYTES;
      } else if tag == DEC_SPECIFIC_INFO_TAG {
        if p + size <= |cookie| {
          return Ok(cookie[p .. p + size]);
        }
        return Err(PayloadOutOfBounds);
      } else {
        p := p + size;
      }
      assert p == SkipTarget(h);
      ok, tag, size, next := ReadDescriptorHeader(cookie, p);
    }
    return Err(NoDecoderSpecificInfo);
  }
}
