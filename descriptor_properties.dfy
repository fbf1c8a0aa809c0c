/**
 * Properties of the descriptor header reader and of the cookie walk: the
 * 32-bit wrap of the size accumulator, a round trip against the
 * expandable-class size encoding of ISO/IEC 14496-1 section 8.3.3, and what
 * the walk returns and when it fails.
 */
module DescriptorProperties {
  import opened Wrappers
  import opened Descriptors

  // ---------------------------------------------------------------------
  // The size accumulator

  /** The base-128 number the size bytes spell, most significant group first, with no bound. */
  function Base128(bs: seq<bv8>): nat {
    if |bs| == 0 then 0 else Base128(bs[..|bs| - 1]) * 128 + Group(bs[|bs| - 1])
  }

  function Pow128(k: nat): (p: nat)
    ensures p >= 1
  {
    if k == 0 then 1 else 128 * Pow128(k - 1)
  }

  /** Reducing modulo 2^32 before or after one accumulation step gives the same value. */
  lemma ModStep(x: nat, g: nat)
    ensures ((x % SIZE_MODULUS) * 128 + g) % SIZE_MODULUS == (x * 128 + g) % SIZE_MODULUS
  {
    var q := x / SIZE_MODULUS;
    assert x * 128 + g == (q * 128) * SIZE_MODULUS + ((x % SIZE_MODULUS) * 128 + g);
  }

  /** The accumulated size is the base-128 value of the size bytes, wrapped to 32 bits. */
  lemma {:induction false} SizeFoldIsBase128(bs: seq<bv8>)
    ensures SizeFold(bs) == Base128(bs) % SIZE_MODULUS
  {
    if |bs| > 0 {
      var init := bs[..|bs| - 1];
      SizeFoldIsBase128(init);
      ModStep(Base128(init), Group(bs[|bs| - 1]));
    }
  }

  /** `k` size bytes spell a number below 128^k. */
  lemma {:induction false} Base128Bound(bs: seq<bv8>)
    ensures Base128(bs) < Pow128(|bs|)
  {
    if |bs| > 0 {
      Base128Bound(bs[..|bs| - 1]);
    }
  }

  lemma Pow128Four()
    ensures Pow128(4) == 0x1000_0000
  {
  }

  /** A size field of at most four bytes, the longest the standard writes, never wraps. */
  lemma SizeFoldNoWrap(bs: seq<bv8>)
    requires |bs| <= 4
    ensures SizeFold(bs) == Base128(bs) < 0x1000_0000
  {
    SizeFoldIsBase128(bs);
    Base128Bound(bs);
    Pow128Monotone(|bs|, 4);
    Pow128Four();
  }

  lemma {:induction false} Pow128Monotone(j: nat, k: nat)
    requires j <= k
    ensures Pow128(j) <= Pow128(k)
    decreases k
  {
    if j < k {
      Pow128Monotone(j, k - 1);
    }
  }

  // ---------------------------------------------------------------------
  // The expandable-class size encoding, as a writer of the format produces it

  // Byte-level facts, kept apart so that each solver query mixes as little
  // bit-vector and integer reasoning as possible.
  lemma SetBit(b: bv8)
    ensures (b | 0x80) & 0x7f == b & 0x7f && (b | 0x80) & 0x80 != 0
  {
  }

  lemma ByteOfGroup(g: nat)
    requires g < 128
    ensures (g as bv8) as int == g && g as bv8 < 0x80
  {
  }

  lemma LowByte(b: bv8)
    requires b < 0x80
    ensures b & 0x7f == b && b & 0x80 == 0
  {
  }

  /** A size byte carrying the seven-bit group `g` with the continuation bit set. */
  function ContinuationByte(g: nat): (b: bv8)
    requires g < 128
    ensures HasMore(b) && Group(b) == g
  {
    ByteOfGroup(g);
    LowByte(g as bv8);
    SetBit(g as bv8);
    (g as bv8) | 0x80
  }

  /** The last size byte, carrying the seven-bit group `g` with the continuation bit clear. */
  function FinalByte(g: nat): (b: bv8)
    requires g < 128
    ensures !HasMore(b) && Group(b) == g
  {
    ByteOfGroup(g);
    LowByte(g as bv8);
    g as bv8
  }

  /** The low `j` seven-bit groups of `m`, most significant first, each with its continuation bit set. */
  function Continuation(m: nat, j: nat): (bs: seq<bv8>)
    ensures |bs| == j
    ensures forall i :: 0 <= i < j ==> HasMore(bs[i])
  {
    if j == 0 then [] else Continuation(m / 128, j - 1) + [ContinuationByte(m % 128)]
  }

  /** A `k`-byte size field for `n`: continuation bytes, then a final byte with bit 7 clear. */
  function SizeField(n: nat, k: nat): (bs: seq<bv8>)
    requires 1 <= k
    ensures |bs| == k && !HasMore(bs[k - 1])
    ensures forall i :: 0 <= i < k - 1 ==> HasMore(bs[i])
  {
    Continuation(n / 128, k - 1) + [FinalByte(n % 128)]
  }

  lemma Base128Snoc(bs: seq<bv8>, b: bv8)
    ensures Base128(bs + [b]) == Base128(bs) * 128 + Group(b)
  {
    assert (bs + [b])[..|bs|] == bs;
  }

  lemma {:induction false} ContinuationValue(m: nat, j: nat)
    requires m < Pow128(j)
    ensures Base128(Continuation(m, j)) == m
  {
    if j > 0 {
      ContinuationValue(m / 128, j - 1);
      Base128Snoc(Continuation(m / 128, j - 1), ContinuationByte(m % 128));
    }
  }

  /** A `k`-byte size field spells exactly the number it was written for. */
  lemma SizeFieldValue(n: nat, k: nat)
    requires 1 <= k && n < Pow128(k)
    ensures Base128(SizeField(n, k)) == n
  {
    ContinuationValue(n / 128, k - 1);
    Base128Snoc(Continuation(n / 128, k - 1), FinalByte(n % 128));
  }

  lemma FieldAt(head: seq<bv8>, field: seq<bv8>, rest: seq<bv8>)
    ensures (head + field + rest)[|head| .. |head| + |field|] == field
  {
  }

  /** A tag at `p` followed by a well-formed size field is one header. */
  lemma HeaderAt(buf: seq<bv8>, p: nat, tag: bv8, field: seq<bv8>)
    requires |field| >= 1 && p + 1 + |field| <= |buf|
    requires buf[p] == tag && buf[p + 1 .. p + 1 + |field|] == field
    requires !HasMore(field[|field| - 1])
    requires forall i :: 0 <= i < |field| - 1 ==> HasMore(field[i])
    ensures ParseHeader(buf, p) == Some(DescriptorHeader(tag, SizeFold(field), p + 1 + |field|))
  {
    var next := p + 1 + |field|;
    forall k | p < k < next - 1
      ensures HasMore(buf[k])
    {
      assert buf[k] == field[k - p - 1];
    }
    assert buf[next - 1] == field[|field| - 1];
    ParseHeaderAt(buf, p, next);
  }

  /**
   * A header written as a tag and a size field of one to four bytes is read
   * back with that tag and size, wherever it stands and whatever follows it.
   */
  lemma HeaderRoundTrip(pre: seq<bv8>, tag: bv8, n: nat, k: nat, rest: seq<bv8>)
    requires 1 <= k <= 4 && n < Pow128(k)
    ensures ParseHeader(pre + [tag] + SizeField(n, k) + rest, |pre|)
         == Some(DescriptorHeader(tag, n, |pre| + 1 + k))
  {
    var buf := pre + [tag] + SizeField(n, k) + rest;
    FieldAt(pre + [tag], SizeField(n, k), rest);
    assert buf[|pre|] == tag;
    HeaderAt(buf, |pre|, tag, SizeField(n, k));
    SizeFieldValue(n, k);
    SizeFoldNoWrap(SizeField(n, k));
  }

  // ---------------------------------------------------------------------
  // The walk

  /** After a header whose tag is not 5 the walk goes on at that header's skip target. */
  lemma WalkContinues(buf: seq<bv8>, pos: nat, h: DescriptorHeader)
    requires ParseHeader(buf, pos) == Some(h) && h.tag != DEC_SPECIFIC_INFO_TAG
    ensures Walk(buf, pos) == Walk(buf, SkipTarget(h))
  {
  }

  /**
   * Two cursors that are equal start the same walk.  The skip lemmas below
   * use it to restate the skip target as `h.next` plus the tag's fixed
   * width; without it the verifier matches the two forms unreliably.
   */
  lemma WalkFrom(buf: seq<bv8>, p: nat, q: nat)
    requires p == q
    ensures Walk(buf, p) == Walk(buf, q)
  {
  }

  /** An ES_Descriptor header moves the walk 3 bytes past it, whatever its size field says. */
  lemma WalkSkipsEsDescriptor(buf: seq<bv8>, pos: nat, h: DescriptorHeader)
    requires ParseHeader(buf, pos) == Some(h) && h.tag == ES_DESCR_TAG
    ensures Walk(buf, pos) == Walk(buf, h.next + 3)
  {
    WalkContinues(buf, pos, h);
    WalkFrom(buf, SkipTarget(h), h.next + 3);
  }

  /** A DecoderConfigDescriptor header moves the walk 13 bytes past it, whatever its size field says. */
  lemma WalkSkipsDecoderConfig(buf: seq<bv8>, pos: nat, h: DescriptorHeader)
    requires ParseHeader(buf, pos) == Some(h) && h.tag == DECODER_CONFIG_DESCR_TAG
    ensures Walk(buf, pos) == Walk(buf, h.next + 13)
  {
    WalkContinues(buf, pos, h);
    WalkFrom(buf, SkipTarget(h), h.next + 13);
  }

  /** Any other non-payload header moves the walk past the `size` bytes it declares. */
  lemma WalkSkipsOther(buf: seq<bv8>, pos: nat, h: DescriptorHeader)
    requires ParseHeader(buf, pos) == Some(h)
    requires h.tag != ES_DESCR_TAG && h.tag != DECODER_CONFIG_DESCR_TAG && h.tag != DEC_SPECIFIC_INFO_TAG
    ensures Walk(buf, pos) == Walk(buf, h.next + h.size)
  {
    WalkContinues(buf, pos, h);
    WalkFrom(buf, SkipTarget(h), h.next + h.size);
  }

  /** A complete header stays the same header when more bytes follow the buffer. */
  lemma ParseHeaderExtends(buf: seq<bv8>, pos: nat, tail: seq<bv8>)
    requires ParseHeader(buf, pos).Some?
    ensures ParseHeader(buf + tail, pos) == ParseHeader(buf, pos)
  {
    var h := ParseHeader(buf, pos).value;
    var ext := buf + tail;
    ParseHeaderMeaning(buf, pos);
    assert forall k :: pos <= k < h.next ==> ext[k] == buf[k];
    assert ext[pos + 1 .. h.next] == buf[pos + 1 .. h.next];
    ParseHeaderAt(ext, pos, h.next);
  }

  /** Once the walk has found its payload, nothing after it in the cookie can change the result. */
  lemma {:induction false} WalkIgnoresSuffix(buf: seq<bv8>, pos: nat, tail: seq<bv8>)
    requires Walk(buf, pos).Ok?
    ensures Walk(buf + tail, pos) == Walk(buf, pos)
    decreases |buf| - pos
  {
    var h := ParseHeader(buf, pos).value;
    ParseHeaderExtends(buf, pos, tail);
    if h.tag == DEC_SPECIFIC_INFO_TAG {
      assert (buf + tail)[h.next .. h.next + h.size] == buf[h.next .. h.next + h.size];
    } else {
      WalkIgnoresSuffix(buf, SkipTarget(h), tail);
    }
  }

  /** A DecoderSpecificInfo header starts at `q`. */
  predicate IsDecSpecificInfoAt(buf: seq<bv8>, q: nat) {
    ParseHeader(buf, q).Some? && ParseHeader(buf, q).value.tag == DEC_SPECIFIC_INFO_TAG
  }

  /**
   * The walk from `pos` reaches offset `q`: `q` is `pos`, or a header other
   * than a DecoderSpecificInfo starts at `pos` and the walk from its skip
   * target reaches `q`.  The offsets reached are exactly the cursor values
   * the loop of sink.cpp takes, up to the first tag-5 header.
   */
  predicate Reaches(buf: seq<bv8>, pos: nat, q: nat)
    decreases |buf| - pos
  {
    q == pos
    || (ParseHeader(buf, pos).Some? && ParseHeader(buf, pos).value.tag != DEC_SPECIFIC_INFO_TAG
        && Reaches(buf, SkipTarget(ParseHeader(buf, pos).value), q))
  }

  /**
   * Unless the walk reports that the descriptors ran out, its result comes
   * from the tag-5 header it reaches: exactly that descriptor's `size` bytes
   * after its header, or the out-of-bounds error.
   */
  lemma {:induction false} WalkFindsDescriptor(buf: seq<bv8>, pos: nat) returns (q: nat)
    requires Walk(buf, pos) != Err(NoDecoderSpecificInfo)
    ensures pos <= q && Reaches(buf, pos, q) && IsDecSpecificInfoAt(buf, q)
    ensures Walk(buf, pos) == Payload(buf, ParseHeader(buf, q).value)
    ensures Walk(buf, pos).Ok? ==> |Walk(buf, pos).value| == ParseHeader(buf, q).value.size
    decreases |buf| - pos
  {
    var h := ParseHeader(buf, pos).value;
    if h.tag == DEC_SPECIFIC_INFO_TAG {
      q := pos;
    } else {
      q := WalkFindsDescriptor(buf, SkipTarget(h));
    }
  }

  /** A tag-5 header that the walk reaches ends it with a payload or the out-of-bounds error. */
  lemma {:induction false} WalkStopsAtReached(buf: seq<bv8>, pos: nat, q: nat)
    requires Reaches(buf, pos, q) && IsDecSpecificInfoAt(buf, q)
    ensures Walk(buf, pos) != Err(NoDecoderSpecificInfo)
    decreases |buf| - pos
  {
    if q != pos {
      WalkStopsAtReached(buf, SkipTarget(ParseHeader(buf, pos).value), q);
    }
  }

  /**
   * The walk fails with the "format is different" error exactly when no
   * offset it reaches holds a tag-5 header: the descriptors run out, or a
   * skip moves the cursor past the end, before one is seen.
   */
  lemma WalkNeedsDecSpecificInfo(buf: seq<bv8>, pos: nat)
    ensures Walk(buf, pos) == Err(NoDecoderSpecificInfo) <==>
      forall q :: Reaches(buf, pos, q) ==> !IsDecSpecificInfoAt(buf, q)
  {
    if Walk(buf, pos) != Err(NoDecoderSpecificInfo) {
      var q := WalkFindsDescriptor(buf, pos);
    } else {
      forall q | Reaches(buf, pos, q) ensures !IsDecSpecificInfoAt(buf, q) {
        if IsDecSpecificInfoAt(buf, q) {
          WalkStopsAtReached(buf, pos, q);
        }
      }
    }
  }

  /** A tag-5 byte inside skipped fixed fields is not reached: `03 00 05 01 AA` has none for the walk. */
  lemma SkippedTagIsNotReached()
    ensures IsDecSpecificInfoAt([0x03, 0x00, 0x05, 0x01, 0xAA], 2)
    ensures Walk([0x03, 0x00, 0x05, 0x01, 0xAA], 0) == Err(NoDecoderSpecificInfo)
  {
    var buf: seq<bv8> := [0x03, 0x00, 0x05, 0x01, 0xAA];
    ParseHeaderAt(buf, 2, 4);
    ParseHeaderAt(buf, 0, 2);
    assert ParseHeader(buf, 5).None?;
  }

  /**
   * The cookie QuickTime produces: an ES_Descriptor with its 3 fixed bytes, a
   * DecoderConfigDescriptor with its 13 fixed bytes, then the
   * DecoderSpecificInfo, each with a 4-byte size field, then anything.
   */
  function QuickTimeCookie(esSize: nat, esFields: seq<bv8>, dcSize: nat, dcFields: seq<bv8>,
                           config: seq<bv8>, tail: seq<bv8>): seq<bv8>
  {
    [ES_DESCR_TAG] + SizeField(esSize, 4) + esFields
    + [DECODER_CONFIG_DESCR_TAG] + SizeField(dcSize, 4) + dcFields
    + [DEC_SPECIFIC_INFO_TAG] + SizeField(|config|, 4) + config
    + tail
  }

  /**
   * The walk returns such a cookie's config bytes, whatever the two wrapper
   * descriptors declare as their sizes, whatever their fixed fields hold, and
   * whatever follows (a later tag-5 descriptor included).
   */
  lemma WalkQuickTimeCookie(esSize: nat, esFields: seq<bv8>, dcSize: nat, dcFields: seq<bv8>,
                            config: seq<bv8>, tail: seq<bv8>)
    requires esSize < 0x1000_0000 && dcSize < 0x1000_0000 && |config| < 0x1000_0000
    requires |esFields| == ES_DESCR_FIXED_BYTES && |dcFields| == DECODER_CONFIG_FIXED_BYTES
    ensures Walk(QuickTimeCookie(esSize, esFields, dcSize, dcFields, config, tail), 0) == Ok(config)
  {
    var cookie := QuickTimeCookie(esSize, esFields, dcSize, dcFields, config, tail);
    var pre1 := [ES_DESCR_TAG] + SizeField(esSize, 4) + esFields;
    var pre2 := pre1 + [DECODER_CONFIG_DESCR_TAG] + SizeField(dcSize, 4) + dcFields;
    var rest2 := config + tail;
    var rest1 := dcFields + [DEC_SPECIFIC_INFO_TAG] + SizeField(|config|, 4) + rest2;
    var rest0 := esFields + [DECODER_CONFIG_DESCR_TAG] + SizeField(dcSize, 4) + rest1;
    assert cookie == [] + [ES_DESCR_TAG] + SizeField(esSize, 4) + rest0;
    assert cookie == pre1 + [DECODER_CONFIG_DESCR_TAG] + SizeField(dcSize, 4) + rest1;
    assert cookie == pre2 + [DEC_SPECIFIC_INFO_TAG] + SizeField(|config|, 4) + rest2;
    Pow128Four();
    WalkPastWrapper([], ES_DESCR_TAG, esSize, rest0, 3);
    WalkPastWrapper(pre1, DECODER_CONFIG_DESCR_TAG, dcSize, rest1, 13);
    WalkAtPayload(pre2, config, tail);
  }

  /** The walk steps over a tag-3 or tag-4 header with a 4-byte size field and its fixed bytes. */
  lemma WalkPastWrapper(pre: seq<bv8>, tag: bv8, n: nat, rest: seq<bv8>, fixed: nat)
    requires n < Pow128(4)
    requires tag == ES_DESCR_TAG || tag == DECODER_CONFIG_DESCR_TAG
    requires fixed == if tag == ES_DESCR_TAG then ES_DESCR_FIXED_BYTES else DECODER_CONFIG_FIXED_BYTES
    ensures Walk(pre + [tag] + SizeField(n, 4) + rest, |pre|)
         == Walk(pre + [tag] + SizeField(n, 4) + rest, |pre| + 5 + fixed)
  {
    var buf := pre + [tag] + SizeField(n, 4) + rest;
    HeaderRoundTrip(pre, tag, n, 4, rest);
    WalkContinues(buf, |pre|, ParseHeader(buf, |pre|).value);
  }

  /** At a tag-5 header with a 4-byte size field the walk returns the bytes that size announces. */
  lemma WalkAtPayload(pre: seq<bv8>, config: seq<bv8>, tail: seq<bv8>)
    requires |config| < Pow128(4)
    ensures Walk(pre + [DEC_SPECIFIC_INFO_TAG] + SizeField(|config|, 4) + (config + tail), |pre|) == Ok(config)
  {
    var buf := pre + [DEC_SPECIFIC_INFO_TAG] + SizeField(|config|, 4) + (config + tail);
    HeaderRoundTrip(pre, DEC_SPECIFIC_INFO_TAG, |config|, 4, config + tail);
    assert buf[|pre| + 5 .. |pre| + 5 + |config|] == config;
  }
}
