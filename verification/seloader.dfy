/** The record layout of the SELoader signaturelet
    (src/signaturelet/SELoader.h): a packed signature header and packed tag
    records, the tag identifiers, the hash-algorithm codes and the flag
    bits. The structures are packed, so every field sits at a fixed byte
    offset; multi-byte fields are stored little-endian here. */
module SELoader {
  import opened Base
  import Signlet

  /** uint16_t and uint32_t. */
  type u16 = x: int | 0 <= x < 0x1_0000
  type u32 = x: int | 0 <= x < 0x1_0000_0000

  // ---------------------------------------------------------------------
  // Little-endian integers
  // ---------------------------------------------------------------------

  /** A uint16_t as two bytes, least significant first. */
  function EncodeU16(x: u16): (r: seq<byte>)
    ensures |r| == 2
  {
    [x % 256, x / 256]
  }

  /** Two bytes, least significant first, as a uint16_t. */
  function DecodeU16(bs: seq<byte>): (r: u16)
    requires |bs| == 2
  {
    bs[0] as int + 256 * (bs[1] as int)
  }

  /** A uint32_t as four bytes, least significant first. */
  function EncodeU32(x: u32): (r: seq<byte>)
    ensures |r| == 4
  {
    var q1 := x / 256;
    var q2 := q1 / 256;
    [x % 256, q1 % 256, q2 % 256, q2 / 256]
  }

  /** Four bytes, least significant first, as a uint32_t. */
  function DecodeU32(bs: seq<byte>): (r: u32)
    requires |bs| == 4
  {
    bs[0] as int + 256 * (bs[1] as int + 256 * (bs[2] as int + 256 * (bs[3] as int)))
  }

  lemma U16RoundTrip(x: u16)
    ensures DecodeU16(EncodeU16(x)) == x
  {
  }

  lemma U16Canonical(bs: seq<byte>)
    requires |bs| == 2
    ensures EncodeU16(DecodeU16(bs)) == bs
  {
  }

  /** Decoding an encoded uint32_t gives it back. */
  lemma U32RoundTrip(x: u32)
    ensures DecodeU32(EncodeU32(x)) == x
  {
    var q1 := x / 256;
    var q2 := q1 / 256;
    assert x == x % 256 + 256 * q1;
    assert q1 == q1 % 256 + 256 * q2;
    assert q2 == q2 % 256 + 256 * (q2 / 256);
  }

  /** Every four bytes are the encoding of the value they decode to. */
  lemma U32Canonical(bs: seq<byte>)
    requires |bs| == 4
    ensures EncodeU32(DecodeU32(bs)) == bs
  {
    var x := DecodeU32(bs);
    var q1: int := bs[1] as int + 256 * (bs[2] as int + 256 * (bs[3] as int));
    var q2: int := bs[2] as int + 256 * (bs[3] as int);
    assert x == bs[0] + 256 * q1;
    assert x / 256 == q1 && x % 256 == bs[0];
    assert q1 / 256 == q2 && q1 % 256 == bs[1];
    assert q2 / 256 == bs[3] && q2 % 256 == bs[2];
  }

  // ---------------------------------------------------------------------
  // SEL_SIGNATURE_HEADER
  // ---------------------------------------------------------------------

  /** SelSignatureRevision. */
  const SignatureRevision: byte := 1

  /** SelSigantureMagic: the ASCII bytes 'S', 'E', 'L', 'S'. */
  const MagicBytes: seq<byte> := [0x53, 0x45, 0x4C, 0x53]

  /** SEL_SIGNATURE_HEADER. */
  datatype Header = Header(
    magic: u32,
    revision: byte,
    headerSize: u32,
    tagDirectorySize: u32,
    numberOfTag: u32,
    payloadSize: u32,
    flags: u32)

  /** The packed size of a header and the offset of each of its fields. */
  const HeaderLength: nat := 25
  const MagicOffset: nat := 0
  const RevisionOffset: nat := 4
  const HeaderSizeOffset: nat := 5
  const TagDirectorySizeOffset: nat := 9
  const NumberOfTagOffset: nat := 13
  const PayloadSizeOffset: nat := 17
  const FlagsOffset: nat := 21

  /** The four bytes at an offset, as a uint32_t. */
  function U32At(bs: seq<byte>, off: nat): u32
    requires off + 4 <= |bs|
  {
    DecodeU32(bs[off..off + 4])
  }

  /** The packed form of a header, field by field in declaration order. */
  function EncodeHeader(h: Header): (r: seq<byte>)
    ensures |r| == HeaderLength
    ensures r[MagicOffset..MagicOffset + 4] == EncodeU32(h.magic)
    ensures r[RevisionOffset] == h.revision
    ensures r[HeaderSizeOffset..HeaderSizeOffset + 4] == EncodeU32(h.headerSize)
    ensures r[TagDirectorySizeOffset..TagDirectorySizeOffset + 4] == EncodeU32(h.tagDirectorySize)
    ensures r[NumberOfTagOffset..NumberOfTagOffset + 4] == EncodeU32(h.numberOfTag)
    ensures r[PayloadSizeOffset..PayloadSizeOffset + 4] == EncodeU32(h.payloadSize)
    ensures r[FlagsOffset..FlagsOffset + 4] == EncodeU32(h.flags)
  {
    var r := EncodeU32(h.magic) + [h.revision] + EncodeU32(h.headerSize) + EncodeU32(h.tagDirectorySize)
             + EncodeU32(h.numberOfTag) + EncodeU32(h.payloadSize) + EncodeU32(h.flags);
    assert r[MagicOffset..MagicOffset + 4] == EncodeU32(h.magic);
    assert r[HeaderSizeOffset..HeaderSizeOffset + 4] == EncodeU32(h.headerSize);
    assert r[TagDirectorySizeOffset..TagDirectorySizeOffset + 4] == EncodeU32(h.tagDirectorySize);
    assert r[NumberOfTagOffset..NumberOfTagOffset + 4] == EncodeU32(h.numberOfTag);
    assert r[PayloadSizeOffset..PayloadSizeOffset + 4] == EncodeU32(h.payloadSize);
    assert r[FlagsOffset..FlagsOffset + 4] == EncodeU32(h.flags);
    r
  }

  /** Reading a header from the front of a buffer: every field from its
      offset; a buffer shorter than the packed size holds no header. */
  function DecodeHeader(bs: seq<byte>): (r: Option<Header>)
    ensures r.Some? <==> |bs| >= HeaderLength
  {
    if |bs| < HeaderLength then None
    else Some(Header(
      U32At(bs, MagicOffset),
      bs[RevisionOffset],
      U32At(bs, HeaderSizeOffset),
      U32At(bs, TagDirectorySizeOffset),
      U32At(bs, NumberOfTagOffset),
      U32At(bs, PayloadSizeOffset),
      U32At(bs, FlagsOffset)))
  }

  /** Every header survives a round trip through its packed form, whatever
      follows it in the buffer. */
  lemma HeaderRoundTrip(h: Header, rest: seq<byte>)
    ensures DecodeHeader(EncodeHeader(h) + rest) == Some(h)
  {
    var e := EncodeHeader(h);
    var bs := e + rest;
    assert bs[..HeaderLength] == e;
    assert forall off: nat :: off + 4 <= HeaderLength ==> U32At(bs, off) == U32At(e, off) by {
      forall off: nat | off + 4 <= HeaderLength
        ensures U32At(bs, off) == U32At(e, off)
      {
        assert bs[off..off + 4] == e[off..off + 4];
      }
    }
    U32RoundTrip(h.magic);
    U32RoundTrip(h.headerSize);
    U32RoundTrip(h.tagDirectorySize);
    U32RoundTrip(h.numberOfTag);
    U32RoundTrip(h.payloadSize);
    U32RoundTrip(h.flags);
  }

  /** Every 25 bytes are the packed form of the header they decode to. */
  lemma HeaderCanonical(bs: seq<byte>)
    requires |bs| == HeaderLength
    ensures EncodeHeader(DecodeHeader(bs).value) == bs
  {
    var h := DecodeHeader(bs).value;
    U32Canonical(bs[MagicOffset..MagicOffset + 4]);
    U32Canonical(bs[HeaderSizeOffset..HeaderSizeOffset + 4]);
    U32Canonical(bs[TagDirectorySizeOffset..TagDirectorySizeOffset + 4]);
    U32Canonical(bs[NumberOfTagOffset..NumberOfTagOffset + 4]);
    U32Canonical(bs[PayloadSizeOffset..PayloadSizeOffset + 4]);
    U32Canonical(bs[FlagsOffset..FlagsOffset + 4]);
    var e := EncodeHeader(h);
    forall i | 0 <= i < HeaderLength
      ensures e[i] == bs[i]
    {
      if i < 4 {
        assert e[i] == e[MagicOffset..MagicOffset + 4][i] && bs[i] == bs[MagicOffset..MagicOffset + 4][i];
      } else if i == 4 {
      } else if i < 9 {
        assert e[i] == e[HeaderSizeOffset..HeaderSizeOffset + 4][i - 5] && bs[i] == bs[HeaderSizeOffset..HeaderSizeOffset + 4][i - 5];
      } else if i < 13 {
        assert e[i] == e[TagDirectorySizeOffset..TagDirectorySizeOffset + 4][i - 9]
            && bs[i] == bs[TagDirectorySizeOffset..TagDirectorySizeOffset + 4][i - 9];
      } else if i < 17 {
        assert e[i] == e[NumberOfTagOffset..NumberOfTagOffset + 4][i - 13]
            && bs[i] == bs[NumberOfTagOffset..NumberOfTagOffset + 4][i - 13];
      } else if i < 21 {
        assert e[i] == e[PayloadSizeOffset..PayloadSizeOffset + 4][i - 17]
            && bs[i] == bs[PayloadSizeOffset..PayloadSizeOffset + 4][i - 17];
      } else {
        assert e[i] == e[FlagsOffset..FlagsOffset + 4][i - 21] && bs[i] == bs[FlagsOffset..FlagsOffset + 4][i - 21];
      }
    }
  }

  /** The magic of a packed header reads 'S', 'E', 'L', 'S' exactly when
      its uint32_t value is the little-endian reading of those bytes. */
  lemma MagicIsSels(h: Header)
    ensures EncodeHeader(h)[..4] == MagicBytes <==> h.magic == DecodeU32(MagicBytes)
  {
    U32RoundTrip(h.magic);
    U32Canonical(MagicBytes);
    assert EncodeHeader(h)[..4] == EncodeU32(h.magic);
  }

  // ---------------------------------------------------------------------
  // SEL_SIGNATURE_TAG
  // ---------------------------------------------------------------------

  /** SEL_SIGNATURE_TAG. */
  datatype Tag = Tag(
    tag: u32,
    revision: byte,
    reserved: byte,
    flags: u16,
    dataOffset: u32,
    dataSize: u32)

  /** The packed size of a tag record and the offset of each of its fields. */
  const TagLength: nat := 16
  const TagIdOffset: nat := 0
  const TagRevisionOffset: nat := 4
  const TagReservedOffset: nat := 5
  const TagFlagsOffset: nat := 6
  const TagDataOffsetOffset: nat := 8
  const TagDataSizeOffset: nat := 12

  /** The packed form of a tag record, field by field in declaration order. */
  function EncodeTag(t: Tag): (r: seq<byte>)
    ensures |r| == TagLength
    ensures r[TagIdOffset..TagIdOffset + 4] == EncodeU32(t.tag)
    ensures r[TagRevisionOffset] == t.revision
    ensures r[TagReservedOffset] == t.reserved
    ensures r[TagFlagsOffset..TagFlagsOffset + 2] == EncodeU16(t.flags)
    ensures r[TagDataOffsetOffset..TagDataOffsetOffset + 4] == EncodeU32(t.dataOffset)
    ensures r[TagDataSizeOffset..TagDataSizeOffset + 4] == EncodeU32(t.dataSize)
  {
    var r := EncodeU32(t.tag) + [t.revision, t.reserved] + EncodeU16(t.flags)
             + EncodeU32(t.dataOffset) + EncodeU32(t.dataSize);
    assert r[TagIdOffset..TagIdOffset + 4] == EncodeU32(t.tag);
    assert r[TagFlagsOffset..TagFlagsOffset + 2] == EncodeU16(t.flags);
    assert r[TagDataOffsetOffset..TagDataOffsetOffset + 4] == EncodeU32(t.dataOffset);
    assert r[TagDataSizeOffset..TagDataSizeOffset + 4] == EncodeU32(t.dataSize);
    r
  }

  /** Reading a tag record from the front of a buffer. */
  function DecodeTag(bs: seq<byte>): (r: Option<Tag>)
    ensures r.Some? <==> |bs| >= TagLength
  {
    if |bs| < TagLength then None
    else Some(Tag(
      U32At(bs, TagIdOffset),
      bs[TagRevisionOffset],
      bs[TagReservedOffset],
      DecodeU16(bs[TagFlagsOffset..TagFlagsOffset + 2]),
      U32At(bs, TagDataOffsetOffset),
      U32At(bs, TagDataSizeOffset)))
  }

  /** Every tag record survives a round trip through its packed form. */
  lemma TagRoundTrip(t: Tag, rest: seq<byte>)
    ensures DecodeTag(EncodeTag(t) + rest) == Some(t)
  {
    var e := EncodeTag(t);
    var bs := e + rest;
    assert forall off: nat :: off + 4 <= TagLength ==> U32At(bs, off) == U32At(e, off) by {
      forall off: nat | off + 4 <= TagLength
        ensures U32At(bs, off) == U32At(e, off)
      {
        assert bs[off..off + 4] == e[off..off + 4];
      }
    }
    assert bs[TagFlagsOffset..TagFlagsOffset + 2] == e[TagFlagsOffset..TagFlagsOffset + 2];
    U32RoundTrip(t.tag);
    U16RoundTrip(t.flags);
    U32RoundTrip(t.dataOffset);
    U32RoundTrip(t.dataSize);
  }

  /** Every 16 bytes are the packed form of the tag record they decode to. */
  lemma TagCanonical(bs: seq<byte>)
    requires |bs| == TagLength
    ensures EncodeTag(DecodeTag(bs).value) == bs
  {
    var t := DecodeTag(bs).value;
    U32Canonical(bs[TagIdOffset..TagIdOffset + 4]);
    U16Canonical(bs[TagFlagsOffset..TagFlagsOffset + 2]);
    U32Canonical(bs[TagDataOffsetOffset..TagDataOffsetOffset + 4]);
    U32Canonical(bs[TagDataSizeOffset..TagDataSizeOffset + 4]);
    var e := EncodeTag(t);
    forall i | 0 <= i < TagLength
      ensures e[i] == bs[i]
    {
      if i < 4 {
        assert e[i] == e[TagIdOffset..TagIdOffset + 4][i] && bs[i] == bs[TagIdOffset..TagIdOffset + 4][i];
      } else if i < 6 {
      } else if i < 8 {
        assert e[i] == e[TagFlagsOffset..TagFlagsOffset + 2][i - 6] && bs[i] == bs[TagFlagsOffset..TagFlagsOffset + 2][i - 6];
      } else if i < 12 {
        assert e[i] == e[TagDataOffsetOffset..TagDataOffsetOffset + 4][i - 8]
            && bs[i] == bs[TagDataOffsetOffset..TagDataOffsetOffset + 4][i - 8];
      } else {
        assert e[i] == e[TagDataSizeOffset..TagDataSizeOffset + 4][i - 12]
            && bs[i] == bs[TagDataSizeOffset..TagDataSizeOffset + 4][i - 12];
      }
    }
  }

  // ---------------------------------------------------------------------
  // Tag identifiers, algorithm codes and flags
  // ---------------------------------------------------------------------

  /** The tag identifiers. */
  const TagHashAlgorithm: u32 := 1
  const TagSignatureAlgorithm: u32 := 2
  const TagSignature: u32 := 3
  const TagContent: u32 := 9
  const TagCreationTime: u32 := 10
  const TagFileName: u32 := 11
  const TagFileSize: u32 := 12

  /** Every defined tag identifier, in header order. */
  const TagIds: seq<u32> := [TagHashAlgorithm, TagSignatureAlgorithm, TagSignature, TagContent,
                             TagCreationTime, TagFileName, TagFileSize]

  /** No two tags share an identifier, and 0 is none of them. */
  lemma TagIdsDistinct()
    ensures forall i, j :: 0 <= i < j < |TagIds| ==> TagIds[i] != TagIds[j]
    ensures 0 !in TagIds
  {
  }

  /** SEL_SIGNATURE_HASH_ALGORITHM. */
  datatype HashAlgorithm = HashNone | HashSha1 | HashSha224 | HashSha256 | HashSha384 | HashSha512

  /** The enum's values in declaration order. */
  function HashCode(a: HashAlgorithm): (r: nat)
    ensures r < 6
  {
    match a
    case HashNone => 0
    case HashSha1 => 1
    case HashSha224 => 2
    case HashSha256 => 3
    case HashSha384 => 4
    case HashSha512 => 5
  }

  /** The algorithm a code names, if any. */
  function HashFromCode(c: int): (r: Option<HashAlgorithm>)
    ensures r.Some? <==> 0 <= c < 6
  {
    if c == 0 then Some(HashNone)
    else if c == 1 then Some(HashSha1)
    else if c == 2 then Some(HashSha224)
    else if c == 3 then Some(HashSha256)
    else if c == 4 then Some(HashSha384)
    else if c == 5 then Some(HashSha512)
    else None
  }

  /** Codes and algorithms correspond one to one. */
  lemma HashCodeBijective(a: HashAlgorithm, c: int)
    ensures HashFromCode(HashCode(a)) == Some(a)
    ensures HashFromCode(c).Some? ==> HashCode(HashFromCode(c).value) == c
  {
  }

  /** The SELoader algorithm for a LIBSIGN_DIGEST_ALG value (NONE 0,
      SHA224 1, SHA256 2, SHA384 3, SHA512 4, SHA1 5): the two enums list
      the algorithms in different orders, so the table is explicit. */
  function HashForDigest(alg: int): (r: Option<HashAlgorithm>)
    ensures r.Some? <==> 0 <= alg < 6
  {
    if alg == 0 then Some(HashNone)
    else if alg == 1 then Some(HashSha224)
    else if alg == 2 then Some(HashSha256)
    else if alg == 3 then Some(HashSha384)
    else if alg == 4 then Some(HashSha512)
    else if alg == 5 then Some(HashSha1)
    else None
  }

  /** The LIBSIGN_DIGEST_ALG value for a SELoader algorithm. */
  function DigestForHash(a: HashAlgorithm): (r: int)
    ensures 0 <= r < 6
  {
    match a
    case HashNone => 0
    case HashSha224 => 1
    case HashSha256 => 2
    case HashSha384 => 3
    case HashSha512 => 4
    case HashSha1 => 5
  }

  /** The table is a bijection between the supported digest algorithms and
      the SELoader algorithms, and it is not the identity on codes. */
  lemma DigestTableBijective(alg: int, a: HashAlgorithm)
    ensures 0 <= alg < 6 ==> DigestForHash(HashForDigest(alg).value) == alg
    ensures HashForDigest(DigestForHash(a)) == Some(a)
    ensures HashCode(HashForDigest(5).value) != 5
  {
  }

  /** SEL_SIGNATURE_SIGNATURE_ALGORITHM: PKCS#7 is the only value. */
  const SignatureAlgorithmPkcs7: nat := 0

  /** The flag bits SELoader.h defines for requests. */
  const FlagsAttachedContent: bv64 := 1 << 0
  const FlagsDetachedSignature: bv64 := 1 << 1

  /** SelSignatureTagSignaturePkcs7FlagsDetached. */
  const Pkcs7FlagsDetached: bv32 := 1 << 0

  /** The request flag bits agree with the ones signlet.h defines, and are
      distinct single bits. */
  lemma FlagBitsAgree()
    ensures FlagsAttachedContent == Signlet.FlagsContentAttached
    ensures FlagsDetachedSignature == Signlet.FlagsDetachedSignature
    ensures FlagsAttachedContent & FlagsDetachedSignature == 0
    ensures Pkcs7FlagsDetached == 1
  {
  }

  /** SEL_SIGNATURE_TAG_SIGNATURE_PKCS7: a uint32_t of flags followed by
      the signature bytes. */
  datatype Pkcs7Signature = Pkcs7Signature(flags: u32, signature: seq<byte>)

  /** The packed form of a PKCS#7 signature tag payload. */
  function EncodePkcs7(p: Pkcs7Signature): (r: seq<byte>)
    ensures |r| == 4 + |p.signature|
    ensures r[..4] == EncodeU32(p.flags) && r[4..] == p.signature
  {
    EncodeU32(p.flags) + p.signature
  }

  /** Reading a PKCS#7 signature tag payload: the flags, then every
      remaining byte as the signature. */
  function DecodePkcs7(bs: seq<byte>): (r: Option<Pkcs7Signature>)
    ensures r.Some? <==> |bs| >= 4
  {
    if |bs| < 4 then None else Some(Pkcs7Signature(U32At(bs, 0), bs[4..]))
  }

  /** The payload survives a round trip through its packed form. */
  lemma Pkcs7RoundTrip(p: Pkcs7Signature)
    ensures DecodePkcs7(EncodePkcs7(p)) == Some(p)
  {
    var e := EncodePkcs7(p);
    assert e[0..4] == EncodeU32(p.flags);
    U32RoundTrip(p.flags);
  }
}
