/**
 * The fixed-size record `binary_header_t` that starts every stored binary image,
 * and its byte image. The checksum field is always the first four bytes; the
 * remaining fields follow packed, multi-byte integers little-endian.
 *
 * Field order and widths (the record's declaration is not part of this model):
 *   [crc_hash 4][header_size 2][type/compression/priority bytes 4][bin_size 4]
 *   [bin_name 16][bin_ver 16][remaining fields 20]
 */
module BinaryHeader {
  import opened Wrappers
  import opened ByteOrder

  const CHECKSUM_SIZE: nat := 4
  const HEADER_SIZE_FIELD: nat := 2
  const ATTRIBUTES_SIZE: nat := 4
  const BIN_SIZE_FIELD: nat := 4
  const BIN_NAME_MAX: nat := 16
  const BIN_VER_MAX: nat := 16
  const TRAILER_SIZE: nat := 20

  const NAME_OFFSET: nat := CHECKSUM_SIZE + HEADER_SIZE_FIELD + ATTRIBUTES_SIZE + BIN_SIZE_FIELD
  const VER_OFFSET: nat := NAME_OFFSET + BIN_NAME_MAX
  const TRAILER_OFFSET: nat := VER_OFFSET + BIN_VER_MAX
  /** sizeof(binary_header_t) */
  const HEADER_SIZE: nat := TRAILER_OFFSET + TRAILER_SIZE

  datatype Header = Header(
    crcHash: uint32,
    headerSize: uint16,
    attributes: seq<byte>,   // binary type, compression and priority bytes; not interpreted here
    binSize: uint32,
    binName: seq<byte>,      // char bin_name[BIN_NAME_MAX]
    binVer: seq<byte>,       // char bin_ver[BIN_VER_MAX]
    trailer: seq<byte>)      // the fields after bin_ver; not interpreted here

  predicate WellFormed(h: Header)
  {
    && |h.attributes| == ATTRIBUTES_SIZE
    && |h.binName| == BIN_NAME_MAX
    && |h.binVer| == BIN_VER_MAX
    && |h.trailer| == TRAILER_SIZE
  }

  /** The record's bytes after the checksum field. */
  function Body(h: Header): (r: seq<byte>)
    requires WellFormed(h)
    ensures |r| == HEADER_SIZE - CHECKSUM_SIZE
  {
    LeBytes(h.headerSize as nat, HEADER_SIZE_FIELD) + h.attributes + LeBytes(h.binSize as nat, BIN_SIZE_FIELD)
      + h.binName + h.binVer + h.trailer
  }

  /** The record as `write(fd, &header, sizeof(binary_header_t))` puts it on storage. */
  function Encode(h: Header): (r: seq<byte>)
    requires WellFormed(h)
    ensures |r| == HEADER_SIZE
    ensures r[..CHECKSUM_SIZE] == LeBytes(h.crcHash as nat, CHECKSUM_SIZE)
    ensures r[CHECKSUM_SIZE..] == Body(h)
  {
    LeBytes(h.crcHash as nat, CHECKSUM_SIZE) + Body(h)
  }

  /** The record as `read(fd, &header, sizeof(binary_header_t))` fills it; None when the length is wrong. */
  function Decode(s: seq<byte>): (r: Option<Header>)
    ensures r.Some? <==> |s| == HEADER_SIZE
    ensures r.Some? ==> WellFormed(r.value)
  {
    if |s| != HEADER_SIZE then None
    else
      Some(Header(
        LeValue(s[..CHECKSUM_SIZE]) as uint32,
        LeValue(s[CHECKSUM_SIZE..CHECKSUM_SIZE + HEADER_SIZE_FIELD]) as uint16,
        s[CHECKSUM_SIZE + HEADER_SIZE_FIELD..NAME_OFFSET - BIN_SIZE_FIELD],
        LeValue(s[NAME_OFFSET - BIN_SIZE_FIELD..NAME_OFFSET]) as uint32,
        s[NAME_OFFSET..VER_OFFSET],
        s[VER_OFFSET..TRAILER_OFFSET],
        s[TRAILER_OFFSET..]))
  }

  lemma CrcField(h: Header)
    requires WellFormed(h)
    ensures Encode(h)[..CHECKSUM_SIZE] == LeBytes(h.crcHash as nat, CHECKSUM_SIZE)
  {
  }

  lemma HeaderSizeField(h: Header)
    requires WellFormed(h)
    ensures Encode(h)[CHECKSUM_SIZE..CHECKSUM_SIZE + HEADER_SIZE_FIELD] == LeBytes(h.headerSize as nat, HEADER_SIZE_FIELD)
  {
  }

  lemma AttributesField(h: Header)
    requires WellFormed(h)
    ensures Encode(h)[CHECKSUM_SIZE + HEADER_SIZE_FIELD..NAME_OFFSET - BIN_SIZE_FIELD] == h.attributes
  {
  }

  lemma BinSizeField(h: Header)
    requires WellFormed(h)
    ensures Encode(h)[NAME_OFFSET - BIN_SIZE_FIELD..NAME_OFFSET] == LeBytes(h.binSize as nat, BIN_SIZE_FIELD)
  {
  }

  lemma NameField(h: Header)
    requires WellFormed(h)
    ensures Encode(h)[NAME_OFFSET..VER_OFFSET] == h.binName
  {
  }

  lemma VersionField(h: Header)
    requires WellFormed(h)
    ensures Encode(h)[VER_OFFSET..TRAILER_OFFSET] == h.binVer
  {
  }

  lemma TrailerField(h: Header)
    requires WellFormed(h)
    ensures Encode(h)[TRAILER_OFFSET..] == h.trailer
  {
  }

  lemma DecodeEncode(h: Header)
    requires WellFormed(h)
    ensures Decode(Encode(h)) == Some(h)
  {
    CrcField(h);
    HeaderSizeField(h);
    AttributesField(h);
    BinSizeField(h);
    NameField(h);
    VersionField(h);
    TrailerField(h);
    LeValueOfBytes(h.crcHash as nat, CHECKSUM_SIZE);
    LeValueOfBytes(h.headerSize as nat, HEADER_SIZE_FIELD);
    LeValueOfBytes(h.binSize as nat, BIN_SIZE_FIELD);
  }

  lemma EncodeDecode(s: seq<byte>)
    requires |s| == HEADER_SIZE
    ensures Encode(Decode(s).value) == s
  {
    var h := Decode(s).value;
    var e := Encode(h);
    LeBytesOfValue(s[..CHECKSUM_SIZE]);
    LeBytesOfValue(s[CHECKSUM_SIZE..CHECKSUM_SIZE + HEADER_SIZE_FIELD]);
    LeBytesOfValue(s[NAME_OFFSET - BIN_SIZE_FIELD..NAME_OFFSET]);
    CrcField(h);
    HeaderSizeField(h);
    AttributesField(h);
    BinSizeField(h);
    NameField(h);
    VersionField(h);
    TrailerField(h);
    assert e[0..CHECKSUM_SIZE] == s[0..CHECKSUM_SIZE];
    JoinSlices(e, s, 0, CHECKSUM_SIZE, CHECKSUM_SIZE + HEADER_SIZE_FIELD);
    JoinSlices(e, s, 0, CHECKSUM_SIZE + HEADER_SIZE_FIELD, NAME_OFFSET - BIN_SIZE_FIELD);
    JoinSlices(e, s, 0, NAME_OFFSET - BIN_SIZE_FIELD, NAME_OFFSET);
    JoinSlices(e, s, 0, NAME_OFFSET, VER_OFFSET);
    JoinSlices(e, s, 0, VER_OFFSET, TRAILER_OFFSET);
    assert e[TRAILER_OFFSET..HEADER_SIZE] == s[TRAILER_OFFSET..HEADER_SIZE];
    JoinSlices(e, s, 0, TRAILER_OFFSET, HEADER_SIZE);
    assert e == e[0..HEADER_SIZE] && s == s[0..HEADER_SIZE];
  }

  /**
   * `header_size` leaves the checksummed part inside the record: `crc32part` over
   * `header_size` bytes from offset CHECKSUM_SIZE stays within `binary_header_t`.
   */
  predicate ScopeFits(h: Header)
  {
    h.headerSize as nat <= HEADER_SIZE - CHECKSUM_SIZE
  }

  /** The header bytes the checksum covers: `header_size` bytes right after the checksum field. */
  function ChecksumScope(h: Header): (r: seq<byte>)
    requires WellFormed(h) && ScopeFits(h)
    ensures |r| == h.headerSize as nat
    ensures r == Encode(h)[CHECKSUM_SIZE..CHECKSUM_SIZE + h.headerSize as nat]
  {
    Body(h)[..h.headerSize]
  }

  /** The checksum never covers itself: the scope is the same whatever the checksum field holds. */
  lemma ScopeIgnoresChecksum(h: Header, c: uint32)
    requires WellFormed(h) && ScopeFits(h)
    ensures ChecksumScope(h.(crcHash := c)) == ChecksumScope(h)
  {
  }

  /** Rewriting the checksum field changes the first four bytes of the image and nothing else. */
  lemma PatchChecksumBytes(h: Header, c: uint32)
    requires WellFormed(h)
    ensures Encode(h.(crcHash := c)) == LeBytes(c as nat, CHECKSUM_SIZE) + Encode(h)[CHECKSUM_SIZE..]
  {
  }

  /** Rewriting the version field changes exactly the BIN_VER_MAX bytes at VER_OFFSET. */
  lemma ReplaceVersionBytes(h: Header, v: seq<byte>)
    requires WellFormed(h) && |v| == BIN_VER_MAX
    ensures Encode(h.(binVer := v)) == Encode(h)[..VER_OFFSET] + v + Encode(h)[TRAILER_OFFSET..]
  {
    var e := Encode(h);
    assert e[VER_OFFSET..TRAILER_OFFSET] == h.binVer;
    assert e == e[..VER_OFFSET] + h.binVer + e[TRAILER_OFFSET..];
  }

  /** Rewriting the name field changes exactly the BIN_NAME_MAX bytes at NAME_OFFSET. */
  lemma ReplaceNameBytes(h: Header, n: seq<byte>)
    requires WellFormed(h) && |n| == BIN_NAME_MAX
    ensures Encode(h.(binName := n)) == Encode(h)[..NAME_OFFSET] + n + Encode(h)[VER_OFFSET..]
  {
    var e := Encode(h);
    assert e[NAME_OFFSET..VER_OFFSET] == h.binName;
    assert e == e[..NAME_OFFSET] + h.binName + e[VER_OFFSET..];
  }

  /** Rewriting both the name and the version field changes exactly the bytes from NAME_OFFSET to TRAILER_OFFSET. */
  lemma ReplaceNameAndVersionBytes(h: Header, n: seq<byte>, v: seq<byte>)
    requires WellFormed(h) && |n| == BIN_NAME_MAX && |v| == BIN_VER_MAX
    ensures Encode(h.(binName := n, binVer := v)) == Encode(h)[..NAME_OFFSET] + n + v + Encode(h)[TRAILER_OFFSET..]
  {
    var e := Encode(h);
    var h1 := h.(binName := n);
    ReplaceNameBytes(h, n);
    ReplaceVersionBytes(h1, v);
    var front := e[..NAME_OFFSET] + n;
    AppendTake(front, e[VER_OFFSET..]);
    AppendDrop(front, e[VER_OFFSET..], TRAILER_OFFSET);
    DropDrop(e, VER_OFFSET, BIN_VER_MAX);
  }
}
