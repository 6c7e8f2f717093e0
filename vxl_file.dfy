/** The VXL executable container: a fixed-layout header followed by the
    program bytes. */
module VxlFile {
  import opened LittleEndian

  const HEADER_CHECKSUM_SIZE: nat := 28
  const SUPPORTED_VERSIONS: seq<Byte> := [0x0]
  /** The header size the crate declares. */
  const HEADER_SIZE: nat := 50
  const CHECKSUM_MASK: Byte := 0x01
  const MAGIC: seq<Byte> := [0x65, 0x58, 0x56, 0x4c]
  const END_HEADER_BYTE: Byte := 0xaa
  /** The number of bytes header serialisation actually writes:
      magic 4, version 1, file size 8, starting offset 8, flags 1,
      checksum 28, end marker 1. */
  const SERIALIZED_HEADER_SIZE: nat := 51

  type Checksum = s: seq<Byte> | |s| == HEADER_CHECKSUM_SIZE witness seq(28, _ => 0)

  /** `VXLHeader`; the datatype constructor is `VXLHeader::new`, and the
      field selectors are the accessors `version`, `size`,
      `starting_offset`, `flags` and `checksum`. */
  datatype VXLHeader = VXLHeader(
    version: Byte,
    fileSize: U64,
    startingOffset: U64,
    flags: Byte,
    checksum: Checksum)

  /** `VXLFile`; the constructor is `VXLFile::new`, the selectors the
      accessors `header` and `contents`. */
  datatype VXLFile = VXLFile(header: VXLHeader, contents: seq<Byte>)

  /** The accessors return exactly what the constructors were given. */
  lemma Accessors(version: Byte, fileSize: U64, startingOffset: U64, flags: Byte, checksum: Checksum,
                  contents: seq<Byte>)
    ensures var h := VXLHeader(version, fileSize, startingOffset, flags, checksum);
      && h.version == version && h.fileSize == fileSize && h.startingOffset == startingOffset
      && h.flags == flags && h.checksum == checksum
      && VXLFile(h, contents).header == h && VXLFile(h, contents).contents == contents
  {
  }

  /** `checksum_sha3`: bit 0 of the flags, under `CHECKSUM_MASK`, is 1. */
  function ChecksumSha3(h: VXLHeader): (r: bool)
    ensures r <==> h.flags % 2 == 1
  {
    assert (h.flags as bv8 & CHECKSUM_MASK as bv8 == 1) <==> h.flags % 2 == 1 by {
      LowBit(h.flags);
    }
    h.flags as bv8 & CHECKSUM_MASK as bv8 == 1
  }

  /** `checksum_sha2`: bit 0 of the flags, under `CHECKSUM_MASK`, is 0. */
  function ChecksumSha2(h: VXLHeader): (r: bool)
    ensures r <==> h.flags % 2 == 0
  {
    assert (h.flags as bv8 & CHECKSUM_MASK as bv8 == 0) <==> h.flags % 2 == 0 by {
      LowBit(h.flags);
    }
    h.flags as bv8 & CHECKSUM_MASK as bv8 == 0
  }

  lemma LowBit(b: Byte)
    ensures (b as bv8 & 1) as int == b % 2
  {
    var x := b as bv8;
    assert (x & 1) as int == (x % 2) as int;
  }

  /** Exactly one checksum algorithm is selected, and only bit 0 of the
      flags decides which. */
  lemma ChecksumAlgorithmExclusive(h1: VXLHeader, h2: VXLHeader)
    ensures ChecksumSha3(h1) != ChecksumSha2(h1)
    ensures h1.flags % 2 == h2.flags % 2 ==> ChecksumSha3(h1) == ChecksumSha3(h2)
  {
  }

  /** The bytes `Into<Vec<u8>> for VXLHeader` produces. */
  function HeaderBytes(h: VXLHeader): (bytes: seq<Byte>)
    ensures |bytes| == SERIALIZED_HEADER_SIZE
    ensures bytes[..4] == MAGIC && bytes[SERIALIZED_HEADER_SIZE - 1] == END_HEADER_BYTE
  {
    MAGIC + [h.version] + U64ToLeBytes(h.fileSize) + U64ToLeBytes(h.startingOffset)
      + [h.flags] + h.checksum + [END_HEADER_BYTE]
  }

  /** Every header field sits at its documented offset: magic at 0x0,
      version at 0x4, file size at 0x5 and starting offset at 0xd (both
      little-endian), flags at 0x15, checksum at 0x16, end marker at
      0x32; the serialisation is 51 bytes long. */
  lemma HeaderLayout(h: VXLHeader)
    ensures |HeaderBytes(h)| == SERIALIZED_HEADER_SIZE
    ensures HeaderBytes(h)[0x0..0x4] == MAGIC
    ensures HeaderBytes(h)[0x4] == h.version
    ensures FromLe(HeaderBytes(h)[0x5..0xd]) == h.fileSize
    ensures FromLe(HeaderBytes(h)[0xd..0x15]) == h.startingOffset
    ensures HeaderBytes(h)[0x15] == h.flags
    ensures HeaderBytes(h)[0x16..0x32] == h.checksum
    ensures HeaderBytes(h)[0x32] == END_HEADER_BYTE
  {
    var b := HeaderBytes(h);
    assert b[0x5..0xd] == U64ToLeBytes(h.fileSize);
    assert b[0xd..0x15] == U64ToLeBytes(h.startingOffset);
    assert b[0x16..0x32] == h.checksum;
  }

  /** Distinct headers serialise differently. */
  lemma HeaderBytesInjective(h1: VXLHeader, h2: VXLHeader)
    requires HeaderBytes(h1) == HeaderBytes(h2)
    ensures h1 == h2
  {
    HeaderLayout(h1);
    HeaderLayout(h2);
  }

  /** `HEADER_SIZE` is one short of what is written: a reader skipping
      `HEADER_SIZE` bytes of a serialised file lands on the end-of-header
      marker, not on the first program byte. */
  lemma HeaderSizeOffByOne(f: VXLFile)
    ensures |HeaderBytes(f.header)| == HEADER_SIZE + 1
    ensures FileBytes(f)[HEADER_SIZE] == END_HEADER_BYTE
    ensures FileBytes(f)[HEADER_SIZE..] == [END_HEADER_BYTE] + f.contents
  {
    HeaderLayout(f.header);
    assert FileBytes(f)[HEADER_SIZE..] == HeaderBytes(f.header)[HEADER_SIZE..] + f.contents;
  }

  /** `Into<Vec<u8>> for VXLHeader`, push by push. */
  method HeaderIntoBytes(h: VXLHeader) returns (bytes: seq<Byte>)
    ensures bytes == HeaderBytes(h)
  {
    bytes := MAGIC;
    bytes := bytes + [h.version];
    bytes := bytes + U64ToLeBytes(h.fileSize);
    bytes := bytes + U64ToLeBytes(h.startingOffset);
    bytes := bytes + [h.flags];
    bytes := bytes + h.checksum;
    bytes := bytes + [END_HEADER_BYTE];
  }

  /** The bytes `Into<Vec<u8>> for VXLFile` produces. */
  function FileBytes(f: VXLFile): (bytes: seq<Byte>)
    ensures |bytes| == SERIALIZED_HEADER_SIZE + |f.contents|
    ensures bytes[SERIALIZED_HEADER_SIZE..] == f.contents
  {
    HeaderBytes(f.header) + f.contents
  }

  /** A serialised file splits at `SERIALIZED_HEADER_SIZE` into the
      header's bytes and the program bytes, unchanged; so distinct files
      serialise differently. */
  lemma FileLayout(f: VXLFile, g: VXLFile)
    ensures |FileBytes(f)| == SERIALIZED_HEADER_SIZE + |f.contents|
    ensures FileBytes(f)[..SERIALIZED_HEADER_SIZE] == HeaderBytes(f.header)
    ensures FileBytes(f)[SERIALIZED_HEADER_SIZE..] == f.contents
    ensures FileBytes(f) == FileBytes(g) ==> f == g
  {
    HeaderLayout(f.header);
    HeaderLayout(g.header);
    if FileBytes(f) == FileBytes(g) {
      assert FileBytes(f)[..SERIALIZED_HEADER_SIZE] == FileBytes(g)[..SERIALIZED_HEADER_SIZE];
      HeaderBytesInjective(f.header, g.header);
    }
  }

  /** `Into<Vec<u8>> for VXLFile`: the header's bytes, then the contents
      appended. */
  method FileIntoBytes(f: VXLFile) returns (bytes: seq<Byte>)
    ensures bytes == FileBytes(f)
  {
    bytes := HeaderIntoBytes(f.header);
    bytes := bytes + f.contents;
  }
}
