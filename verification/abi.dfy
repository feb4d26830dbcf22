/** The part of the kernel's btrfs ABI the decoders depend on: the numeric
    constants and the packed struct layouts that the generated bindings
    supply. Sizes are those of the packed C structs of the btrfs on-disk
    format and the search ioctl. */
module Abi {
  import opened Core

  // Struct sizes in bytes.
  const SEARCH_HEADER_SIZE: nat := 32        // btrfs_ioctl_search_header
  const ROOT_ITEM_SIZE: nat := 439           // btrfs_root_item
  const ROOT_REF_SIZE: nat := 18             // btrfs_root_ref
  const INODE_ITEM_SIZE: nat := 160          // btrfs_inode_item
  const INODE_REF_SIZE: nat := 10            // btrfs_inode_ref
  const DIR_ITEM_SIZE: nat := 30             // btrfs_dir_item
  const FREE_SPACE_HEADER_SIZE: nat := 41    // btrfs_free_space_header
  const FILE_EXTENT_ITEM_SIZE: nat := 53     // btrfs_file_extent_item

  // Byte offset of the 16-bit `name_len` field inside the name-bearing structs.
  const ROOT_REF_NAME_LEN_OFFSET: nat := 16  // after dirid, sequence
  const DIR_ITEM_NAME_LEN_OFFSET: nat := 27  // after location (17), transid, data_len
  const INODE_REF_NAME_LEN_OFFSET: nat := 8  // after index

  // File extent types.
  const BTRFS_FILE_EXTENT_INLINE: u8 := 0
  const BTRFS_FILE_EXTENT_REG: u8 := 1
  const BTRFS_FILE_EXTENT_PREALLOC: u8 := 2

  // enum btrfs_compression_type.
  const BTRFS_COMPRESS_NONE: u8 := 0
  const BTRFS_COMPRESS_ZLIB: u8 := 1
  const BTRFS_COMPRESS_LZO: u8 := 2
  const BTRFS_COMPRESS_ZSTD: u8 := 3

  // Object ids of the well-known trees.
  const BTRFS_ROOT_TREE_OBJECTID: u64 := 1
  const BTRFS_EXTENT_TREE_OBJECTID: u64 := 2
  const BTRFS_CHUNK_TREE_OBJECTID: u64 := 3
  const BTRFS_DEV_TREE_OBJECTID: u64 := 4
  const BTRFS_FS_TREE_OBJECTID: u64 := 5
  const BTRFS_ROOT_TREE_DIR_OBJECTID: u64 := 6
  const BTRFS_CSUM_TREE_OBJECTID: u64 := 7
  const BTRFS_QUOTA_TREE_OBJECTID: u64 := 8
  const BTRFS_UUID_TREE_OBJECTID: u64 := 9
  const BTRFS_FREE_SPACE_TREE_OBJECTID: u64 := 10
  const BTRFS_BLOCK_GROUP_TREE_OBJECTID: u64 := 11

  /** btrfs_ioctl_search_header: the fixed header in front of every record
      the search ioctl places in its buffer. Written by the kernel in host
      byte order. */
  datatype SearchHeader = SearchHeader(transid: u64, objectid: u64, offset: u64, kind: u32, len: u32)

  // Unaligned reads, in the host's byte order, of the integer widths the
  // structs use.

  function ReadU64(buf: seq<u8>, off: nat, host: Endian): (v: u64)
    requires off + 8 <= |buf|
  {
    Pow256Widths();
    ReadUint(buf, off, 8, host)
  }

  function ReadU32(buf: seq<u8>, off: nat, host: Endian): (v: u32)
    requires off + 4 <= |buf|
  {
    Pow256Widths();
    ReadUint(buf, off, 4, host)
  }

  function ReadU16(buf: seq<u8>, off: nat, host: Endian): (v: u16)
    requires off + 2 <= |buf|
  {
    Pow256Widths();
    ReadUint(buf, off, 2, host)
  }

  function ReadU8(buf: seq<u8>, off: nat, host: Endian): (v: u8)
    requires off + 1 <= |buf|
  {
    Pow256Widths();
    ReadUint(buf, off, 1, host)
  }

  /** A value written in its slot reads back, whatever surrounds the slot. */
  lemma ReadSlot(buf: seq<u8>, off: nat, x: nat, n: nat, host: Endian)
    requires x < Pow256(n) && off + n <= |buf| && buf[off..off + n] == EncodeNative(x, n, host)
    ensures ReadUint(buf, off, n, host) == x
  {
    NativeRoundTrip(x, n, host);
  }

  /** Unaligned read of a search header at byte offset `off`. */
  function ParseSearchHeader(buf: seq<u8>, off: nat, host: Endian): (h: SearchHeader)
    requires off + SEARCH_HEADER_SIZE <= |buf|
  {
    SearchHeader(ReadU64(buf, off, host), ReadU64(buf, off + 8, host), ReadU64(buf, off + 16, host),
                 ReadU32(buf, off + 24, host), ReadU32(buf, off + 28, host))
  }

  /** The 32 bytes of a search header, fields in declaration order. */
  function EncodeSearchHeader(h: SearchHeader, host: Endian): (r: seq<u8>)
    ensures |r| == SEARCH_HEADER_SIZE
  {
    EncodeNative(h.transid, 8, host) + EncodeNative(h.objectid, 8, host) + EncodeNative(h.offset, 8, host)
    + EncodeNative(h.kind, 4, host) + EncodeNative(h.len, 4, host)
  }

  /** The bytes of an encoded search header, wherever they sit in a buffer,
      read back as that header. */
  lemma SearchHeaderAt(buf: seq<u8>, off: nat, h: SearchHeader, host: Endian)
    requires off + SEARCH_HEADER_SIZE <= |buf|
    requires buf[off..off + SEARCH_HEADER_SIZE] == EncodeSearchHeader(h, host)
    ensures ParseSearchHeader(buf, off, host) == h
  {
    var a, b, c := EncodeNative(h.transid, 8, host), EncodeNative(h.objectid, 8, host), EncodeNative(h.offset, 8, host);
    var d, e := EncodeNative(h.kind, 4, host), EncodeNative(h.len, 4, host);
    SliceHalves(buf, off, a + b + c + d, e);
    SliceHalves(buf, off, a + b + c, d);
    SliceHalves(buf, off, a + b, c);
    SliceHalves(buf, off, a, b);
    Pow256Widths();
    ReadSlot(buf, off, h.transid, 8, host);
    ReadSlot(buf, off + 8, h.objectid, 8, host);
    ReadSlot(buf, off + 16, h.offset, 8, host);
    ReadSlot(buf, off + 24, h.kind, 4, host);
    ReadSlot(buf, off + 28, h.len, 4, host);
  }

  /** A search header written into a buffer reads back unchanged. */
  lemma SearchHeaderRoundTrip(pre: seq<u8>, h: SearchHeader, post: seq<u8>, host: Endian)
    ensures |pre| + SEARCH_HEADER_SIZE <= |pre + EncodeSearchHeader(h, host) + post|
    ensures ParseSearchHeader(pre + EncodeSearchHeader(h, host) + post, |pre|, host) == h
  {
    MiddleSlice(pre, EncodeSearchHeader(h, host), post);
    SearchHeaderAt(pre + EncodeSearchHeader(h, host) + post, |pre|, h, host);
  }

  /** btrfs_file_extent_item. The first 21 bytes (up to and including
      `kind`, the C field `type`) are present in every extent item; the four
      disk fields follow only for regular and preallocated extents. */
  datatype FileExtentItem = FileExtentItem(
    generation: u64,
    ramBytes: u64,
    compression: u8,
    encryption: u8,
    otherEncoding: u16,
    kind: u8,
    diskBytenr: u64,
    diskNumBytes: u64,
    offset: u64,
    numBytes: u64)

  const EXTENT_PREFIX_SIZE: nat := 21

  /** Unaligned read of a whole file extent item at byte offset `off`. */
  function ParseFileExtentItem(buf: seq<u8>, off: nat, host: Endian): (fe: FileExtentItem)
    requires off + FILE_EXTENT_ITEM_SIZE <= |buf|
  {
    FileExtentItem(
      ReadU64(buf, off, host), ReadU64(buf, off + 8, host),
      ReadU8(buf, off + 16, host), ReadU8(buf, off + 17, host), ReadU16(buf, off + 18, host), ReadU8(buf, off + 20, host),
      ReadU64(buf, off + 21, host), ReadU64(buf, off + 29, host), ReadU64(buf, off + 37, host), ReadU64(buf, off + 45, host))
  }

  /** The 21 bytes every extent item starts with. */
  function EncodeExtentPrefix(fe: FileExtentItem, host: Endian): (r: seq<u8>)
    ensures |r| == EXTENT_PREFIX_SIZE
  {
    EncodeNative(fe.generation, 8, host) + EncodeNative(fe.ramBytes, 8, host)
    + EncodeNative(fe.compression, 1, host) + EncodeNative(fe.encryption, 1, host)
    + EncodeNative(fe.otherEncoding, 2, host) + EncodeNative(fe.kind, 1, host)
  }

  /** The four disk fields that follow the prefix. */
  function EncodeExtentDisk(fe: FileExtentItem, host: Endian): (r: seq<u8>)
    ensures |r| == FILE_EXTENT_ITEM_SIZE - EXTENT_PREFIX_SIZE
  {
    EncodeNative(fe.diskBytenr, 8, host) + EncodeNative(fe.diskNumBytes, 8, host)
    + EncodeNative(fe.offset, 8, host) + EncodeNative(fe.numBytes, 8, host)
  }

  function EncodeFileExtentItem(fe: FileExtentItem, host: Endian): (r: seq<u8>)
    ensures |r| == FILE_EXTENT_ITEM_SIZE
  {
    EncodeExtentPrefix(fe, host) + EncodeExtentDisk(fe, host)
  }

  /** The prefix fields read back from the bytes of an encoded prefix. */
  lemma ExtentPrefixAt(buf: seq<u8>, off: nat, fe: FileExtentItem, host: Endian)
    requires off + EXTENT_PREFIX_SIZE <= |buf|
    requires buf[off..off + EXTENT_PREFIX_SIZE] == EncodeExtentPrefix(fe, host)
    ensures ReadUint(buf, off, 8, host) == fe.generation
    ensures ReadUint(buf, off + 8, 8, host) == fe.ramBytes
    ensures ReadUint(buf, off + 16, 1, host) == fe.compression
    ensures ReadUint(buf, off + 17, 1, host) == fe.encryption
    ensures ReadUint(buf, off + 18, 2, host) == fe.otherEncoding
    ensures ReadUint(buf, off + 20, 1, host) == fe.kind
  {
    var a, b := EncodeNative(fe.generation, 8, host), EncodeNative(fe.ramBytes, 8, host);
    var c, d := EncodeNative(fe.compression, 1, host), EncodeNative(fe.encryption, 1, host);
    var e, f := EncodeNative(fe.otherEncoding, 2, host), EncodeNative(fe.kind, 1, host);
    SliceHalves(buf, off, a + b + c + d + e, f);
    SliceHalves(buf, off, a + b + c + d, e);
    SliceHalves(buf, off, a + b + c, d);
    SliceHalves(buf, off, a + b, c);
    SliceHalves(buf, off, a, b);
    Pow256Widths();
    ReadSlot(buf, off, fe.generation, 8, host);
    ReadSlot(buf, off + 8, fe.ramBytes, 8, host);
    ReadSlot(buf, off + 16, fe.compression, 1, host);
    ReadSlot(buf, off + 17, fe.encryption, 1, host);
    ReadSlot(buf, off + 18, fe.otherEncoding, 2, host);
    ReadSlot(buf, off + 20, fe.kind, 1, host);
  }

  /** The disk fields read back from the bytes of encoded disk fields. */
  lemma ExtentDiskAt(buf: seq<u8>, off: nat, fe: FileExtentItem, host: Endian)
    requires off + FILE_EXTENT_ITEM_SIZE - EXTENT_PREFIX_SIZE <= |buf|
    requires buf[off..off + FILE_EXTENT_ITEM_SIZE - EXTENT_PREFIX_SIZE] == EncodeExtentDisk(fe, host)
    ensures ReadUint(buf, off, 8, host) == fe.diskBytenr
    ensures ReadUint(buf, off + 8, 8, host) == fe.diskNumBytes
    ensures ReadUint(buf, off + 16, 8, host) == fe.offset
    ensures ReadUint(buf, off + 24, 8, host) == fe.numBytes
  {
    var a, b := EncodeNative(fe.diskBytenr, 8, host), EncodeNative(fe.diskNumBytes, 8, host);
    var c, d := EncodeNative(fe.offset, 8, host), EncodeNative(fe.numBytes, 8, host);
    SliceHalves(buf, off, a + b + c, d);
    SliceHalves(buf, off, a + b, c);
    SliceHalves(buf, off, a, b);
    Pow256Widths();
    ReadSlot(buf, off, fe.diskBytenr, 8, host);
    ReadSlot(buf, off + 8, fe.diskNumBytes, 8, host);
    ReadSlot(buf, off + 16, fe.offset, 8, host);
    ReadSlot(buf, off + 24, fe.numBytes, 8, host);
  }

  /** The bytes of an encoded extent item, wherever they sit in a buffer,
      read back as that item. */
  lemma FileExtentItemAt(buf: seq<u8>, off: nat, fe: FileExtentItem, host: Endian)
    requires off + FILE_EXTENT_ITEM_SIZE <= |buf|
    requires buf[off..off + FILE_EXTENT_ITEM_SIZE] == EncodeFileExtentItem(fe, host)
    ensures ParseFileExtentItem(buf, off, host) == fe
  {
    SliceHalves(buf, off, EncodeExtentPrefix(fe, host), EncodeExtentDisk(fe, host));
    ExtentPrefixAt(buf, off, fe, host);
    ExtentDiskAt(buf, off + EXTENT_PREFIX_SIZE, fe, host);
  }

  /** A file extent item written into a buffer reads back unchanged. */
  lemma FileExtentItemRoundTrip(pre: seq<u8>, fe: FileExtentItem, post: seq<u8>, host: Endian)
    ensures |pre| + FILE_EXTENT_ITEM_SIZE <= |pre + EncodeFileExtentItem(fe, host) + post|
    ensures ParseFileExtentItem(pre + EncodeFileExtentItem(fe, host) + post, |pre|, host) == fe
  {
    MiddleSlice(pre, EncodeFileExtentItem(fe, host), post);
    FileExtentItemAt(pre + EncodeFileExtentItem(fe, host) + post, |pre|, fe, host);
  }

  /** Two pieces written one after the other between a prefix and a suffix
      sit at their offsets. */
  lemma TwoPieces<T>(pre: seq<T>, a: seq<T>, b: seq<T>, post: seq<T>)
    ensures (pre + a + b + post)[|pre|..|pre| + |a|] == a
    ensures (pre + a + b + post)[|pre| + |a|..|pre| + |a| + |b|] == b
  {
    assert pre + a + b + post == pre + a + (b + post);
    assert pre + a + b + post == (pre + a) + b + post;
  }

  /** A search header followed by a file extent item: both read back. */
  lemma ExtentRecordParses(pre: seq<u8>, h: SearchHeader, fe: FileExtentItem, post: seq<u8>, host: Endian)
    ensures var buf := pre + EncodeSearchHeader(h, host) + EncodeFileExtentItem(fe, host) + post;
      && |pre| + SEARCH_HEADER_SIZE + FILE_EXTENT_ITEM_SIZE <= |buf|
      && ParseSearchHeader(buf, |pre|, host) == h
      && ParseFileExtentItem(buf, |pre| + SEARCH_HEADER_SIZE, host) == fe
  {
    var buf := pre + EncodeSearchHeader(h, host) + EncodeFileExtentItem(fe, host) + post;
    TwoPieces(pre, EncodeSearchHeader(h, host), EncodeFileExtentItem(fe, host), post);
    SearchHeaderAt(buf, |pre|, h, host);
    FileExtentItemAt(buf, |pre| + SEARCH_HEADER_SIZE, fe, host);
  }

  /** An extent item prefix in front of two further pieces: its fields read
      back, provided the full struct read stays in the buffer. This is the
      layout of an inline extent, whose payload follows the prefix. */
  lemma PrefixParsesBefore(pre: seq<u8>, fe: FileExtentItem, mid: seq<u8>, post: seq<u8>, host: Endian)
    requires |mid| + |post| >= FILE_EXTENT_ITEM_SIZE - EXTENT_PREFIX_SIZE
    ensures |pre| + FILE_EXTENT_ITEM_SIZE <= |pre + EncodeExtentPrefix(fe, host) + mid + post|
    ensures var parsed := ParseFileExtentItem(pre + EncodeExtentPrefix(fe, host) + mid + post, |pre|, host);
      && parsed.generation == fe.generation && parsed.ramBytes == fe.ramBytes
      && parsed.compression == fe.compression && parsed.encryption == fe.encryption
      && parsed.otherEncoding == fe.otherEncoding && parsed.kind == fe.kind
  {
    TwoPieces(pre, EncodeExtentPrefix(fe, host), mid, post);
    ExtentPrefixAt(pre + EncodeExtentPrefix(fe, host) + mid + post, |pre|, fe, host);
  }

  /** The 16-bit `name_len` field of a name-bearing struct at `off`. */
  function NameLen(buf: seq<u8>, off: nat, nameLenOffset: nat, host: Endian): (r: nat)
    requires off + nameLenOffset + 2 <= |buf|
    ensures r < 0x1_0000
  {
    Pow256Widths();
    ReadUint(buf, off + nameLenOffset, 2, host)
  }
}
