/** The record decode layer of src/item.rs: the two file-extent shapes and
    the closed compression mapping, plus the records whose decoders are not
    part of this model, kept as the raw inputs their decoders receive. */
module Items {
  import opened Core
  import opened Abi
  import Le

  /** `enum Compression` of src/lib.rs. */
  datatype Compression = None | Zlib | Lzo | Zstd

  datatype DecodeError = UnknownCompression(raw: u8)

  /** The kernel constant each variant stands for. */
  function CompressionCode(c: Compression): (code: u8)
  {
    match c
    case None => BTRFS_COMPRESS_NONE
    case Zlib => BTRFS_COMPRESS_ZLIB
    case Lzo => BTRFS_COMPRESS_LZO
    case Zstd => BTRFS_COMPRESS_ZSTD
  }

  /** The `match item.compression as u32` of both extent decoders. A value
      outside the four constants reaches `unreachable!()`, modelled as an
      error rather than a default variant. */
  function CompressionFromRaw(raw: u8): (r: Result<Compression, DecodeError>)
    ensures r.Ok? ==> CompressionCode(r.value) == raw
    ensures r.Err? ==> r.error == UnknownCompression(raw) && forall c :: CompressionCode(c) != raw
  {
    if raw == BTRFS_COMPRESS_NONE then Ok(Compression.None)
    else if raw == BTRFS_COMPRESS_LZO then Ok(Lzo)
    else if raw == BTRFS_COMPRESS_ZLIB then Ok(Zlib)
    else if raw == BTRFS_COMPRESS_ZSTD then Ok(Zstd)
    else Err(UnknownCompression(raw))
  }

  /** Every variant is recognised from its own constant, and the four
      constants are distinct. */
  lemma CompressionRoundTrip(c: Compression, d: Compression)
    ensures CompressionFromRaw(CompressionCode(c)) == Ok(c)
    ensures CompressionCode(c) == CompressionCode(d) <==> c == d
  {
  }

  datatype FileExtentReg = FileExtentReg(
    generation: Le.U64,
    ramBytes: Le.U64,
    compression: Compression,
    diskBytenr: Le.U64,
    diskNumBytes: Le.U64,
    offset: Le.U64,
    numBytes: Le.U64)

  datatype FileExtentInline = FileExtentInline(
    generation: Le.U64,
    ramBytes: Le.U64,
    compression: Compression,
    data: seq<u8>)

  /** `FileExtentReg::from_c_struct`. */
  function FileExtentRegFromCStruct(item: FileExtentItem, host: Endian): (r: Result<FileExtentReg, DecodeError>)
    ensures r.Ok? <==> CompressionFromRaw(item.compression).Ok?
    ensures r.Err? ==> r.error == UnknownCompression(item.compression)
    ensures r.Ok? ==>
      && CompressionCode(r.value.compression) == item.compression
      && r.value.generation.Get() == item.generation
      && r.value.ramBytes.Get() == item.ramBytes
      && r.value.diskBytenr.Get() == item.diskBytenr
      && r.value.diskNumBytes.Get() == item.diskNumBytes
      && r.value.offset.Get() == item.offset
      && r.value.numBytes.Get() == item.numBytes
  {
    match CompressionFromRaw(item.compression)
    case Err(e) => Err(e)
    case Ok(c) =>
      Ok(FileExtentReg(
           Le.NewU64(item.generation, host),
           Le.NewU64(item.ramBytes, host),
           c,
           Le.NewU64(item.diskBytenr, host),
           Le.NewU64(item.diskNumBytes, host),
           Le.NewU64(item.offset, host),
           Le.NewU64(item.numBytes, host)))
  }

  /** `FileExtentInline::from_c_struct_and_data`. */
  function FileExtentInlineFromCStructAndData(item: FileExtentItem, data: seq<u8>, host: Endian)
    : (r: Result<FileExtentInline, DecodeError>)
    ensures r.Ok? <==> CompressionFromRaw(item.compression).Ok?
    ensures r.Err? ==> r.error == UnknownCompression(item.compression)
    ensures r.Ok? ==>
      && CompressionCode(r.value.compression) == item.compression
      && r.value.generation.Get() == item.generation
      && r.value.ramBytes.Get() == item.ramBytes
      && r.value.data == data
  {
    match CompressionFromRaw(item.compression)
    case Err(e) => Err(e)
    case Ok(c) =>
      Ok(FileExtentInline(Le.NewU64(item.generation, host), Le.NewU64(item.ramBytes, host), c, data))
  }

  /** Both decoders apply the same compression mapping and copy the shared
      leading fields alike. */
  lemma ExtentDecodersAgree(item: FileExtentItem, data: seq<u8>, host: Endian)
    ensures FileExtentRegFromCStruct(item, host).Ok? <==> FileExtentInlineFromCStructAndData(item, data, host).Ok?
    ensures FileExtentRegFromCStruct(item, host).Ok? ==>
      var reg := FileExtentRegFromCStruct(item, host).value;
      var inl := FileExtentInlineFromCStructAndData(item, data, host).value;
      reg.compression == inl.compression && reg.generation == inl.generation && reg.ramBytes == inl.ramBytes
  {
  }

  /** Neither decoder reads `encryption`, `other_encoding` or the extent
      type, and the inline decoder does not read the disk fields either. */
  lemma ExtentDecodersIgnoreUnreadFields(a: FileExtentItem, b: FileExtentItem, data: seq<u8>, host: Endian)
    requires a.generation == b.generation && a.ramBytes == b.ramBytes && a.compression == b.compression
    ensures FileExtentInlineFromCStructAndData(a, data, host) == FileExtentInlineFromCStructAndData(b, data, host)
    ensures a.diskBytenr == b.diskBytenr && a.diskNumBytes == b.diskNumBytes
         && a.offset == b.offset && a.numBytes == b.numBytes
         ==> FileExtentRegFromCStruct(a, host) == FileExtentRegFromCStruct(b, host)
  {
  }

  // Records whose decoders are not part of this model. Each keeps exactly
  // the input its decoder is given: the raw struct bytes read from the
  // buffer and, for the name-bearing kinds, the name slice.

  datatype Root = Root(raw: seq<u8>)
  datatype RootRef = RootRef(raw: seq<u8>, name: seq<u8>)
  datatype Inode = Inode(raw: seq<u8>)
  datatype InodeRef = InodeRef(raw: seq<u8>, name: seq<u8>)
  datatype DirItem = DirItem(raw: seq<u8>, name: seq<u8>)
  datatype DirIndex = DirIndex(raw: seq<u8>, name: seq<u8>)
  datatype FreeSpaceHeader = FreeSpaceHeader(raw: seq<u8>)

  /** A 128-bit identifier, wrapped unchanged. */
  datatype Uuid = Uuid(bytes: seq<u8>)
}
