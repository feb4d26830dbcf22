/** The tree-search cursor of src/tree_search.rs. The search ioctl becomes
    an oracle `query` from the search key the cursor sends to the kernel's
    reply; the cursor itself is an immutable record advanced by `Next`. */
module Search {
  import opened Core
  import opened Abi
  import Rec = Items

  /** `IOCTL_BUFF_SIZE`: the size of the result buffer handed to the kernel. */
  const IOCTL_BUFF_SIZE: nat := 65536

  /** Offset of inline extent data behind the search header, as the source
      computes it: two `u64` fields and one byte. */
  const INLINE_DATA_OFFSET: nat := 2 * 8 + 1

  datatype KeyType =
    | FreeSpaceHeader | InodeItem | InodeRef | InodeExtref | XattrItem
    | VerityDescItem | VerityMerkleItem | OrphanItem | DirLogItem | DirLogIndex
    | DirItem | DirIndex | ExtentData | CsumItem | ExtentCsum
    | RootItem | RootBackref | RootRef | ExtentItem | MetadataItem
    | TreeBlockRef | ExtentDataRef | ExtentRefV0 | SharedBlockRef | SharedDataRef
    | BlockGroupItem | FreeSpaceInfo | FreeSpaceExtent | FreeSpaceBitmap | DevExtent
    | DevItem | ChunkItem | QgroupStatus | QgroupInfo | QgroupLimit
    | QgroupRelation | TemporaryItem | PersistentItem | DevReplace | UuidSubvol
    | UuidReceivedSubvol | StringItem

  /** The explicit discriminants of `enum KeyType`. */
  function KeyTypeCode(k: KeyType): (code: u32)
  {
    match k
    case FreeSpaceHeader => 0
    case InodeItem => 1
    case InodeRef => 12
    case InodeExtref => 13
    case XattrItem => 24
    case VerityDescItem => 36
    case VerityMerkleItem => 37
    case OrphanItem => 48
    case DirLogItem => 60
    case DirLogIndex => 72
    case DirItem => 84
    case DirIndex => 96
    case ExtentData => 108
    case CsumItem => 120
    case ExtentCsum => 128
    case RootItem => 132
    case RootBackref => 144
    case RootRef => 156
    case ExtentItem => 168
    case MetadataItem => 169
    case TreeBlockRef => 176
    case ExtentDataRef => 178
    case ExtentRefV0 => 180
    case SharedBlockRef => 182
    case SharedDataRef => 184
    case BlockGroupItem => 192
    case FreeSpaceInfo => 198
    case FreeSpaceExtent => 199
    case FreeSpaceBitmap => 200
    case DevExtent => 204
    case DevItem => 216
    case ChunkItem => 228
    case QgroupStatus => 240
    case QgroupInfo => 242
    case QgroupLimit => 244
    case QgroupRelation => 246
    case TemporaryItem => 248
    case PersistentItem => 249
    case DevReplace => 250
    case UuidSubvol => 251
    case UuidReceivedSubvol => 252
    case StringItem => 253
  }

  /** `impl TryFrom<u32> for KeyType`: the variant whose discriminant is
      `value`, or `Err(())` when there is none. */
  function KeyTypeTryFrom(value: u32): (r: Result<KeyType, ()>)
  {
    match value
    case 0 => Ok(KeyType.FreeSpaceHeader)
    case 1 => Ok(KeyType.InodeItem)
    case 12 => Ok(KeyType.InodeRef)
    case 13 => Ok(KeyType.InodeExtref)
    case 24 => Ok(KeyType.XattrItem)
    case 36 => Ok(KeyType.VerityDescItem)
    case 37 => Ok(KeyType.VerityMerkleItem)
    case 48 => Ok(KeyType.OrphanItem)
    case 60 => Ok(KeyType.DirLogItem)
    case 72 => Ok(KeyType.DirLogIndex)
    case 84 => Ok(KeyType.DirItem)
    case 96 => Ok(KeyType.DirIndex)
    case 108 => Ok(KeyType.ExtentData)
    case 120 => Ok(KeyType.CsumItem)
    case 128 => Ok(KeyType.ExtentCsum)
    case 132 => Ok(KeyType.RootItem)
    case 144 => Ok(KeyType.RootBackref)
    case 156 => Ok(KeyType.RootRef)
    case 168 => Ok(KeyType.ExtentItem)
    case 169 => Ok(KeyType.MetadataItem)
    case 176 => Ok(KeyType.TreeBlockRef)
    case 178 => Ok(KeyType.ExtentDataRef)
    case 180 => Ok(KeyType.ExtentRefV0)
    case 182 => Ok(KeyType.SharedBlockRef)
    case 184 => Ok(KeyType.SharedDataRef)
    case 192 => Ok(KeyType.BlockGroupItem)
    case 198 => Ok(KeyType.FreeSpaceInfo)
    case 199 => Ok(KeyType.FreeSpaceExtent)
    case 200 => Ok(KeyType.FreeSpaceBitmap)
    case 204 => Ok(KeyType.DevExtent)
    case 216 => Ok(KeyType.DevItem)
    case 228 => Ok(KeyType.ChunkItem)
    case 240 => Ok(KeyType.QgroupStatus)
    case 242 => Ok(KeyType.QgroupInfo)
    case 244 => Ok(KeyType.QgroupLimit)
    case 246 => Ok(KeyType.QgroupRelation)
    case 248 => Ok(KeyType.TemporaryItem)
    case 249 => Ok(KeyType.PersistentItem)
    case 250 => Ok(KeyType.DevReplace)
    case 251 => Ok(KeyType.UuidSubvol)
    case 252 => Ok(KeyType.UuidReceivedSubvol)
    case 253 => Ok(KeyType.StringItem)
    case _ => Err(())
  }

  // The two directions of the conversion, proved a band of discriminants
  // at a time.

  lemma TryFromSoundFrom0(value: u32)
    requires 0 <= value < 60
    ensures KeyTypeTryFrom(value).Ok? ==> KeyTypeCode(KeyTypeTryFrom(value).value) == value
  {
  }

  lemma RoundTripFrom0(k: KeyType)
    requires 0 <= KeyTypeCode(k) < 60
    ensures KeyTypeTryFrom(KeyTypeCode(k)) == Ok(k)
  {
  }

  lemma TryFromSoundFrom60(value: u32)
    requires 60 <= value < 130
    ensures KeyTypeTryFrom(value).Ok? ==> KeyTypeCode(KeyTypeTryFrom(value).value) == value
  {
  }

  lemma RoundTripFrom60(k: KeyType)
    requires 60 <= KeyTypeCode(k) < 130
    ensures KeyTypeTryFrom(KeyTypeCode(k)) == Ok(k)
  {
  }

  lemma TryFromSoundFrom130(value: u32)
    requires 130 <= value < 175
    ensures KeyTypeTryFrom(value).Ok? ==> KeyTypeCode(KeyTypeTryFrom(value).value) == value
  {
  }

  lemma RoundTripFrom130(k: KeyType)
    requires 130 <= KeyTypeCode(k) < 175
    ensures KeyTypeTryFrom(KeyTypeCode(k)) == Ok(k)
  {
  }

  lemma TryFromSoundFrom175(value: u32)
    requires 175 <= value < 195
    ensures KeyTypeTryFrom(value).Ok? ==> KeyTypeCode(KeyTypeTryFrom(value).value) == value
  {
  }

  lemma RoundTripFrom175(k: KeyType)
    requires 175 <= KeyTypeCode(k) < 195
    ensures KeyTypeTryFrom(KeyTypeCode(k)) == Ok(k)
  {
  }

  lemma TryFromSoundFrom195(value: u32)
    requires 195 <= value < 230
    ensures KeyTypeTryFrom(value).Ok? ==> KeyTypeCode(KeyTypeTryFrom(value).value) == value
  {
  }

  lemma RoundTripFrom195(k: KeyType)
    requires 195 <= KeyTypeCode(k) < 230
    ensures KeyTypeTryFrom(KeyTypeCode(k)) == Ok(k)
  {
  }

  lemma TryFromSoundFrom230(value: u32)
    requires 230 <= value < 249
    ensures KeyTypeTryFrom(value).Ok? ==> KeyTypeCode(KeyTypeTryFrom(value).value) == value
  {
  }

  lemma RoundTripFrom230(k: KeyType)
    requires 230 <= KeyTypeCode(k) < 249
    ensures KeyTypeTryFrom(KeyTypeCode(k)) == Ok(k)
  {
  }

  lemma TryFromSoundFrom249(value: u32)
    requires 249 <= value
    ensures KeyTypeTryFrom(value).Ok? ==> KeyTypeCode(KeyTypeTryFrom(value).value) == value
  {
  }

  lemma RoundTripFrom249(k: KeyType)
    requires 249 <= KeyTypeCode(k)
    ensures KeyTypeTryFrom(KeyTypeCode(k)) == Ok(k)
  {
  }

  /** Whatever `try_from` yields carries the discriminant it was given. */
  lemma KeyTypeTryFromSound(value: u32)
    ensures KeyTypeTryFrom(value).Ok? ==> KeyTypeCode(KeyTypeTryFrom(value).value) == value
  {
    if value < 60 {
      TryFromSoundFrom0(value);
    } else if value < 130 {
      TryFromSoundFrom60(value);
    } else if value < 175 {
      TryFromSoundFrom130(value);
    } else if value < 195 {
      TryFromSoundFrom175(value);
    } else if value < 230 {
      TryFromSoundFrom195(value);
    } else if value < 249 {
      TryFromSoundFrom230(value);
    } else {
      TryFromSoundFrom249(value);
    }
  }

  /** Every variant converts back from its discriminant. */
  lemma KeyTypeRoundTrip(k: KeyType)
    ensures KeyTypeTryFrom(KeyTypeCode(k)) == Ok(k)
  {
    if KeyTypeCode(k) < 60 {
      RoundTripFrom0(k);
    } else if KeyTypeCode(k) < 130 {
      RoundTripFrom60(k);
    } else if KeyTypeCode(k) < 175 {
      RoundTripFrom130(k);
    } else if KeyTypeCode(k) < 195 {
      RoundTripFrom175(k);
    } else if KeyTypeCode(k) < 230 {
      RoundTripFrom195(k);
    } else if KeyTypeCode(k) < 249 {
      RoundTripFrom230(k);
    } else {
      RoundTripFrom249(k);
    }
  }

  /** `try_from` yields `k` exactly on `k`'s discriminant. */
  lemma KeyTypeTryFromExact(value: u32, k: KeyType)
    ensures KeyTypeTryFrom(value) == Ok(k) <==> value == KeyTypeCode(k)
  {
    KeyTypeRoundTrip(k);
    KeyTypeTryFromSound(value);
  }

  /** `try_from` fails exactly on the values no variant has as its
      discriminant. */
  lemma KeyTypeTryFromFails(value: u32)
    ensures KeyTypeTryFrom(value).Err? <==> forall k :: KeyTypeCode(k) != value
  {
    KeyTypeTryFromSound(value);
    if KeyTypeTryFrom(value).Err? {
      forall k: KeyType ensures KeyTypeCode(k) != value {
        KeyTypeRoundTrip(k);
      }
    }
  }

  datatype Tree =
    | Auto | Root | Extent | Chunk | Dev | Fs | Dir | Csum | Quota | Uuid
    | FreeSpace | BlockGroup | Subvol(id: u64)

  /** `Tree::into_u64`. */
  function IntoU64(t: Tree): (r: u64)
    ensures t.Subvol? ==> r == t.id
    ensures !t.Subvol? ==> r <= BTRFS_BLOCK_GROUP_TREE_OBJECTID
    ensures !t.Subvol? ==> (r == 0 <==> t.Auto?)
  {
    match t
    case Auto => 0
    case Root => BTRFS_ROOT_TREE_OBJECTID
    case Extent => BTRFS_EXTENT_TREE_OBJECTID
    case Fs => BTRFS_FS_TREE_OBJECTID
    case Chunk => BTRFS_CHUNK_TREE_OBJECTID
    case Dev => BTRFS_DEV_TREE_OBJECTID
    case Dir => BTRFS_ROOT_TREE_DIR_OBJECTID
    case Csum => BTRFS_CSUM_TREE_OBJECTID
    case Quota => BTRFS_QUOTA_TREE_OBJECTID
    case Uuid => BTRFS_UUID_TREE_OBJECTID
    case FreeSpace => BTRFS_FREE_SPACE_TREE_OBJECTID
    case BlockGroup => BTRFS_BLOCK_GROUP_TREE_OBJECTID
    case Subvol(i) => i
  }

  /** The named trees get pairwise distinct ids. */
  lemma NamedTreesDistinct(a: Tree, b: Tree)
    requires !a.Subvol? && !b.Subvol?
    ensures IntoU64(a) == IntoU64(b) <==> a == b
  {
  }

  /** `btrfs_ioctl_search_key` without its unused padding fields. */
  datatype SearchKey = SearchKey(
    treeId: u64,
    minObjectid: u64, maxObjectid: u64,
    minOffset: u64, maxOffset: u64,
    minTransid: u64, maxTransid: u64,
    minType: u32, maxType: u32,
    nrItems: u32)

  /** `core::ops::Range`. */
  datatype Range<T> = Range(start: T, end: T)

  datatype TreeSearchArgs = TreeSearchArgs(key: SearchKey, size: u64, buffer: seq<u8>)

  /** `TreeSearchArgs::new`. */
  function TreeSearchArgsNew(
    treeId: u64,
    objectids: Range<u64>,
    offsets: Range<u64>,
    transids: Range<u64>,
    types: Range<u32>,
    items: u32): (a: TreeSearchArgs)
    ensures a.key.treeId == treeId && a.key.nrItems == items
    ensures a.key.minObjectid == objectids.start && a.key.maxObjectid == objectids.end
    ensures a.key.minOffset == offsets.start && a.key.maxOffset == offsets.end
    ensures a.key.minTransid == transids.start && a.key.maxTransid == transids.end
    ensures a.key.minType == types.start && a.key.maxType == types.end
    ensures a.size == IOCTL_BUFF_SIZE && |a.buffer| == IOCTL_BUFF_SIZE
    ensures forall i :: 0 <= i < |a.buffer| ==> a.buffer[i] == 0
  {
    var key := SearchKey(
      treeId,
      objectids.start, objectids.end,
      offsets.start, offsets.end,
      transids.start, transids.end,
      types.start, types.end,
      items);
    TreeSearchArgs(key, IOCTL_BUFF_SIZE, seq(IOCTL_BUFF_SIZE, _ => 0))
  }

  /** `struct TreeSearch` without the borrowed file handle. */
  datatype TreeSearch = TreeSearch(args: TreeSearchArgs, bp: nat)

  /** `TreeSearch::new`: no records buffered yet, so the first `Next` queries. */
  function TreeSearchNew(tree: Tree, objectids: Range<u64>, offsets: Range<u64>,
                         transids: Range<u64>, types: Range<u32>): (s: TreeSearch)
    ensures s.args.key.treeId == IntoU64(tree)
    ensures s.args.key.nrItems == 0 && s.bp == 0
    ensures |s.args.buffer| == IOCTL_BUFF_SIZE
  {
    TreeSearch(TreeSearchArgsNew(IntoU64(tree), objectids, offsets, transids, types, 0), 0)
  }

  datatype Key = Key(objectid: u64, kind: KeyType, offset: u64)

  /** `enum Item`. */
  datatype Item =
    | Root(root: Rec.Root)
    | RootRef(rootRef: Rec.RootRef)
    | RootBackRef(rootRef: Rec.RootRef)
    | FileExtentReg(reg: Rec.FileExtentReg)
    | FileExtentInline(inline: Rec.FileExtentInline)
    | DirItem(dirItem: Rec.DirItem)
    | DirIndex(dirIndex: Rec.DirIndex)
    | Inode(inode: Rec.Inode)
    | InodeRef(inodeRef: Rec.InodeRef)
    | FreeSpaceHeader(freeSpaceHeader: Rec.FreeSpaceHeader)

  /** Why a call of `next` ends in an error: the ioctl's own error, or one
      of the panics of the source made explicit. */
  datatype SearchError =
    | Ioctl(errno: int)                      // Err(e) from the ioctl
    | OutOfBounds(offset: nat, length: nat)  // a read or slice past the buffer
    | UnknownKeyType(tag: u32)               // unwrap() on KeyType::try_from
    | Unimplemented(kind: KeyType)           // todo!()
    | XattrUnreachable                       // unreachable!() in the directory arm
    | UnknownExtentType(extentType: u8)      // unreachable!() in the extent arm
    | Decode(cause: Rec.DecodeError)         // unreachable!() in the compression match

  /** The kernel's reply to one search ioctl: an error, or the number of
      records found together with the bytes it wrote from offset 0. A failed
      search is taken to leave the buffer as it was. */
  datatype SearchReply = SearchFailed(errno: int) | SearchDone(nrItems: u32, written: seq<u8>)

  /** What one call of `next` returns: `Some(Ok(..))`, `None` or `Some(Err(..))`. */
  datatype Step = Yielded(key: Key, item: Item) | Finished | Failed(error: SearchError)

  type Transition = Core.Transition<TreeSearch, Step>

  /** The key sent to the kernel on a refill: the cursor's key asking for
      `u32::MAX` items. */
  function Request(s: TreeSearch): (key: SearchKey)
  {
    s.args.key.(nrItems := U32_MAX)
  }

  /** The cursor once a refill reply of `n` records has been written into
      its buffer. */
  function Refilled(s: TreeSearch, n: u32, written: seq<u8>): (filled: TreeSearch)
  {
    TreeSearch(s.args.(key := Request(s).(nrItems := n), buffer := Overlay(s.args.buffer, written)), 0)
  }

  /** The search ranges and the tree, which `next` never touches. */
  predicate SameBounds(a: SearchKey, b: SearchKey)
  {
    && a.treeId == b.treeId
    && a.maxObjectid == b.maxObjectid
    && a.maxOffset == b.maxOffset
    && a.minTransid == b.minTransid
    && a.maxTransid == b.maxTransid
    && a.maxType == b.maxType
  }

  /** The kinds whose arm is `todo!()`, explicitly or through `_`. */
  predicate IsUnimplemented(k: KeyType)
  {
    !(k.RootItem? || k.RootRef? || k.RootBackref? || k.InodeItem? || k.ExtentData?
      || k.FreeSpaceHeader? || k.DirItem? || k.DirIndex? || k.XattrItem? || k.InodeRef?)
  }

  /** `true` when `raw` is the `size` bytes of the buffer at `off`. */
  ghost predicate StructAt(buf: seq<u8>, off: nat, size: nat, raw: seq<u8>)
  {
    off + size <= |buf| && raw == buf[off..off + size]
  }

  /** `true` when `raw` is the struct at `off` and `name` the slice that
      starts right after it and is as long as the struct's `name_len`. */
  ghost predicate NamedAt(buf: seq<u8>, off: nat, size: nat, nameLenOffset: nat, host: Endian,
                          raw: seq<u8>, name: seq<u8>)
  {
    && nameLenOffset + 2 <= size
    && StructAt(buf, off, size, raw)
    && |name| == NameLen(buf, off, nameLenOffset, host)
    && StructAt(buf, off + size, |name|, name)
  }

  /** Where the bytes of each kind of item come from, for a record whose
      search header `h` sits at `bp`. */
  ghost predicate ItemFromBytes(buf: seq<u8>, bp: nat, h: SearchHeader, host: Endian, kind: KeyType, item: Item)
  {
    var body := bp + SEARCH_HEADER_SIZE;
    match item
    case Root(r) => kind == RootItem && StructAt(buf, body, ROOT_ITEM_SIZE, r.raw)
    case RootRef(r) =>
      kind == KeyType.RootRef && NamedAt(buf, body, ROOT_REF_SIZE, ROOT_REF_NAME_LEN_OFFSET, host, r.raw, r.name)
    case RootBackRef(r) =>
      kind == RootBackref && NamedAt(buf, body, ROOT_REF_SIZE, ROOT_REF_NAME_LEN_OFFSET, host, r.raw, r.name)
    case Inode(r) => kind == InodeItem && StructAt(buf, body, INODE_ITEM_SIZE, r.raw)
    case InodeRef(r) =>
      kind == KeyType.InodeRef && NamedAt(buf, body, INODE_REF_SIZE, INODE_REF_NAME_LEN_OFFSET, host, r.raw, r.name)
    case DirItem(r) =>
      kind == KeyType.DirItem && NamedAt(buf, body, DIR_ITEM_SIZE, DIR_ITEM_NAME_LEN_OFFSET, host, r.raw, r.name)
    case DirIndex(r) =>
      kind == KeyType.DirIndex && NamedAt(buf, body, DIR_ITEM_SIZE, DIR_ITEM_NAME_LEN_OFFSET, host, r.raw, r.name)
    case FreeSpaceHeader(r) =>
      kind == KeyType.FreeSpaceHeader && StructAt(buf, body, FREE_SPACE_HEADER_SIZE, r.raw)
    case FileExtentReg(x) =>
      && kind == ExtentData
      && body + FILE_EXTENT_ITEM_SIZE <= |buf|
      && var fe := ParseFileExtentItem(buf, body, host);
      && (fe.kind == BTRFS_FILE_EXTENT_REG || fe.kind == BTRFS_FILE_EXTENT_PREALLOC)
      && Rec.FileExtentRegFromCStruct(fe, host) == Ok(x)
    case FileExtentInline(x) =>
      && kind == ExtentData
      && body + FILE_EXTENT_ITEM_SIZE <= |buf|
      && var fe := ParseFileExtentItem(buf, body, host);
      && fe.kind == BTRFS_FILE_EXTENT_INLINE
      && |x.data| == h.len
      && StructAt(buf, bp + SEARCH_HEADER_SIZE + INLINE_DATA_OFFSET, h.len, x.data)
      && Rec.FileExtentInlineFromCStructAndData(fe, x.data, host) == Ok(x)
  }

  /** A fixed struct and the name slice behind it. */
  datatype Named = Named(raw: seq<u8>, name: seq<u8>)

  function ReadStruct(buf: seq<u8>, off: nat, size: nat): (r: Result<seq<u8>, SearchError>)
  {
    if off + size <= |buf| then Ok(buf[off..off + size]) else Err(OutOfBounds(off, size))
  }

  function ReadNamed(buf: seq<u8>, off: nat, size: nat, nameLenOffset: nat, host: Endian)
    : (r: Result<Named, SearchError>)
    requires nameLenOffset + 2 <= size
    ensures r.Ok? ==> NamedAt(buf, off, size, nameLenOffset, host, r.value.raw, r.value.name)
  {
    if off + size > |buf| then Err(OutOfBounds(off, size))
    else
      var n := NameLen(buf, off, nameLenOffset, host);
      if off + size + n > |buf| then Err(OutOfBounds(off + size, n))
      else Ok(Named(buf[off..off + size], buf[off + size..off + size + n]))
  }

  /** The `ExtentData` arm: the extent type selects the shape, and inline
      data is taken from `bp` + header + 17 with the header's `len`. */
  function DecodeExtentData(buf: seq<u8>, bp: nat, h: SearchHeader, host: Endian)
    : (r: Result<Item, SearchError>)
    ensures r.Ok? ==> ItemFromBytes(buf, bp, h, host, ExtentData, r.value)
    ensures r.Err? ==> !r.error.Ioctl?
  {
    var body := bp + SEARCH_HEADER_SIZE;
    if body + FILE_EXTENT_ITEM_SIZE > |buf| then Err(OutOfBounds(body, FILE_EXTENT_ITEM_SIZE))
    else
      var fe := ParseFileExtentItem(buf, body, host);
      if fe.kind == BTRFS_FILE_EXTENT_REG || fe.kind == BTRFS_FILE_EXTENT_PREALLOC then
        match Rec.FileExtentRegFromCStruct(fe, host)
        case Err(e) => Err(Decode(e))
        case Ok(x) => Ok(FileExtentReg(x))
      else if fe.kind == BTRFS_FILE_EXTENT_INLINE then
        var off := bp + SEARCH_HEADER_SIZE + INLINE_DATA_OFFSET;
        if off + h.len > |buf| then Err(OutOfBounds(off, h.len))
        else
          match Rec.FileExtentInlineFromCStructAndData(fe, buf[off..off + h.len], host)
          case Err(e) => Err(Decode(e))
          case Ok(x) => Ok(FileExtentInline(x))
      else Err(UnknownExtentType(fe.kind))
  }

  /** The arm shared by `DirItem`, `DirIndex` and `XattrItem`: the name is
      sliced for all three, and `XattrItem` then reaches `unreachable!()`. */
  function DecodeDir(buf: seq<u8>, bp: nat, h: SearchHeader, kind: KeyType, host: Endian)
    : (r: Result<Item, SearchError>)
    requires kind.DirItem? || kind.DirIndex? || kind.XattrItem?
    ensures r.Ok? ==> ItemFromBytes(buf, bp, h, host, kind, r.value)
    ensures r.Err? ==> !r.error.Ioctl?
  {
    var n :- ReadNamed(buf, bp + SEARCH_HEADER_SIZE, DIR_ITEM_SIZE, DIR_ITEM_NAME_LEN_OFFSET, host);
    if kind == KeyType.DirItem then Ok(Item.DirItem(Rec.DirItem(n.raw, n.name)))
    else if kind == KeyType.DirIndex then Ok(Item.DirIndex(Rec.DirIndex(n.raw, n.name)))
    else Err(XattrUnreachable)
  }

  /** The `match key.r#type` of `next`, for a record whose header `h` sits
      at `bp` and whose tag converted to `kind`. */
  function DecodeItem(buf: seq<u8>, bp: nat, h: SearchHeader, kind: KeyType, host: Endian)
    : (r: Result<Item, SearchError>)
    ensures r.Ok? ==> ItemFromBytes(buf, bp, h, host, kind, r.value)
    ensures r.Err? ==> !r.error.Ioctl?
    ensures IsUnimplemented(kind) ==> r == Err(Unimplemented(kind))
    ensures kind == ExtentData ==> r == DecodeExtentData(buf, bp, h, host)
  {
    var body := bp + SEARCH_HEADER_SIZE;
    match kind
    case RootItem =>
      var raw :- ReadStruct(buf, body, ROOT_ITEM_SIZE);
      Ok(Item.Root(Rec.Root(raw)))
    case RootRef | RootBackref =>
      var n :- ReadNamed(buf, body, ROOT_REF_SIZE, ROOT_REF_NAME_LEN_OFFSET, host);
      if kind == KeyType.RootRef then Ok(Item.RootRef(Rec.RootRef(n.raw, n.name)))
      else Ok(RootBackRef(Rec.RootRef(n.raw, n.name)))
    case InodeItem =>
      var raw :- ReadStruct(buf, body, INODE_ITEM_SIZE);
      Ok(Inode(Rec.Inode(raw)))
    case ExtentData => DecodeExtentData(buf, bp, h, host)
    case FreeSpaceHeader =>
      var raw :- ReadStruct(buf, body, FREE_SPACE_HEADER_SIZE);
      Ok(Item.FreeSpaceHeader(Rec.FreeSpaceHeader(raw)))
    case DirItem | DirIndex | XattrItem => DecodeDir(buf, bp, h, kind, host)
    case InodeRef =>
      var n :- ReadNamed(buf, body, INODE_REF_SIZE, INODE_REF_NAME_LEN_OFFSET, host);
      Ok(Item.InodeRef(Rec.InodeRef(n.raw, n.name)))
    case _ => Err(Unimplemented(kind))
  }

  /** The cursor after consuming the record whose header is `h`. */
  function Advance(s: TreeSearch, h: SearchHeader): (after: TreeSearch)
    requires s.args.key.nrItems > 0
  {
    var key := s.args.key.(
      minObjectid := WrappingIncrement64(h.objectid),
      minOffset := WrappingIncrement64(h.offset),
      minType := WrappingIncrement32(h.kind),
      nrItems := s.args.key.nrItems - 1);
    TreeSearch(s.args.(key := key), s.bp + SEARCH_HEADER_SIZE + h.len)
  }

  /** The part of `next` after the refill: decode the record at `bp` and
      move past it. */
  function Consume(s: TreeSearch, host: Endian): (t: Transition)
    requires s.args.key.nrItems > 0
    ensures t.step.Yielded? ==>
      && s.bp + SEARCH_HEADER_SIZE <= |s.args.buffer|
      && var h := ParseSearchHeader(s.args.buffer, s.bp, host);
      && t.step.key.objectid == h.objectid
      && t.step.key.offset == h.offset
      && KeyTypeCode(t.step.key.kind) == h.kind
      && ItemFromBytes(s.args.buffer, s.bp, h, host, t.step.key.kind, t.step.item)
      && t.state.bp == s.bp + SEARCH_HEADER_SIZE + h.len
      && t.state.args.key.nrItems == s.args.key.nrItems - 1
      && t.state.args.key.minObjectid == WrappingIncrement64(h.objectid)
      && t.state.args.key.minOffset == WrappingIncrement64(h.offset)
      && t.state.args.key.minType == WrappingIncrement32(h.kind)
      && SameBounds(s.args.key, t.state.args.key)
      && t.state.args.buffer == s.args.buffer
      && t.state.args.size == s.args.size
    ensures !t.step.Yielded? ==> t.state == s && t.step.Failed? && !t.step.error.Ioctl?
    ensures s.bp + SEARCH_HEADER_SIZE > |s.args.buffer| ==> t.step == Failed(OutOfBounds(s.bp, SEARCH_HEADER_SIZE))
    ensures s.bp + SEARCH_HEADER_SIZE <= |s.args.buffer| ==>
      var tag := ParseSearchHeader(s.args.buffer, s.bp, host).kind;
      && (KeyTypeTryFrom(tag).Err? ==> t.step == Failed(UnknownKeyType(tag)))
      && (KeyTypeTryFrom(tag).Ok? && IsUnimplemented(KeyTypeTryFrom(tag).value) ==>
            t.step == Failed(Unimplemented(KeyTypeTryFrom(tag).value)))
  {
    var buf := s.args.buffer;
    if s.bp + SEARCH_HEADER_SIZE > |buf| then Transition(s, Failed(OutOfBounds(s.bp, SEARCH_HEADER_SIZE)))
    else
      var h := ParseSearchHeader(buf, s.bp, host);
      KeyTypeTryFromSound(h.kind);
      match KeyTypeTryFrom(h.kind)
      case Err(_) => Transition(s, Failed(UnknownKeyType(h.kind)))
      case Ok(kind) =>
        match DecodeItem(buf, s.bp, h, kind, host)
        case Err(e) => Transition(s, Failed(e))
        case Ok(item) => Transition(Advance(s, h), Yielded(Key(h.objectid, kind, h.offset), item))
  }

  /** `impl Iterator for TreeSearch`: `next`. */
  function Next(s: TreeSearch, host: Endian, query: SearchKey -> SearchReply): (t: Transition)
    ensures SameBounds(s.args.key, t.state.args.key)
    ensures |t.state.args.buffer| == |s.args.buffer| && t.state.args.size == s.args.size
    ensures s.args.key.nrItems != 0 ==> t == Consume(s, host)
    ensures s.args.key.nrItems == 0 ==>
      match query(Request(s))
      case SearchFailed(e) =>
        t.step == Failed(Ioctl(e)) && t.state.bp == 0 && t.state.args.key == Request(s)
      case SearchDone(n, written) =>
        if n == 0 then t == Transition(Refilled(s, n, written), Finished)
        else t == Consume(Refilled(s, n, written), host)
    ensures t.step.Finished? <==>
      s.args.key.nrItems == 0 && query(Request(s)).SearchDone? && query(Request(s)).nrItems == 0
  {
    if s.args.key.nrItems == 0 then
      var armed := TreeSearch(s.args.(key := Request(s)), 0);
      match query(armed.args.key)
      case SearchFailed(e) => Transition(armed, Failed(Ioctl(e)))
      case SearchDone(n, written) =>
        var filled := Refilled(s, n, written);
        if n == 0 then Transition(filled, Finished) else Consume(filled, host)
    else Consume(s, host)
  }

  // ---------------------------------------------------------------------
  // Properties of the cursor over several calls.

  /** The first call on a fresh search issues the query built from the
      ranges, asking for `u32::MAX` items; a reply of zero records ends the
      iteration at once, and a failed query is returned as is. */
  lemma FreshSearchQueriesFirst(tree: Tree, objectids: Range<u64>, offsets: Range<u64>,
                                transids: Range<u64>, types: Range<u32>,
                                host: Endian, query: SearchKey -> SearchReply)
    ensures var s := TreeSearchNew(tree, objectids, offsets, transids, types);
      var req := Request(s);
      && req.treeId == IntoU64(tree) && req.nrItems == U32_MAX
      && req.minObjectid == objectids.start && req.maxObjectid == objectids.end
      && req.minOffset == offsets.start && req.maxOffset == offsets.end
      && req.minTransid == transids.start && req.maxTransid == transids.end
      && req.minType == types.start && req.maxType == types.end
      && (query(req).SearchDone? && query(req).nrItems == 0 ==> Next(s, host, query).step == Finished)
      && (query(req).SearchFailed? ==> Next(s, host, query).step == Failed(Ioctl(query(req).errno)))
  {
  }

  /** A failed query leaves `bp == 0` and `nr_items == u32::MAX` behind, so
      the following call issues no query: it decodes whatever the buffer
      still holds from offset 0. */
  lemma FailedQueryIsNotRetried(s: TreeSearch, host: Endian, query: SearchKey -> SearchReply,
                                later: SearchKey -> SearchReply)
    requires s.args.key.nrItems == 0 && query(Request(s)).SearchFailed?
    ensures var t := Next(s, host, query);
      && t.state.bp == 0 && t.state.args.buffer == s.args.buffer
      && Next(t.state, host, later) == Consume(t.state, host)
  {
  }

  type Trace = Core.Trace<TreeSearch, Step>

  /** `k` successive calls of `next`. */
  function Run(s: TreeSearch, host: Endian, query: SearchKey -> SearchReply, k: nat): (r: Trace)
  {
    Iterate(x => Next(x, host, query), s, k)
  }

  /** The number of records a trace yielded. */
  function Yields(steps: seq<Step>): (n: nat)
    ensures n <= |steps|
  {
    if |steps| == 0 then 0 else (if steps[0].Yielded? then 1 else 0) + Yields(steps[1..])
  }

  /** While records remain buffered, a step yields and takes `nr_items`
      down by one, or fails and leaves the cursor as it was; either way the
      buffer stays. */
  ghost predicate ConsumesOne(step: TreeSearch -> Transition)
  {
    forall x: TreeSearch {:trigger step(x)} :: x.args.key.nrItems > 0 ==>
      && step(x).state.args.buffer == x.args.buffer
      && (step(x).step.Yielded? ==> step(x).state.args.key.nrItems == x.args.key.nrItems - 1)
      && (!step(x).step.Yielded? ==> step(x).state == x)
  }

  /** Two step functions that agree whenever records remain buffered. */
  ghost predicate AgreeWhileBuffered(f: TreeSearch -> Transition, g: TreeSearch -> Transition)
  {
    forall x: TreeSearch {:trigger f(x)} {:trigger g(x)} :: x.args.key.nrItems > 0 ==> f(x) == g(x)
  }

  /** Draining a page with any step function of that shape: the first
      `nr_items` calls are the same for both, every yield takes `nr_items`
      down by one, and the buffer is untouched. */
  lemma {:induction false} DrainWith(f: TreeSearch -> Transition, g: TreeSearch -> Transition, s: TreeSearch, k: nat)
    requires ConsumesOne(f) && AgreeWhileBuffered(f, g)
    requires k <= s.args.key.nrItems
    ensures Iterate(g, s, k) == Iterate(f, s, k)
    ensures Iterate(f, s, k).state.args.key.nrItems == s.args.key.nrItems - Yields(Iterate(f, s, k).steps)
    ensures Iterate(f, s, k).state.args.buffer == s.args.buffer
    decreases k
  {
    if k == 0 {
    } else {
      var t := f(s);
      DrainWith(f, g, t.state, k - 1);
      var steps := Iterate(f, s, k).steps;
      assert steps[1..] == Iterate(f, t.state, k - 1).steps;
    }
  }

  /** `next` has the shape `DrainWith` needs, whatever the query. */
  lemma NextConsumesOne(host: Endian, query: SearchKey -> SearchReply)
    ensures ConsumesOne(x => Next(x, host, query))
  {
    forall x: TreeSearch | x.args.key.nrItems > 0
      ensures var t := Next(x, host, query);
        && t.state.args.buffer == x.args.buffer
        && (t.step.Yielded? ==> t.state.args.key.nrItems == x.args.key.nrItems - 1)
        && (!t.step.Yielded? ==> t.state == x)
    {
      var t := Consume(x, host);
    }
  }

  /** While records remain buffered, `next` ignores the query. */
  lemma NextIgnoresQuery(host: Endian, q1: SearchKey -> SearchReply, q2: SearchKey -> SearchReply)
    ensures AgreeWhileBuffered(x => Next(x, host, q1), x => Next(x, host, q2))
  {
    forall x: TreeSearch | x.args.key.nrItems > 0
      ensures Next(x, host, q1) == Next(x, host, q2)
    {
    }
  }

  /** Draining a page: the first `nr_items` calls consult no query at all,
      each yielded record takes `nr_items` down by exactly one, a failed
      call leaves the cursor where it was, and the buffer is untouched.
      Once `nr_items` reaches zero the next call queries (see `Next`). */
  lemma DrainPage(s: TreeSearch, host: Endian, q1: SearchKey -> SearchReply,
                  q2: SearchKey -> SearchReply, k: nat)
    requires k <= s.args.key.nrItems
    ensures Run(s, host, q2, k) == Run(s, host, q1, k)
    ensures Run(s, host, q1, k).state.args.key.nrItems == s.args.key.nrItems - Yields(Run(s, host, q1, k).steps)
    ensures Run(s, host, q1, k).state.args.buffer == s.args.buffer
  {
    NextConsumesOne(host, q1);
    NextIgnoresQuery(host, q1, q2);
    DrainWith(x => Next(x, host, q1), x => Next(x, host, q2), s, k);
  }

  lemma DecodeExtentRegComplete(buf: seq<u8>, bp: nat, h: SearchHeader, host: Endian, item: Item)
    requires item.FileExtentReg? && ItemFromBytes(buf, bp, h, host, ExtentData, item)
    ensures DecodeExtentData(buf, bp, h, host) == Ok(item)
  {
  }

  /** What `ItemFromBytes` says of an inline extent, field by field. */
  lemma InlineItemLayout(buf: seq<u8>, bp: nat, h: SearchHeader, host: Endian, item: Item)
    requires item.FileExtentInline? && ItemFromBytes(buf, bp, h, host, ExtentData, item)
    ensures bp + SEARCH_HEADER_SIZE + FILE_EXTENT_ITEM_SIZE <= |buf|
    ensures bp + SEARCH_HEADER_SIZE + INLINE_DATA_OFFSET + h.len <= |buf|
    ensures var fe := ParseFileExtentItem(buf, bp + SEARCH_HEADER_SIZE, host);
      var off := bp + SEARCH_HEADER_SIZE + INLINE_DATA_OFFSET;
      && fe.kind == BTRFS_FILE_EXTENT_INLINE
      && Rec.FileExtentInlineFromCStructAndData(fe, item.inline.data, host) == Ok(item.inline)
      && item.inline.data == buf[off..off + h.len]
  {
    assert StructAt(buf, bp + SEARCH_HEADER_SIZE + INLINE_DATA_OFFSET, h.len, item.inline.data);
  }

  lemma DecodeExtentInlineComplete(buf: seq<u8>, bp: nat, h: SearchHeader, host: Endian, item: Item)
    requires item.FileExtentInline? && ItemFromBytes(buf, bp, h, host, ExtentData, item)
    ensures DecodeExtentData(buf, bp, h, host) == Ok(item)
  {
    InlineItemLayout(buf, bp, h, host, item);
    ExtentDataInline(buf, bp, h, host);
  }

  lemma DecodeExtentComplete(buf: seq<u8>, bp: nat, h: SearchHeader, kind: KeyType, host: Endian, item: Item)
    requires item.FileExtentReg? || item.FileExtentInline?
    requires ItemFromBytes(buf, bp, h, host, kind, item)
    ensures DecodeItem(buf, bp, h, kind, host) == Ok(item)
  {
    assert kind == ExtentData;
    if item.FileExtentReg? {
      DecodeExtentRegComplete(buf, bp, h, host, item);
    } else {
      DecodeExtentInlineComplete(buf, bp, h, host, item);
    }
  }

  lemma DecodeStructComplete(buf: seq<u8>, bp: nat, h: SearchHeader, kind: KeyType, host: Endian, item: Item)
    requires item.Root? || item.Inode? || item.FreeSpaceHeader?
    requires ItemFromBytes(buf, bp, h, host, kind, item)
    ensures DecodeItem(buf, bp, h, kind, host) == Ok(item)
  {
    match item
    case Root(_) => assert kind == RootItem;
    case Inode(_) => assert kind == InodeItem;
    case FreeSpaceHeader(_) => assert kind == KeyType.FreeSpaceHeader;
  }

  /** A struct with a trailing name is read back as exactly the bytes the
      layout assigns to it. */
  lemma ReadNamedComplete(buf: seq<u8>, off: nat, size: nat, nameLenOffset: nat, host: Endian,
                          raw: seq<u8>, name: seq<u8>)
    requires NamedAt(buf, off, size, nameLenOffset, host, raw, name)
    ensures ReadNamed(buf, off, size, nameLenOffset, host) == Ok(Named(raw, name))
  {
  }

  lemma DecodeRefComplete(buf: seq<u8>, bp: nat, h: SearchHeader, kind: KeyType, host: Endian, item: Item)
    requires item.RootRef? || item.RootBackRef? || item.InodeRef?
    requires ItemFromBytes(buf, bp, h, host, kind, item)
    ensures DecodeItem(buf, bp, h, kind, host) == Ok(item)
  {
    var body := bp + SEARCH_HEADER_SIZE;
    match item
    case RootRef(r) =>
      assert kind == KeyType.RootRef;
      ReadNamedComplete(buf, body, ROOT_REF_SIZE, ROOT_REF_NAME_LEN_OFFSET, host, r.raw, r.name);
    case RootBackRef(r) =>
      assert kind == RootBackref;
      ReadNamedComplete(buf, body, ROOT_REF_SIZE, ROOT_REF_NAME_LEN_OFFSET, host, r.raw, r.name);
    case InodeRef(r) =>
      assert kind == KeyType.InodeRef;
      ReadNamedComplete(buf, body, INODE_REF_SIZE, INODE_REF_NAME_LEN_OFFSET, host, r.raw, r.name);
  }

  lemma DecodeDirComplete(buf: seq<u8>, bp: nat, h: SearchHeader, kind: KeyType, host: Endian, item: Item)
    requires item.DirItem? || item.DirIndex?
    requires ItemFromBytes(buf, bp, h, host, kind, item)
    ensures DecodeItem(buf, bp, h, kind, host) == Ok(item)
  {
    var body := bp + SEARCH_HEADER_SIZE;
    match item
    case DirItem(r) =>
      assert kind == KeyType.DirItem;
      ReadNamedComplete(buf, body, DIR_ITEM_SIZE, DIR_ITEM_NAME_LEN_OFFSET, host, r.raw, r.name);
    case DirIndex(r) =>
      assert kind == KeyType.DirIndex;
      ReadNamedComplete(buf, body, DIR_ITEM_SIZE, DIR_ITEM_NAME_LEN_OFFSET, host, r.raw, r.name);
  }

  /** Decoding is determined by the bytes: any item the layout of
      `ItemFromBytes` allows for a record is the one `DecodeItem` returns. */
  lemma DecodeItemComplete(buf: seq<u8>, bp: nat, h: SearchHeader, kind: KeyType, host: Endian, item: Item)
    requires ItemFromBytes(buf, bp, h, host, kind, item)
    ensures DecodeItem(buf, bp, h, kind, host) == Ok(item)
  {
    match item
    case Root(_) => DecodeStructComplete(buf, bp, h, kind, host, item);
    case Inode(_) => DecodeStructComplete(buf, bp, h, kind, host, item);
    case FreeSpaceHeader(_) => DecodeStructComplete(buf, bp, h, kind, host, item);
    case RootRef(_) => DecodeRefComplete(buf, bp, h, kind, host, item);
    case RootBackRef(_) => DecodeRefComplete(buf, bp, h, kind, host, item);
    case InodeRef(_) => DecodeRefComplete(buf, bp, h, kind, host, item);
    case DirItem(_) => DecodeDirComplete(buf, bp, h, kind, host, item);
    case DirIndex(_) => DecodeDirComplete(buf, bp, h, kind, host, item);
    case FileExtentReg(_) => DecodeExtentComplete(buf, bp, h, kind, host, item);
    case FileExtentInline(_) => DecodeExtentComplete(buf, bp, h, kind, host, item);
  }

  /** The converse of `Consume`'s contract: a record whose tag is a known
      kind and whose bytes lay out `item` yields exactly that item. */
  lemma ConsumeComplete(s: TreeSearch, host: Endian, kind: KeyType, item: Item)
    requires s.args.key.nrItems > 0
    requires s.bp + SEARCH_HEADER_SIZE <= |s.args.buffer|
    requires ParseSearchHeader(s.args.buffer, s.bp, host).kind == KeyTypeCode(kind)
    requires ItemFromBytes(s.args.buffer, s.bp, ParseSearchHeader(s.args.buffer, s.bp, host), host, kind, item)
    ensures var h := ParseSearchHeader(s.args.buffer, s.bp, host);
      Consume(s, host).step == Yielded(Key(h.objectid, kind, h.offset), item)
  {
    KeyTypeRoundTrip(kind);
    DecodeItemComplete(s.args.buffer, s.bp, ParseSearchHeader(s.args.buffer, s.bp, host), kind, host, item);
  }

  /** `Consume` on a record whose tag names `kind` yields what `DecodeItem`
      returns for it, or fails with its error. */
  lemma ConsumeDecodes(s: TreeSearch, host: Endian, kind: KeyType)
    requires s.args.key.nrItems > 0 && s.bp + SEARCH_HEADER_SIZE <= |s.args.buffer|
    requires ParseSearchHeader(s.args.buffer, s.bp, host).kind == KeyTypeCode(kind)
    ensures var h := ParseSearchHeader(s.args.buffer, s.bp, host);
      var d := DecodeItem(s.args.buffer, s.bp, h, kind, host);
      Consume(s, host).step == if d.Ok? then Yielded(Key(h.objectid, kind, h.offset), d.value) else Failed(d.error)
  {
    KeyTypeRoundTrip(kind);
  }

  /** `ConsumeDecodes` for an `ExtentData` record. */
  lemma ConsumeDecodesExtent(s: TreeSearch, host: Endian)
    requires s.args.key.nrItems > 0 && s.bp + SEARCH_HEADER_SIZE <= |s.args.buffer|
    requires ParseSearchHeader(s.args.buffer, s.bp, host).kind == KeyTypeCode(ExtentData)
    ensures var h := ParseSearchHeader(s.args.buffer, s.bp, host);
      var d := DecodeExtentData(s.args.buffer, s.bp, h, host);
      Consume(s, host).step == if d.Ok? then Yielded(Key(h.objectid, ExtentData, h.offset), d.value) else Failed(d.error)
  {
    ConsumeDecodes(s, host, ExtentData);
  }

  /** Regular and preallocated extents decode to `FileExtentReg`. */
  lemma ExtentDataReg(buf: seq<u8>, bp: nat, h: SearchHeader, host: Endian)
    requires bp + SEARCH_HEADER_SIZE + FILE_EXTENT_ITEM_SIZE <= |buf|
    requires Rec.CompressionFromRaw(ParseFileExtentItem(buf, bp + SEARCH_HEADER_SIZE, host).compression).Ok?
    ensures var fe := ParseFileExtentItem(buf, bp + SEARCH_HEADER_SIZE, host);
      (fe.kind == BTRFS_FILE_EXTENT_REG || fe.kind == BTRFS_FILE_EXTENT_PREALLOC) ==>
      DecodeExtentData(buf, bp, h, host) == Ok(FileExtentReg(Rec.FileExtentRegFromCStruct(fe, host).value))
  {
  }

  /** Inline extents decode to `FileExtentInline` over the slice at 17. */
  lemma ExtentDataInline(buf: seq<u8>, bp: nat, h: SearchHeader, host: Endian)
    requires bp + SEARCH_HEADER_SIZE + FILE_EXTENT_ITEM_SIZE <= |buf|
    requires Rec.CompressionFromRaw(ParseFileExtentItem(buf, bp + SEARCH_HEADER_SIZE, host).compression).Ok?
    ensures var fe := ParseFileExtentItem(buf, bp + SEARCH_HEADER_SIZE, host);
      var off := bp + SEARCH_HEADER_SIZE + INLINE_DATA_OFFSET;
      (fe.kind == BTRFS_FILE_EXTENT_INLINE && off + h.len <= |buf|) ==>
      DecodeExtentData(buf, bp, h, host)
      == Ok(FileExtentInline(Rec.FileExtentInlineFromCStructAndData(fe, buf[off..off + h.len], host).value))
  {
    var fe := ParseFileExtentItem(buf, bp + SEARCH_HEADER_SIZE, host);
    var off := bp + SEARCH_HEADER_SIZE + INLINE_DATA_OFFSET;
    if fe.kind == BTRFS_FILE_EXTENT_INLINE && off + h.len <= |buf| {
      assert Rec.FileExtentInlineFromCStructAndData(fe, buf[off..off + h.len], host).Ok?;
    }
  }

  /** Any other extent type is an error. */
  lemma ExtentDataUnknown(buf: seq<u8>, bp: nat, h: SearchHeader, host: Endian)
    requires bp + SEARCH_HEADER_SIZE + FILE_EXTENT_ITEM_SIZE <= |buf|
    ensures var fe := ParseFileExtentItem(buf, bp + SEARCH_HEADER_SIZE, host);
      fe.kind > BTRFS_FILE_EXTENT_PREALLOC ==>
      DecodeExtentData(buf, bp, h, host) == Err(UnknownExtentType(fe.kind))
  {
  }

  /** The extent type byte alone selects the outcome of `DecodeExtentData`
      once the item is in the buffer and its compression is known. */
  lemma ExtentDataByType(buf: seq<u8>, bp: nat, h: SearchHeader, host: Endian)
    requires bp + SEARCH_HEADER_SIZE + FILE_EXTENT_ITEM_SIZE <= |buf|
    requires Rec.CompressionFromRaw(ParseFileExtentItem(buf, bp + SEARCH_HEADER_SIZE, host).compression).Ok?
    ensures var fe := ParseFileExtentItem(buf, bp + SEARCH_HEADER_SIZE, host);
      var d := DecodeExtentData(buf, bp, h, host);
      var off := bp + SEARCH_HEADER_SIZE + INLINE_DATA_OFFSET;
      && ((fe.kind == BTRFS_FILE_EXTENT_REG || fe.kind == BTRFS_FILE_EXTENT_PREALLOC) ==>
            d == Ok(FileExtentReg(Rec.FileExtentRegFromCStruct(fe, host).value)))
      && ((fe.kind == BTRFS_FILE_EXTENT_INLINE && off + h.len <= |buf|) ==>
            d == Ok(FileExtentInline(Rec.FileExtentInlineFromCStructAndData(fe, buf[off..off + h.len], host).value)))
      && (fe.kind > BTRFS_FILE_EXTENT_PREALLOC ==> d == Err(UnknownExtentType(fe.kind)))
  {
    ExtentDataReg(buf, bp, h, host);
    ExtentDataInline(buf, bp, h, host);
    ExtentDataUnknown(buf, bp, h, host);
  }

  /** Records whose extent items differ only in the extent type byte:
      regular and preallocated extents decode to `FileExtentReg` carrying
      the disk fields, inline extents to `FileExtentInline` carrying the
      bytes at `bp` + header + 17, any other type is an error. With
      `ConsumeDecodesExtent` this is what the cursor yields, and with
      `ExtentRecordParses` it applies to an encoded record. */
  lemma ExtentTypeSelectsShape(buf: seq<u8>, bp: nat, h: SearchHeader, fe: FileExtentItem, host: Endian)
    requires bp + SEARCH_HEADER_SIZE + FILE_EXTENT_ITEM_SIZE <= |buf|
    requires ParseFileExtentItem(buf, bp + SEARCH_HEADER_SIZE, host) == fe
    requires Rec.CompressionFromRaw(fe.compression).Ok?
    ensures var d := DecodeExtentData(buf, bp, h, host);
      var off := bp + SEARCH_HEADER_SIZE + INLINE_DATA_OFFSET;
      && ((fe.kind == BTRFS_FILE_EXTENT_REG || fe.kind == BTRFS_FILE_EXTENT_PREALLOC) ==>
            && d.Ok? && d.value.FileExtentReg?
            && d.value.reg.diskBytenr.Get() == fe.diskBytenr
            && d.value.reg.diskNumBytes.Get() == fe.diskNumBytes
            && d.value.reg.offset.Get() == fe.offset
            && d.value.reg.numBytes.Get() == fe.numBytes
            && d.value.reg.generation.Get() == fe.generation)
      && ((fe.kind == BTRFS_FILE_EXTENT_INLINE && off + h.len <= |buf|) ==>
            && d.Ok? && d.value.FileExtentInline?
            && d.value.inline.generation.Get() == fe.generation
            && d.value.inline.data == buf[off..off + h.len])
      && (fe.kind > BTRFS_FILE_EXTENT_PREALLOC ==> d == Err(UnknownExtentType(fe.kind)))
  {
    ExtentDataByType(buf, bp, h, host);
  }

  // ---------------------------------------------------------------------
  // Inline extent data: as written, and as the on-disk format lays it out.

  /** The inline payload where the on-disk format puts it: right after the
      21-byte prefix of the extent item, `len - 21` bytes long. */
  function InlinePayload(buf: seq<u8>, bp: nat, h: SearchHeader): (r: Result<seq<u8>, SearchError>)
    ensures r.Ok? ==> |r.value| + EXTENT_PREFIX_SIZE == h.len
    ensures r.Ok? ==> StructAt(buf, bp + SEARCH_HEADER_SIZE + EXTENT_PREFIX_SIZE, |r.value|, r.value)
  {
    var start := bp + SEARCH_HEADER_SIZE;
    if h.len < EXTENT_PREFIX_SIZE then Err(OutOfBounds(start, EXTENT_PREFIX_SIZE))
    else if start + h.len > |buf| then Err(OutOfBounds(start + EXTENT_PREFIX_SIZE, h.len - EXTENT_PREFIX_SIZE))
    else Ok(buf[start + EXTENT_PREFIX_SIZE..start + h.len])
  }

  /** For an inline item laid out as prefix followed by payload, with the
      item length covering both, `InlinePayload` returns exactly the payload. */
  lemma InlinePayloadRecoversData(pre: seq<u8>, h: SearchHeader, fe: FileExtentItem, payload: seq<u8>,
                                  post: seq<u8>, host: Endian)
    requires h.len == EXTENT_PREFIX_SIZE + |payload|
    ensures InlinePayload(pre + EncodeSearchHeader(h, host) + EncodeExtentPrefix(fe, host) + payload + post, |pre|, h)
         == Ok(payload)
  {
    var buf := pre + EncodeSearchHeader(h, host) + EncodeExtentPrefix(fe, host) + payload + post;
    var start := |pre| + SEARCH_HEADER_SIZE + EXTENT_PREFIX_SIZE;
    assert buf[start..start + |payload|] == payload;
  }

  /** `DecodeExtentData` with the inline payload taken where the on-disk
      format puts it. Every other outcome is that of `DecodeExtentData`. */
  function DecodeExtentDataCorrected(buf: seq<u8>, bp: nat, h: SearchHeader, host: Endian)
    : (r: Result<Item, SearchError>)
    ensures r.Ok? && r.value.FileExtentInline? ==> InlinePayload(buf, bp, h) == Ok(r.value.inline.data)
    ensures bp + SEARCH_HEADER_SIZE + FILE_EXTENT_ITEM_SIZE > |buf|
            || ParseFileExtentItem(buf, bp + SEARCH_HEADER_SIZE, host).kind != BTRFS_FILE_EXTENT_INLINE
            ==> r == DecodeExtentData(buf, bp, h, host)
  {
    var body := bp + SEARCH_HEADER_SIZE;
    if body + FILE_EXTENT_ITEM_SIZE > |buf| then Err(OutOfBounds(body, FILE_EXTENT_ITEM_SIZE))
    else
      var fe := ParseFileExtentItem(buf, body, host);
      if fe.kind == BTRFS_FILE_EXTENT_INLINE then
        var payload :- InlinePayload(buf, bp, h);
        match Rec.FileExtentInlineFromCStructAndData(fe, payload, host)
        case Err(e) => Err(Decode(e))
        case Ok(x) => Ok(FileExtentInline(x))
      else DecodeExtentData(buf, bp, h, host)
  }

  /** The corrected decoder returns exactly the payload of an inline item
      laid out as prefix followed by payload. */
  lemma CorrectedInlineRecoversPayload(pre: seq<u8>, h: SearchHeader, fe: FileExtentItem, payload: seq<u8>,
                                       post: seq<u8>, host: Endian)
    requires h.len == EXTENT_PREFIX_SIZE + |payload|
    requires fe.kind == BTRFS_FILE_EXTENT_INLINE && Rec.CompressionFromRaw(fe.compression).Ok?
    requires |payload| + |post| >= FILE_EXTENT_ITEM_SIZE - EXTENT_PREFIX_SIZE
    ensures var r := DecodeExtentDataCorrected(
              pre + EncodeSearchHeader(h, host) + EncodeExtentPrefix(fe, host) + payload + post, |pre|, h, host);
      && r.Ok? && r.value.FileExtentInline? && r.value.inline.data == payload
      && r.value.inline.generation.Get() == fe.generation && r.value.inline.ramBytes.Get() == fe.ramBytes
  {
    PrefixParsesBefore(pre + EncodeSearchHeader(h, host), fe, payload, post, host);
    InlinePayloadRecoversData(pre, h, fe, payload, post, host);
  }

  /** The `len` bytes at item + 17 split into the 4 bytes before the
      payload, the payload, and the 17 bytes past the end of the item. */
  lemma InlineSliceSplit(buf: seq<u8>, bp: nat, h: SearchHeader)
    requires h.len >= EXTENT_PREFIX_SIZE
    requires bp + SEARCH_HEADER_SIZE + INLINE_DATA_OFFSET + h.len <= |buf|
    ensures var item := bp + SEARCH_HEADER_SIZE;
      var payload := InlinePayload(buf, bp, h);
      && payload.Ok?
      && buf[item + INLINE_DATA_OFFSET..item + INLINE_DATA_OFFSET + h.len]
         == buf[item + INLINE_DATA_OFFSET..item + EXTENT_PREFIX_SIZE]
            + payload.value
            + buf[item + h.len..item + h.len + INLINE_DATA_OFFSET]
  {
    var item := bp + SEARCH_HEADER_SIZE;
    SliceThreeWays(buf, item + INLINE_DATA_OFFSET, item + EXTENT_PREFIX_SIZE, item + h.len,
                   item + INLINE_DATA_OFFSET + h.len);
  }

  /** What the `ExtentData` arm yields for an inline item instead: the
      slice starts 4 bytes early, at the `encryption`, `other_encoding` and
      `type` fields, and, being `len` long, runs 17 bytes past the end of
      the item. It is never the payload, which is 21 bytes shorter. */
  lemma InlineDataAsWritten(buf: seq<u8>, bp: nat, h: SearchHeader, host: Endian)
    requires bp + SEARCH_HEADER_SIZE + FILE_EXTENT_ITEM_SIZE <= |buf|
    requires bp + SEARCH_HEADER_SIZE + INLINE_DATA_OFFSET + h.len <= |buf|
    requires ParseFileExtentItem(buf, bp + SEARCH_HEADER_SIZE, host).kind == BTRFS_FILE_EXTENT_INLINE
    requires Rec.CompressionFromRaw(ParseFileExtentItem(buf, bp + SEARCH_HEADER_SIZE, host).compression).Ok?
    requires h.len >= EXTENT_PREFIX_SIZE
    ensures var d := DecodeExtentData(buf, bp, h, host);
      var item := bp + SEARCH_HEADER_SIZE;
      var payload := InlinePayload(buf, bp, h);
      && d.Ok? && d.value.FileExtentInline? && payload.Ok?
      && |d.value.inline.data| == |payload.value| + EXTENT_PREFIX_SIZE
      && d.value.inline.data
         == buf[item + INLINE_DATA_OFFSET..item + EXTENT_PREFIX_SIZE]
            + payload.value
            + buf[item + h.len..item + h.len + INLINE_DATA_OFFSET]
  {
    ExtentDataInline(buf, bp, h, host);
    InlineSliceSplit(buf, bp, h);
  }

  // ---------------------------------------------------------------------
  // A failed refill is not retried.
  //
  // `next` sets `bp` to 0 and `nr_items` to `u32::MAX` before the search
  // ioctl, which reads `nr_items` as the number of records wanted. When
  // the ioctl fails both stay, so the following call issues no query: it
  // decodes the previous page again from its first record, handing out
  // records it has already returned. The corrected `next` leaves the
  // cursor as it was on a failed refill, so the following call repeats
  // the query.

  /** After a failed refill, the next call does what the first call on a
      page held in the same buffer did. */
  lemma StaleRecordAfterFailure(page: TreeSearch, s: TreeSearch, host: Endian,
                                query: SearchKey -> SearchReply, later: SearchKey -> SearchReply)
    requires page.bp == 0 && page.args.key.nrItems > 0
    requires s.args.key.nrItems == 0 && s.args.buffer == page.args.buffer
    requires query(Request(s)).SearchFailed?
    ensures Next(Next(s, host, query).state, host, later).step == Next(page, host, later).step
  {
    var t := Next(s, host, query);
    assert Next(t.state, host, later) == Consume(t.state, host);
    assert Next(page, host, later) == Consume(page, host);
  }

  /** A page whose records were all yielded, then a failed refill: the
      call after that yields the page's first record a second time. */
  lemma DrainedPageRepeats(page: TreeSearch, host: Endian, q: SearchKey -> SearchReply,
                           query: SearchKey -> SearchReply, later: SearchKey -> SearchReply)
    requires page.bp == 0 && page.args.key.nrItems > 0
    requires Yields(Run(page, host, q, page.args.key.nrItems).steps) == page.args.key.nrItems
    requires query(Request(Run(page, host, q, page.args.key.nrItems).state)).SearchFailed?
    ensures var first := Run(page, host, q, page.args.key.nrItems).steps[0];
      var s := Run(page, host, q, page.args.key.nrItems).state;
      && first.Yielded?
      && Next(Next(s, host, query).state, host, later).step == first
  {
    var n := page.args.key.nrItems;
    DrainPage(page, host, q, q, n);
    var r := Run(page, host, q, n);
    var t := Next(page, host, q);
    var rest := Run(t.state, host, q, n - 1);
    assert r.steps == [t.step] + rest.steps;
    assert r.steps[1..] == rest.steps;
    assert Yields(r.steps) == (if t.step.Yielded? then 1 else 0) + Yields(rest.steps);
    StaleRecordAfterFailure(page, r.state, host, query, later);
    assert Next(page, host, later) == Consume(page, host) == t;
  }

  /** `next` with a failed refill leaving the cursor as it was; every other
      call is the as-written one. */
  function NextRetrying(s: TreeSearch, host: Endian, query: SearchKey -> SearchReply): (t: Transition)
    ensures s.args.key.nrItems == 0 && query(Request(s)).SearchFailed? ==>
      t.state == s && t.step == Failed(Ioctl(query(Request(s)).errno))
    ensures !(s.args.key.nrItems == 0 && query(Request(s)).SearchFailed?) ==> t == Next(s, host, query)
  {
    if s.args.key.nrItems == 0 then
      match query(Request(s))
      case SearchFailed(e) => Transition(s, Failed(Ioctl(e)))
      case SearchDone(_, _) => Next(s, host, query)
    else Next(s, host, query)
  }

  /** With the corrected `next`, the call after a failed refill sends the
      same query again: it behaves exactly like the failed call would have
      with the later answer. When that answer is a page, its first record
      is what the call decodes, and no record of the old buffer is read. */
  lemma RetryingRequeries(s: TreeSearch, host: Endian, query: SearchKey -> SearchReply,
                          later: SearchKey -> SearchReply)
    requires s.args.key.nrItems == 0 && query(Request(s)).SearchFailed?
    ensures var t := NextRetrying(s, host, query);
      && NextRetrying(t.state, host, later) == NextRetrying(s, host, later)
      && (later(Request(s)).SearchDone? && later(Request(s)).nrItems > 0 ==>
            NextRetrying(t.state, host, later)
            == Consume(Refilled(s, later(Request(s)).nrItems, later(Request(s)).written), host))
  {
  }
}
