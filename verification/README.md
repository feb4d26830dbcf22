# libbtrfsrs decoders and cursors in Dafny

A model of the safe wrappers that libbtrfsrs puts around three btrfs ioctls:

- **Tree search** (`src/tree_search.rs`). A paginated cursor over the records
  of one tree. `next` refills a 64 KiB buffer with the search ioctl when
  `nr_items` is zero. It then reads a 32-byte search header at `bp`,
  converts its type tag with `KeyType::try_from`, and decodes the record
  body by kind. Last it advances `bp` past the record, bumps the three
  minimum bounds and counts `nr_items` down.
- **Record decoders** (`src/item.rs`, `src/le.rs`, `src/lib.rs`). The
  regular and inline file-extent decoders with their closed compression
  mapping, and the `le::U64`/`le::U8` wrappers.
- **Logical-address cursor** (`src/logical_ino.rs`). One LOGICAL_INO query
  fills a data container. `next` then drains it as `(inode, offset, root)`
  triples.
- **Subvolume summary** (`src/info.rs`). `SubvolInfo::from_c_struct`, which
  copies the GET_SUBVOL_INFO reply, cuts the name at its first NUL and
  converts the four timestamps to durations.

Each cursor is an immutable record, and `Next` is a pure function of the
cursor and of an oracle that stands for the ioctl. For the tree search the
oracle maps a search key to an error or to `(nr_items, bytes written)`. For
the logical cursor it maps the request to an error or to the four counters
and the values written. What an ioctl writes is laid over the buffer from
offset 0; what it does not write keeps its previous contents. The host's
byte order is a parameter (`Endian`). Buffer reads are unaligned reads in
that order, and an encoded struct is proved to read back wherever it sits
in a buffer.

The search header is filled in by the kernel in the host's byte order, so
reading it in that order gives its values. The item structs behind it are
copied as btrfs stores them, with little-endian fields. The encoders in
`abi.dfy` write in the host's order, so the item round trips describe what
the code decodes. That is the stored value only on a little-endian host:
`le::U64::new` does not convert on a big-endian one (see "## Findings").

The source's panics become explicit errors. These are: `unwrap` on an
unknown type tag, every `todo!` kind, the `unreachable!` arms (for
`XattrItem`, an unknown extent type and an unknown compression), indexing
past a buffer, and overflow in `Duration` addition. After a panic the
cursor is left as it was at that point. `header.objectid + 1` and the other
bound increments wrap around, as in a release build.

Two behaviours of the code are modelled as written:

- After a failed search ioctl, `next` has already set `bp = 0` and
  `nr_items = u32::MAX` (src/tree_search.rs:257-258). The next call
  therefore does not query again. It decodes whatever the buffer holds from
  offset 0 (`Search.FailedQueryIsNotRetried`). "## Findings" lists the
  records this hands out a second time.
- The logical-address cursor never queries again once a query has
  succeeded. A failed query leaves it without a container, so the next
  call queries again (`Logical.FailedQueryIsRetried`). Once its count
  reaches zero it returns `None` for good. It does not pass the
  missed-element count to its caller (src/logical_ino.rs:57-91).

Files: `core.dfy` holds machine integers, `Result`/`Option`, the byte-order
codecs and slicing lemmas. `abi.dfy` holds the btrfs constants, the struct
layouts and the header/extent-item parse and encode round trips. `le.dfy`,
`item.dfy`, `tree_search.dfy`, `logical_ino.dfy` and `info.dfy` follow the
source files of the same names.

## Model

| member | source | states |
|---|---|---|
| Le.NewU64 | src/le.rs:8-18 | `get(new(x)) == x` on either host: the big-endian branch's `from_le_bytes(to_le_bytes(x))` gives `x` back |
| Le.NewU8 | src/le.rs:22-32 | the same for the one-byte wrapper |
| Le.NewU64Embedding | src/le.rs:1-19 | `new` is injective and does not depend on the host; the derived equality and ordering of `U64` agree with those of the integer |
| Le.NewU8Embedding | src/le.rs:4-33 | the same for `U8` |
| Le.NewU64AsWritten | src/le.rs:8-14 | on a big-endian host a field whose stored little-endian bytes hold 1 comes out of `new` as 2^56 |
| Le.NewU64Corrected | src/le.rs:8-14 | `new` with the big-endian branch converting from little-endian (`u64::from_le`); on a little-endian host it is `new` as written |
| Le.NewU64CorrectedReadsStored | src/le.rs:8-14 | the corrected `new` of a field read in host order is the value its little-endian bytes store, on either host |
| Core.LeRoundTrip | src/le.rs:12 | `from_le_bytes(to_le_bytes(x)) == x` for every `x` that fits in the width |
| Core.LeBytesRoundTrip | src/le.rs:12 | `to_le_bytes(from_le_bytes(b)) == b` for every byte string |
| Core.NativeRoundTrip | src/tree_search.rs:276-281 | a value stored in host byte order is read back by the unaligned read |
| Abi.SearchHeaderRoundTrip | src/tree_search.rs:276-287 | a search header encoded anywhere in a buffer reads back as that header: objectid, type tag, offset and `len` |
| Abi.FileExtentItemRoundTrip | src/tree_search.rs:343-349 | a file extent item encoded anywhere in a buffer reads back field by field |
| Abi.ExtentRecordParses | src/tree_search.rs:276-281 | a header followed by an extent item: both read back, the item at header + 32 |
| Items.CompressionFromRaw | src/item.rs:34-40 | yields the variant whose kernel constant is the raw byte; fails, naming the byte, exactly when no variant has it |
| Items.CompressionRoundTrip | src/lib.rs:12-17 | every `Compression` variant is recognised from its constant, and the four constants are distinct |
| Items.FileExtentRegFromCStruct | src/item.rs:28-47 | succeeds exactly when the compression is known; every field carries the C struct's field of the same name |
| Items.FileExtentInlineFromCStructAndData | src/item.rs:49-65 | succeeds exactly when the compression is known; generation and ram_bytes are copied and the data is the given slice |
| Items.ExtentDecodersAgree | src/item.rs:30-62 | both decoders apply the same compression mapping and copy the shared leading fields alike |
| Items.ExtentDecodersIgnoreUnreadFields | src/item.rs:30-64 | neither decoder depends on `encryption`, `other_encoding` or the extent type; the inline decoder ignores the disk fields too |
| Search.KeyTypeTryFromSound | src/tree_search.rs:130-179 | `try_from(v) == Ok(k)` only when `k`'s discriminant is `v` |
| Search.KeyTypeRoundTrip | src/tree_search.rs:71-114 | every one of the 42 variants converts back from its discriminant |
| Search.KeyTypeTryFromExact | src/tree_search.rs:130-179 | of `Search.KeyTypeTryFrom`, the match that models `try_from`: `try_from(v) == Ok(k)` if and only if `v` is `k`'s discriminant |
| Search.KeyTypeTryFromFails | src/tree_search.rs:177 | `try_from(v)` fails if and only if no variant has discriminant `v` |
| Search.IntoU64 | src/tree_search.rs:182-199 | `Subvol(i)` maps to `i`; the named trees map to the well-known ids 0..11, with 0 only for `Auto` |
| Search.NamedTreesDistinct | src/tree_search.rs:184-196 | distinct named trees get distinct ids |
| Search.TreeSearchArgsNew | src/tree_search.rs:202-234 | each range's start and end become the key's minimum and maximum; the buffer is `IOCTL_BUFF_SIZE` zero bytes |
| Search.TreeSearchNew | src/tree_search.rs:237-249 | the cursor starts with `nr_items == 0` and `bp == 0` on the tree's id, so the first `next` queries |
| Search.FreshSearchQueriesFirst | src/tree_search.rs:246-273 | a fresh cursor's first call sends exactly the requested ranges with `nr_items = u32::MAX`; a reply of 0 items ends the iteration and an ioctl error is returned |
| Search.Next | src/tree_search.rs:255-274 | queries only when `nr_items` is 0; returns `None` exactly when that query reports 0 items; never changes the tree, the maxima or the transid bounds |
| Search.Consume | src/tree_search.rs:276-458 | a yielded key is the header's objectid, tag and offset, and its item is laid out by the record's bytes; `bp` advances by 32 + `len`; the minima become the header's fields + 1; `nr_items` drops by one; an unknown tag or a `todo!` kind is an error that leaves the cursor as it was |
| Search.ConsumeComplete | src/tree_search.rs:283-458 | conversely, a record whose tag names a kind and whose bytes lay out an item yields exactly that item |
| Search.ConsumeDecodes | src/tree_search.rs:283-289 | a buffered record yields its header's key with what the kind dispatch decodes, or fails with the dispatch's error |
| Search.FailedQueryIsNotRetried | src/tree_search.rs:256-268 | after an ioctl error `bp` is 0 and the buffer unchanged, and the following call decodes without querying |
| Search.StaleRecordAfterFailure | src/tree_search.rs:256-268 | the call after a failed refill does what the first call on a page in the same buffer did |
| Search.DrainedPageRepeats | src/tree_search.rs:256-268 | a page whose records were all yielded, then a failed refill: the next call yields the page's first record again |
| Search.NextRetrying | src/tree_search.rs:255-274 | `next` with a failed refill leaving the cursor unchanged; every other call as written |
| Search.RetryingRequeries | src/tree_search.rs:256-268 | with the corrected `next`, the call after a failed refill repeats the query, and decodes the new page's first record when one arrives |
| Search.DrainPage | src/tree_search.rs:255-258 | the first `nr_items` calls after a refill are independent of the oracle; each yield takes `nr_items` down by one; the buffer is untouched |
| Search.DrainWith | src/tree_search.rs:451-456 | the same for any step function that consumes one buffered record per yield |
| Search.NextConsumesOne | src/tree_search.rs:451-456 | while records are buffered, a call yields and takes `nr_items` down by one, or fails and leaves the cursor unchanged |
| Search.NextIgnoresQuery | src/tree_search.rs:256 | while records are buffered, `next` consults no query |
| Search.DecodeItem | src/tree_search.rs:289-449 | a decoded item is laid out by the record's bytes; each `todo!` kind is an error; `ExtentData` goes to the extent arm |
| Search.DecodeItemComplete | src/tree_search.rs:289-449 | any item that the bytes lay out for a kind is the one decoded |
| Search.ReadNamed | src/tree_search.rs:300-317 | the struct is the bytes at the body, and the name is the `name_len` bytes right after the fixed struct |
| Search.ReadNamedComplete | src/tree_search.rs:401-410 | a struct with its trailing name is read back as exactly those bytes |
| Search.DecodeDir | src/tree_search.rs:393-417 | `DirItem` and `DirIndex` yield their name-bearing item; `XattrItem` reaches `unreachable!` |
| Search.DecodeExtentData | src/tree_search.rs:343-376 | a decoded extent is laid out by the record's bytes: REG/PREALLOC as `FileExtentReg`, INLINE with the `len` bytes at header + 17 |
| Search.ExtentDataByType | src/tree_search.rs:351-375 | for a known compression the extent type alone selects the outcome: REG/PREALLOC, INLINE or the unknown-type error |
| Search.ExtentTypeSelectsShape | src/tree_search.rs:351-375 | the disk fields of a REG/PREALLOC item are the decoded ones; an INLINE item carries the bytes at header + 17; any other type is an error |
| Search.InlineDataAsWritten | src/tree_search.rs:355-366 | the inline data yielded is the 4 fixed bytes at item offset 17, then the payload, then the 17 bytes past the item, and never the payload |
| Search.InlinePayload | src/tree_search.rs:355-366 | the payload where the on-disk format puts it: item offset 21, `len - 21` bytes |
| Search.InlinePayloadRecoversData | src/tree_search.rs:355-366 | for an item encoded as prefix then payload, that is exactly the payload |
| Search.DecodeExtentDataCorrected | src/tree_search.rs:343-376 | the extent arm with the payload at offset 21; every other outcome is the as-written one |
| Search.CorrectedInlineRecoversPayload | src/tree_search.rs:355-371 | the corrected arm returns exactly the encoded payload, generation and ram_bytes |
| Logical.DefaultContainer | src/logical_ino.rs:30-40 | `bytes_left`, `bytes_missing`, `elem_cnt` and `elem_missed` are zero and the buffer is `IOCTL_BUFF_SIZE` zeros |
| Logical.New | src/logical_ino.rs:43-50 | a new cursor holds the given `bytenr`, no container and `bp == 0`, so its first call queries |
| Logical.Request | src/logical_ino.rs:60-68 | the query asks for `bytenr` with size `IOCTL_BUFF_SIZE` and no flags |
| Logical.Filled | src/logical_ino.rs:58-75 | after the query `bytes_left`, `bytes_missing`, `elem_cnt` and `elem_missed` are the kernel's, and each buffer value is what the kernel wrote there, or 0 |
| Logical.Take | src/logical_ino.rs:78-91 | `None` exactly when `elem_cnt` is 0; otherwise the triple at `bp`, with `bp` + 3 and `elem_cnt` − 1 |
| Logical.Next | src/logical_ino.rs:56-92 | queries only while no container is held; a failed query is returned and leaves the cursor unchanged; `bytenr` never changes |
| Logical.NoQueryOnceFilled | src/logical_ino.rs:57-75 | once the container is held, `next` does not depend on the oracle |
| Logical.FailedQueryIsRetried | src/logical_ino.rs:57-76 | after a failed query the container is still absent, and the next call behaves exactly like the first |
| Logical.ExhaustedIsDone | src/logical_ino.rs:80-91 | with `elem_cnt` at 0 the cursor returns `None` and stays where it is |
| Logical.DoneForever | src/logical_ino.rs:80-91 | from then on every call returns `None` |
| Logical.DrainTriples | src/logical_ino.rs:80-88 | `n` calls yield the `n` triples from `bp` on, with `elem_cnt` down by `n` and `bp` up by `3n` |
| Logical.DrainedAt | src/logical_ino.rs:81-86 | the `i`-th drained triple is `buff[bp+3i..bp+3i+3]`: consecutive, non-overlapping positions, in order |
| Logical.FullRun | src/logical_ino.rs:43-91 | a fresh cursor with a successful query yields exactly the reported `elem_cnt` triples from offset 0, then `None`; it ends holding the filled container with `elem_cnt` 0 and `bp` at 3·`elem_cnt` |
| Logical.NoneAfterFullRun | src/logical_ino.rs:78-91 | after those triples every further call, however many, returns `None` |
| Logical.AsWrittenYieldsPhantoms | src/logical_ino.rs:80-86 | for one reference reported as three values, the cursor yields the reference and then two zero triples |
| Logical.NextCorrected | src/logical_ino.rs:56-92 | `next` with `elem_cnt` counted down by three per triple |
| Logical.CorrectedYieldsWritten | src/logical_ino.rs:80-86 | after a reply as the kernel produces it, the corrected cursor yields exactly the triples the kernel wrote, then `None` |
| Info.FromSecs | src/info.rs:62 | `Duration::from_secs(s)` is `s * 10^9` nanoseconds |
| Info.FromNanos | src/info.rs:63 | `Duration::from_nanos(n)` is `n` nanoseconds, normalised below one second |
| Info.AddDurationsTotal | src/info.rs:62-69 | adding durations adds their lengths, and fails exactly when the sum exceeds `Duration::MAX` |
| Info.TimeFromTimespecTotal | src/info.rs:62-69 | a timestamp becomes `sec * 10^9 + nsec` nanoseconds, and fails exactly beyond `Duration::MAX` |
| Info.FirstNul | src/info.rs:48 | the index of the first NUL byte, with no NUL before it; none exactly when the array has no NUL |
| Info.CStrBytes | src/info.rs:47-51 | the name is the NUL-free prefix before the first NUL; it is an error exactly when the array has no NUL |
| Info.CStrRoundTrip | src/info.rs:47-51 | a NUL-free name stored with a terminator reads back whatever follows the terminator |
| Info.FromCStruct | src/info.rs:43-71 | ids, generation, flags, transids and uuids are copied unchanged; succeeds exactly when the name is terminated and all four times fit |
| Info.SubvolInfoMeaning | src/info.rs:43-71 | for a terminated name and timestamps in range, the summary's name is the stored name and each time is `sec * 10^9 + nsec` nanoseconds |
| Info.SubvolInfoQuery | src/info.rs:74-80 | the result is an `Ioctl` error exactly when the syscall failed, carrying its errno; on a reply it succeeds exactly when the name is terminated and all four times fit, with the reply's tree id, name prefix and all four converted times |

## Left out

- The ioctl calls themselves (`btrfs_tree_search`, `btrfs_logical_ino`, `btrfs_get_subvol_info` and the `nix` macros that declare them). They are foreign syscalls and are oracle parameters here.
- The file handles the cursors borrow. They are passed only to the ioctls.
- Raw-pointer casts, `read_unaligned` and `slice::from_raw_parts`. They are bounds-checked reads of a byte sequence. A read past the buffer, which is undefined behaviour or a panic in the source, is an `OutOfBounds` error.
- The struct layouts of the generated bindings. The btrfs-sys bindings are not part of this model. Sizes and field offsets are those of the packed btrfs structs, written out in `abi.dfy`.
- `Root`, `RootRef`, `DirItem`, `DirIndex`, `Inode`, `InodeRef`, `FreeSpaceHeader` and `Uuid` `from_c_struct`. These decoders are not part of this model. Each item keeps the raw struct bytes and the name slice it is given.
- Global key ordering, and "pagination never skips or duplicates a record". Ordering is the kernel's guarantee. Also, the cursor bumps the three minima independently rather than computing the lexicographic successor of the last key. The duplicates after a failed refill are in "## Findings".
- The conversion of the name bytes to `OsStr`/`PathBuf`. The name is kept as its bytes.
- Search.Consume: models the release-build wrap-around of `header.objectid + 1`, `header.offset + 1` and `header.type_ + 1`. A debug build panics there instead.
- Search.Consume: `usize::try_from(header.len).unwrap()` and `header.len.try_into().unwrap()` cannot fail for a `u32` on the 64-bit targets btrfs runs on, so they are not modelled as failures.
- Info.CStrBytes: a name array with no NUL makes `CStr::from_ptr` read past the array, which is undefined behaviour in the source (src/info.rs:47-51). The model returns `Err(NameNotTerminated)` instead and says nothing of what the source would read.
- Search.Next: a failed search ioctl is assumed to write nothing into the buffer. The kernel copies records into the user buffer as it walks the tree and can still fail afterwards (an I/O or allocation error, or a fault on the copy), so a real failure may leave some new records behind. `Search.FailedQueryIsNotRetried`, `Search.StaleRecordAfterFailure` and `Search.DrainedPageRepeats` state what happens after a failure that wrote nothing. With a partial write, the cursor still decodes from offset 0 of a buffer the failed call left behind.
- Logical.DefaultContainer: the crate-level `IOCTL_BUFF_SIZE` that src/logical_ino.rs imports is not defined in the files modelled here. The model assumes it is the 2^16 of src/tree_search.rs:20, both for the container length and for the request's `size`.
- Logical.Request: the `size` field is passed as given (`IOCTL_BUFF_SIZE`), but what the kernel writes comes from the oracle and is not bounded by it.

## Findings

| source | as written | input that shows it | evidently intended | confidence | as-written member | corrected member |
|---|---|---|---|---|---|---|
| src/tree_search.rs:355-366 | inline data is sliced from item offset `2*8 + 1 = 17` with length `header.len` | any inline extent item: `len` is 21 + payload length, so the slice starts at the `encryption` byte, carries 4 fixed bytes before the payload, and runs 17 bytes past the item | the payload at item offset 21 (after `type`), `len - 21` bytes long | high, not executed | Search.InlineDataAsWritten | Search.DecodeExtentDataCorrected, Search.CorrectedInlineRecoversPayload |
| src/logical_ino.rs:80-86 | `elem_cnt` is counted down by 1 per triple | one reference `(7, 0, 5)`, which the kernel reports as `elem_cnt = 3` values: the cursor yields `(7,0,5)`, `(0,0,0)`, `(0,0,0)` | `elem_cnt` counted down by 3 per triple, so that only the references the kernel wrote are yielded | medium, not executed | Logical.AsWrittenYieldsPhantoms | Logical.NextCorrected, Logical.CorrectedYieldsWritten |
| src/le.rs:8-14 | the big-endian branch of `U64::new` is `u64::from_le_bytes(u64::to_le_bytes(i))`, which is `i` | on a big-endian host, a `u64` item field stored as 1 (bytes `01 00 .. 00`) is read in host order as 2^56 and `new` keeps 2^56 | convert from little-endian (`u64::from_le(i)`), so that `get` gives the stored value on either host | high, not executed | Le.NewU64AsWritten | Le.NewU64Corrected, Le.NewU64CorrectedReadsStored |
| src/tree_search.rs:257-267 | `bp = 0` and `nr_items = u32::MAX` are set before the ioctl and stay when it fails | a page of records all yielded, then a failed refill: the next call issues no query and yields the page's first record again | on failure leave the cursor as it was, so the next call repeats the query | medium, not executed | Search.DrainedPageRepeats | Search.NextRetrying, Search.RetryingRequeries |

The rest of the model (`Le.NewU64`, `Search.Next`, `Logical.Next`)
follows the code as written. The corrected members give the intended behaviour, with the
intended property proved about each.
