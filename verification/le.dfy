/** The endian wrapper of src/le.rs: `U64` and `U8` newtypes whose `new`
    takes one branch on a little-endian host and another on a big-endian
    host. Both branches store the value unchanged, so `get(new(x)) == x`
    whatever the host. */
module Le {
  import opened Core

  /** `struct U64(u64)`. */
  datatype U64 = U64(raw: u64)
  {
    function Get(): (v: u64)
    {
      raw
    }
  }

  /** `struct U8(u8)`. */
  datatype U8 = U8(raw: u8)
  {
    function Get(): (v: u8)
    {
      raw
    }
  }

  function ToLeBytes64(i: u64): (r: seq<u8>)
    ensures |r| == 8
  {
    ToLeBytes(i, 8)
  }

  function FromLeBytes64(b: seq<u8>): (r: u64)
    requires |b| == 8
  {
    Pow256Widths();
    FromLeBytes(b)
  }

  function ToLeBytes8(i: u8): (r: seq<u8>)
    ensures |r| == 1
  {
    ToLeBytes(i, 1)
  }

  function FromLeBytes8(b: seq<u8>): (r: u8)
    requires |b| == 1
  {
    Pow256Widths();
    FromLeBytes(b)
  }

  /** `U64::new`: on a big-endian host the value goes through
      `from_le_bytes(to_le_bytes(i))`, which gives `i` back. */
  function NewU64(i: u64, host: Endian): (r: U64)
    ensures r.Get() == i
  {
    if host == Little then U64(i)
    else
      Pow256Widths();
      LeRoundTrip(i, 8);
      U64(FromLeBytes64(ToLeBytes64(i)))
  }

  /** `U8::new`, the one-byte counterpart of `NewU64`. */
  function NewU8(i: u8, host: Endian): (r: U8)
    ensures r.Get() == i
  {
    if host == Little then U8(i)
    else
      Pow256Widths();
      LeRoundTrip(i, 1);
      U8(FromLeBytes8(ToLeBytes8(i)))
  }

  /** The derived `PartialOrd`/`Ord` of a one-field tuple struct compares the field. */
  predicate LessU64(a: U64, b: U64)
  {
    a.raw < b.raw
  }

  predicate LessU8(a: U8, b: U8)
  {
    a.raw < b.raw
  }

  /** `new` is injective, ignores the host, and the derived equality and
      ordering of the wrapper agree with those of the wrapped integer. */
  lemma NewU64Embedding(x: u64, y: u64, h1: Endian, h2: Endian)
    ensures NewU64(x, h1) == NewU64(y, h2) <==> x == y
    ensures LessU64(NewU64(x, h1), NewU64(y, h2)) <==> x < y
  {
  }

  lemma NewU8Embedding(x: u8, y: u8, h1: Endian, h2: Endian)
    ensures NewU8(x, h1) == NewU8(y, h2) <==> x == y
    ensures LessU8(NewU8(x, h1), NewU8(y, h2)) <==> x < y
  {
  }

  // ---------------------------------------------------------------------
  // `new` never converts.
  //
  // The kernel hands item structs over as they are stored, with every
  // multi-byte field little-endian, and the fields are read in the host's
  // byte order. `U64::new` has a big-endian branch, evidently to turn that
  // read into the stored value, but `from_le_bytes(to_le_bytes(i))` is the
  // identity, so on a big-endian host a field keeps its bytes reversed.
  // `u64::from_le` is the conversion that branch needs. `U8` has a single
  // byte and needs none.

  /** The stored bytes of 1 and of 2^56: each other's reverse. */
  lemma OneAndTwoToThe56()
    ensures ToLeBytes64(1) == [1, 0, 0, 0, 0, 0, 0, 0]
    ensures ToLeBytes64(0x100_0000_0000_0000) == [0, 0, 0, 0, 0, 0, 0, 1]
  {
  }

  /** Those two byte strings are each other's reverse. */
  lemma ReverseOfOne(stored: seq<u8>, swapped: seq<u8>)
    requires stored == [1, 0, 0, 0, 0, 0, 0, 0] && swapped == [0, 0, 0, 0, 0, 0, 0, 1]
    ensures Reverse(stored) == swapped
  {
    assert forall i | 0 <= i < 8 :: Reverse(stored)[i] == swapped[i];
  }

  /** On a big-endian host, a `u64` field stored as 1 comes out of `new`
      as 2^56. */
  lemma NewU64AsWritten()
    ensures var stored := ToLeBytes64(1);
      && FromLeBytes64(stored) == 1
      && NewU64(DecodeNative(stored, Big), Big).Get() == 0x100_0000_0000_0000
  {
    OneAndTwoToThe56();
    ReverseOfOne(ToLeBytes64(1), ToLeBytes64(0x100_0000_0000_0000));
    Pow256Widths();
    LeRoundTrip(1, 8);
    LeRoundTrip(0x100_0000_0000_0000, 8);
  }

  /** `u64::from_le`: the value whose little-endian bytes are the bytes the
      host holds for `i`. */
  function FromLe64(i: u64, host: Endian): (r: u64)
  {
    Pow256Widths();
    FromLeBytes64(EncodeNative(i, 8, host))
  }

  /** `U64::new` with its big-endian branch converting from little-endian. */
  function NewU64Corrected(i: u64, host: Endian): (r: U64)
    ensures host == Little ==> r == NewU64(i, host)
  {
    if host == Little then
      Pow256Widths();
      LeRoundTrip(i, 8);
      U64(i)
    else U64(FromLe64(i, host))
  }

  /** The corrected `new` of a field read in the host's order is the value
      stored in its little-endian bytes, on either host. */
  lemma NewU64CorrectedReadsStored(stored: seq<u8>, host: Endian)
    requires |stored| == 8
    ensures NewU64Corrected(DecodeNative(stored, host), host).Get() == FromLeBytes64(stored)
  {
    Pow256Widths();
    NativeBytesRoundTrip(stored, host);
    if host == Little {
      LeBytesRoundTrip(stored);
      LeRoundTrip(FromLeBytes(stored), 8);
    }
  }
}
