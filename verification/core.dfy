/** Machine integers, failure-carrying results and the byte-order codecs
    (`to_le_bytes`, `from_le_bytes` and unaligned native-order reads) that
    the rest of the model is built on. */
module Core {

  type u8 = x: int | 0 <= x < 0x100
  type u16 = x: int | 0 <= x < 0x1_0000
  type u32 = x: int | 0 <= x < 0x1_0000_0000
  type u64 = x: int | 0 <= x < 0x1_0000_0000_0000_0000

  const U32_MAX: u32 := 0xFFFF_FFFF

  datatype Option<+T> = None | Some(value: T)

  datatype Result<+T, +E> = Ok(value: T) | Err(error: E)
  {
    predicate IsFailure()
    {
      Err?
    }

    function PropagateFailure<U>(): Result<U, E>
      requires Err?
    {
      Err(error)
    }

    function Extract(): T
      requires Ok?
    {
      value
    }
  }

  /** Byte order of the host the library is compiled for. */
  datatype Endian = Little | Big

  /** `x + 1` on a `u64` in a release build: wraps to zero past the maximum. */
  function WrappingIncrement64(x: u64): (r: u64)
  {
    (x + 1) % 0x1_0000_0000_0000_0000
  }

  /** `x + 1` on a `u32` in a release build. */
  function WrappingIncrement32(x: u32): (r: u32)
  {
    (x + 1) % 0x1_0000_0000
  }

  function Pow256(n: nat): (r: nat)
    ensures r > 0
  {
    if n == 0 then 1 else 256 * Pow256(n - 1)
  }

  /** The ranges of the unsigned widths the ABI uses. */
  lemma Pow256Widths()
    ensures Pow256(1) == 0x100
    ensures Pow256(2) == 0x1_0000
    ensures Pow256(4) == 0x1_0000_0000
    ensures Pow256(8) == 0x1_0000_0000_0000_0000
  {
    assert Pow256(1) == 0x100;
    assert Pow256(2) == 0x1_0000;
    assert Pow256(3) == 0x100_0000;
    assert Pow256(4) == 0x1_0000_0000;
    assert Pow256(5) == 0x100_0000_0000;
    assert Pow256(6) == 0x1_0000_0000_0000;
    assert Pow256(7) == 0x100_0000_0000_0000;
  }

  /** `to_le_bytes`: the `n` base-256 digits of `x`, least significant first. */
  function ToLeBytes(x: nat, n: nat): (r: seq<u8>)
    ensures |r| == n
    decreases n
  {
    if n == 0 then [] else [x % 256] + ToLeBytes(x / 256, n - 1)
  }

  /** `from_le_bytes`: the number whose base-256 digits, least significant
      first, are `b`. */
  function FromLeBytes(b: seq<u8>): (r: nat)
    ensures r < Pow256(|b|)
  {
    if |b| == 0 then 0 else b[0] + 256 * FromLeBytes(b[1..])
  }

  /** Writing a value that fits in `n` bytes and reading it back is the identity. */
  lemma {:induction false} LeRoundTrip(x: nat, n: nat)
    requires x < Pow256(n)
    ensures FromLeBytes(ToLeBytes(x, n)) == x
    decreases n
  {
    if n > 0 {
      var b := ToLeBytes(x, n);
      assert b[1..] == ToLeBytes(x / 256, n - 1);
      LeRoundTrip(x / 256, n - 1);
    }
  }

  /** Reading bytes and writing the value back reproduces the bytes. */
  lemma {:induction false} LeBytesRoundTrip(b: seq<u8>)
    ensures ToLeBytes(FromLeBytes(b), |b|) == b
  {
    if |b| > 0 {
      var x := FromLeBytes(b);
      assert x % 256 == b[0];
      assert x / 256 == FromLeBytes(b[1..]);
      LeBytesRoundTrip(b[1..]);
    }
  }

  function Reverse<T>(s: seq<T>): (r: seq<T>)
    ensures |r| == |s|
    ensures forall i :: 0 <= i < |s| ==> r[i] == s[|s| - 1 - i]
  {
    if |s| == 0 then [] else Reverse(s[1..]) + [s[0]]
  }

  lemma ReverseReverse<T>(s: seq<T>)
    ensures Reverse(Reverse(s)) == s
  {
  }

  /** The value of `b` read as an integer in the host's byte order, as
      `read_unaligned` of an integer field does. */
  function DecodeNative(b: seq<u8>, host: Endian): (r: nat)
    ensures r < Pow256(|b|)
  {
    if host == Little then FromLeBytes(b) else FromLeBytes(Reverse(b))
  }

  /** The `n` bytes that hold `x` in the host's byte order. */
  function EncodeNative(x: nat, n: nat, host: Endian): (r: seq<u8>)
    ensures |r| == n
  {
    if host == Little then ToLeBytes(x, n) else Reverse(ToLeBytes(x, n))
  }

  lemma NativeRoundTrip(x: nat, n: nat, host: Endian)
    requires x < Pow256(n)
    ensures DecodeNative(EncodeNative(x, n, host), host) == x
  {
    LeRoundTrip(x, n);
    ReverseReverse(ToLeBytes(x, n));
  }

  /** Reading bytes in the host's order and writing the value back in that
      order reproduces the bytes. */
  lemma NativeBytesRoundTrip(b: seq<u8>, host: Endian)
    ensures EncodeNative(DecodeNative(b, host), |b|, host) == b
  {
    if host == Little {
      LeBytesRoundTrip(b);
    } else {
      LeBytesRoundTrip(Reverse(b));
      ReverseReverse(b);
    }
  }

  /** Unaligned read of an `n`-byte integer at byte offset `off`. */
  function ReadUint(buf: seq<u8>, off: nat, n: nat, host: Endian): (r: nat)
    requires off + n <= |buf|
    ensures r < Pow256(n)
  {
    DecodeNative(buf[off..off + n], host)
  }

  /** A slice that holds `x + y` splits into a slice holding `x` and one
      holding `y`. */
  lemma SliceHalves<T>(s: seq<T>, off: nat, x: seq<T>, y: seq<T>)
    requires off + |x| + |y| <= |s| && s[off..off + |x| + |y|] == x + y
    ensures s[off..off + |x|] == x
    ensures s[off + |x|..off + |x| + |y|] == y
  {
    assert s[off..off + |x|] == s[off..off + |x| + |y|][..|x|];
    assert s[off + |x|..off + |x| + |y|] == s[off..off + |x| + |y|][|x|..];
  }

  /** The piece between a prefix and a suffix is the slice at its offset. */
  lemma MiddleSlice<T>(pre: seq<T>, mid: seq<T>, post: seq<T>)
    ensures (pre + mid + post)[|pre|..|pre| + |mid|] == mid
  {
  }

  /** The contents of a fixed buffer `prior` after a writer filled it from
      offset 0 with `written`: what does not fit is dropped, and the bytes
      past the written prefix keep their previous contents. */
  function Overlay<T>(prior: seq<T>, written: seq<T>): (r: seq<T>)
    ensures |r| == |prior|
    ensures forall i :: 0 <= i < |r| ==> r[i] == if i < |written| then written[i] else prior[i]
  {
    if |written| >= |prior| then written[..|prior|] else written + prior[|written|..]
  }

  /** A slice cut at two interior points is the concatenation of the pieces. */
  lemma SliceThreeWays<T>(s: seq<T>, a: nat, b: nat, c: nat, d: nat)
    requires a <= b <= c <= d <= |s|
    ensures s[a..d] == s[a..b] + s[b..c] + s[c..d]
  {
    assert s[a..d] == s[a..c] + s[c..d];
    assert s[a..c] == s[a..b] + s[b..c];
  }

  /** One call of a cursor's `next`: the cursor afterwards and what the
      call returned. */
  datatype Transition<S, X> = Transition(state: S, step: X)

  /** The cursor after a number of calls, and what each call returned. */
  datatype Trace<S, X> = Trace(state: S, steps: seq<X>)

  /** `k` successive calls of a step function, collecting what each returns. */
  function Iterate<S, X>(step: S -> Transition<S, X>, s: S, k: nat): (r: Trace<S, X>)
    ensures |r.steps| == k
    decreases k
  {
    if k == 0 then Trace(s, [])
    else
      var t := step(s);
      var rest := Iterate(step, t.state, k - 1);
      Trace(rest.state, [t.step] + rest.steps)
  }

  /** `a + b` calls are `a` calls followed by `b` more from where they
      left the cursor. */
  lemma {:induction false} IterateSplit<S, X>(step: S -> Transition<S, X>, s: S, a: nat, b: nat)
    ensures var first := Iterate(step, s, a);
      var second := Iterate(step, first.state, b);
      Iterate(step, s, a + b) == Trace(second.state, first.steps + second.steps)
    decreases a
  {
    if a > 0 {
      var t := step(s);
      IterateSplit(step, t.state, a - 1, b);
      var first := Iterate(step, t.state, a - 1);
      var second := Iterate(step, first.state, b);
      assert Iterate(step, s, a + b).steps == [t.step] + Iterate(step, t.state, a - 1 + b).steps;
      assert Iterate(step, s, a).steps == [t.step] + first.steps;
      assert [t.step] + (first.steps + second.steps) == ([t.step] + first.steps) + second.steps;
    }
  }
}
