/** Byte buffers and the few operations on them that every layer shares. */
module Bytes {

  type byte = b: int | 0 <= b < 256

  type pos = n: nat | n > 0 witness 1

  type bytes = seq<byte>

  /** The largest transfer in one request. */
  const MAX_TRANSFER: pos := 1024 * 1024

  const SECTOR_SIZE: pos := 512

  datatype Option<+T> = None | Some(value: T)

  function Min(a: int, b: int): int {
    if a <= b then a else b
  }

  function Max(a: int, b: int): int {
    if a >= b then a else b
  }

  function Repeat(value: byte, n: nat): (r: bytes)
    ensures |r| == n
  {
    seq(n, _ => value)
  }

  function Zeros(n: nat): (z: bytes)
    ensures |z| == n
  {
    Repeat(0, n)
  }

  /** `s` with the bytes from `at` on replaced by `data`. */
  function Splice(s: bytes, at: nat, data: bytes): (r: bytes)
    requires at + |data| <= |s|
    ensures |r| == |s|
  {
    s[..at] + data + s[at + |data|..]
  }

  /** `length` bytes of `s` from `at` on. */
  function Slice(s: bytes, at: nat, length: nat): (r: bytes)
    requires at + length <= |s|
    ensures |r| == length
  {
    s[at..at + length]
  }

  /** Slice assignment on a byte array, `a[at:at+len(data)] = data`. */
  method Store(a: array<byte>, at: nat, data: bytes)
    requires at + |data| <= a.Length
    modifies a
    ensures a[..] == Splice(old(a[..]), at, data)
  {
    forall k | 0 <= k < |data| {
      a[at + k] := data[k];
    }
  }

  lemma SpliceInTwo(s: bytes, at: nat, data: bytes, n: nat)
    requires n <= |data| && at + |data| <= |s|
    ensures Splice(Splice(s, at, data[..n]), at + n, data[n..]) == Splice(s, at, data)
  {
  }

  lemma SpliceNothing(s: bytes, at: nat)
    requires at <= |s|
    ensures Splice(s, at, []) == s
  {
  }

  lemma SpliceAt(s: bytes, at: nat, data: bytes, i: nat)
    requires at + |data| <= |s| && i < |s|
    ensures Splice(s, at, data)[i] == if at <= i < at + |data| then data[i - at] else s[i]
  {
  }

  lemma SliceSpliced(s: bytes, at: nat, data: bytes)
    requires at + |data| <= |s|
    ensures Slice(Splice(s, at, data), at, |data|) == data
  {
  }

  lemma SliceInTwo(s: bytes, at: nat, a: nat, b: nat)
    requires at + a + b <= |s|
    ensures Slice(s, at, a) + Slice(s, at + a, b) == Slice(s, at, a + b)
  {
  }

  lemma SliceOfSlice(s: bytes, base: nat, len: nat, inside: nat, n: nat)
    requires base + len <= |s| && inside + n <= len
    ensures Slice(Slice(s, base, len), inside, n) == Slice(s, base + inside, n)
  {
    assert Slice(Slice(s, base, len), inside, n) == Slice(s, base + inside, n);
  }

  lemma SliceBeside(v: bytes, at: nat, data: bytes, offset: nat, size: nat)
    requires at + |data| <= |v| && offset + size <= |v|
    requires offset + size <= at || at + |data| <= offset
    ensures Slice(Splice(v, at, data), offset, size) == Slice(v, offset, size)
  {
  }

  lemma SliceAround(v: bytes, at: nat, data: bytes, offset: nat, size: nat)
    requires offset + size <= |v| && at + |data| <= size
    ensures Slice(Splice(v, offset + at, data), offset, size) == Splice(Slice(v, offset, size), at, data)
  {
  }
}
