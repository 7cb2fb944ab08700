/** Bytes, fixed-width integers and C strings, as the wire and driver formats use them. */
module Bytes {

  type byte = x: int | 0 <= x < 256
  type bytes = seq<byte>

  const TWO_TO_16: int := 0x1_0000
  const TWO_TO_32: int := 0x1_0000_0000
  const TWO_TO_64: int := 0x1_0000_0000_0000_0000

  type u64 = x: int | 0 <= x < TWO_TO_64

  datatype Option<+T> = None | Some(value: T)

  /** 256 to the power n. */
  function Pow256(n: nat): nat {
    if n == 0 then 1 else 256 * Pow256(n - 1)
  }

  lemma Pow256Widths()
    ensures Pow256(2) == TWO_TO_16 && Pow256(4) == TWO_TO_32 && Pow256(8) == TWO_TO_64
  {
    assert Pow256(2) == TWO_TO_16;
    assert Pow256(4) == 256 * (256 * Pow256(2)) == TWO_TO_32;
    assert Pow256(6) == 256 * (256 * Pow256(4));
    assert Pow256(8) == 256 * (256 * Pow256(6));
  }

  /** The n low-order bytes of x, least significant first (host order of packed structures). */
  function LE(n: nat, x: nat): (r: bytes)
    ensures |r| == n
  {
    if n == 0 then [] else [x % 256] + LE(n - 1, x / 256)
  }

  function UnLE(b: bytes): nat {
    if b == [] then 0 else b[0] + 256 * UnLE(b[1..])
  }

  /** A value that fits the width survives the write and the read. */
  lemma {:induction false} LERoundTrip(n: nat, x: nat)
    requires x < Pow256(n)
    ensures UnLE(LE(n, x)) == x
  {
    if n > 0 {
      LERoundTrip(n - 1, x / 256);
    }
  }

  /** The n low-order bytes of x, most significant first (`htobe64`). */
  function BE(n: nat, x: nat): (r: bytes)
    ensures |r| == n
  {
    if n == 0 then [] else BE(n - 1, x / 256) + [x % 256]
  }

  /** C `memcmp` on equally long operands: the sign of the first difference. */
  function Memcmp(a: bytes, b: bytes): int
    requires |a| == |b|
  {
    if a == [] then 0
    else if a[0] != b[0] then a[0] - b[0]
    else Memcmp(a[1..], b[1..])
  }

  /** The bytes of s up to its first NUL: what `strndup` keeps of a field of |s| bytes. */
  function UpToNul(s: bytes): (r: bytes)
    ensures |r| <= |s|
  {
    if s == [] || s[0] == 0 then [] else [s[0]] + UpToNul(s[1..])
  }

  lemma {:induction false} UpToNulOfCString(s: bytes, t: bytes)
    requires 0 !in s
    requires t == [] || t[0] == 0
    ensures UpToNul(s + t) == s
  {
    if s == [] {
      assert s + t == t;
    } else {
      assert (s + t)[1..] == s[1..] + t;
      UpToNulOfCString(s[1..], t);
    }
  }

  lemma UpToNulOfWhole(s: bytes)
    requires 0 !in s
    ensures UpToNul(s) == s
  {
    UpToNulOfCString(s, []);
    assert s + [] == s;
  }
}
