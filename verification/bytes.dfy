/**
 Byte-level helpers shared by the drivers: the byte type, fixed-width
 little- and big-endian fields (Python's `struct` formats "<H", "<I", ">H"),
 and Python's slice semantics for `s[a:b]`.
 */
module Bytes {

  /** A Python `bytearray` element. */
  type byte = x: int | 0 <= x < 256

  /** 2 to the power `n`, so that shifts can be written as arithmetic. */
  function Pow2(n: nat): (r: nat)
    ensures r >= 1
  {
    if n == 0 then 1 else 2 * Pow2(n - 1)
  }

  lemma {:induction false} Pow2Add(a: nat, b: nat)
    ensures Pow2(a + b) == Pow2(a) * Pow2(b)
  {
    if a > 0 {
      Pow2Add(a - 1, b);
    }
  }

  lemma {:induction false} Pow2Monotone(a: nat, b: nat)
    requires a <= b
    ensures Pow2(a) <= Pow2(b)
  {
    if a < b {
      Pow2Monotone(a, b - 1);
    }
  }

  /** Multiplying by a natural number keeps the order. */
  lemma MulMonotone(p: nat, a: int, b: int)
    ensures a <= b ==> p * a <= p * b
  {
    if a <= b {
      var d: nat := b - a;
      assert p * b == p * a + p * d;
    }
  }

  /** Division undoes multiplication; the remainder is the added part. */
  lemma DivMulAdd(lo: nat, m: nat, p: nat)
    requires lo < p
    ensures (lo + p * m) / p == m
    ensures (lo + p * m) % p == lo
  {
    var x := lo + p * m;
    var q := x / p;
    MulMonotone(p, q + 1, m);
    MulMonotone(p, m + 1, q);
    assert p * (q + 1) == p * q + p && p * (m + 1) == p * m + p;
  }

  function Zeros(n: nat): (r: seq<byte>)
    ensures |r| == n
    ensures forall i :: 0 <= i < n ==> r[i] == 0
  {
    seq(n, _ => 0)
  }

  /** `unpack_from("<H", s, off)` */
  function U16LE(s: seq<byte>, off: nat): (r: nat)
    requires off + 2 <= |s|
    ensures r < 0x1_0000
  {
    s[off] as int + 256 * (s[off + 1] as int)
  }

  /** `unpack_from(">H", s, off)` */
  function U16BE(s: seq<byte>, off: nat): (r: nat)
    requires off + 2 <= |s|
    ensures r < 0x1_0000
  {
    256 * (s[off] as int) + s[off + 1] as int
  }

  /** `unpack_from("<I", s, off)` */
  function U32LE(s: seq<byte>, off: nat): (r: nat)
    requires off + 4 <= |s|
    ensures r < 0x1_0000_0000
  {
    U16LE(s, off) + 0x1_0000 * U16LE(s, off + 2)
  }

  /** `pack("<H", v)` */
  function PackU16LE(v: nat): (r: seq<byte>)
    requires v < 0x1_0000
    ensures |r| == 2 && U16LE(r, 0) == v
  {
    [v % 256, v / 256]
  }

  /** `pack(">H", v)` */
  function PackU16BE(v: nat): (r: seq<byte>)
    requires v < 0x1_0000
    ensures |r| == 2 && U16BE(r, 0) == v
  {
    [v / 256, v % 256]
  }

  /** `pack("<I", v)` */
  function PackU32LE(v: nat): (r: seq<byte>)
    requires v < 0x1_0000_0000
    ensures |r| == 4 && U32LE(r, 0) == v
  {
    PackU16LE(v % 0x1_0000) + PackU16LE(v / 0x1_0000)
  }

  /** The two's-complement reading of a 16-bit field (`struct` "<h"). */
  function Signed16(u: nat): (r: int)
    requires u < 0x1_0000
    ensures -0x8000 <= r < 0x8000
    ensures r % 0x1_0000 == u
  {
    if u >= 0x8000 then u - 0x1_0000 else u
  }

  /** Where Python places a slice bound `i` on a sequence of length `n`. */
  function SliceBound(i: int, n: nat): (r: nat)
    ensures r <= n
  {
    if i < 0 then (if n + i < 0 then 0 else n + i)
    else if i > n then n
    else i
  }

  /** Python's `s[a:b]` for arbitrary integers `a` and `b`. */
  function PySlice<T>(s: seq<T>, a: int, b: int): (r: seq<T>)
    ensures 0 <= a <= b <= |s| ==> r == s[a..b]
    ensures |r| <= |s|
  {
    var lo := SliceBound(a, |s|);
    var hi := SliceBound(b, |s|);
    if lo < hi then s[lo..hi] else []
  }

  /** The bytes of `buf` after a bus transfer fills its first `|chunk|` positions. */
  function FillPrefix(buf: seq<byte>, chunk: seq<byte>): (r: seq<byte>)
    requires |chunk| <= |buf|
    ensures |r| == |buf|
    ensures r[..|chunk|] == chunk && r[|chunk|..] == buf[|chunk|..]
  {
    chunk + buf[|chunk|..]
  }

  /** A slice that lies wholly in the second part of a concatenation. */
  lemma SliceAfterPrefix<T>(a: seq<T>, b: seq<T>, i: nat, j: nat)
    requires |a| <= i <= j <= |a| + |b|
    ensures (a + b)[i..j] == b[i - |a|..j - |a|]
  {
  }

  /** Sum of a byte sequence, as Python's unbounded `sum`. */
  function Sum(s: seq<byte>): (r: nat)
    ensures r <= 255 * |s|
  {
    if |s| == 0 then 0 else Sum(s[..|s| - 1]) + s[|s| - 1]
  }
}

/**
 An optional value, for lookups in the drivers' static tables, and the
 outcome of an operation that returns a value or raises one of a driver's
 exceptions.
 */
module Maybe {
  datatype Option<+T> = None | Some(value: T)

  datatype Outcome<+T, +E> = Ok(value: T) | Fail(error: E)
}
