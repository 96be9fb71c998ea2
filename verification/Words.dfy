/** Bytes, 32-bit words and their little-endian layout in memory. */
module Words {

  /** A value or NULL. */
  datatype Option<+T> = None | Some(value: T)

  type byte = x: int | 0 <= x < 256

  const TWO16: nat := 0x1_0000
  const TWO31: nat := 0x8000_0000
  const TWO32: nat := 0x1_0000_0000
  const TWO64: nat := 0x1_0000_0000_0000_0000

  type u32 = x: int | 0 <= x < 0x1_0000_0000
  type i32 = x: int | -0x8000_0000 <= x < 0x8000_0000

  /** Conversion to `unsigned int`. */
  function Wrap32(x: int): u32 {
    x % 0x1_0000_0000
  }

  /** `a + b` and `a - b` on `unsigned int`. */
  function Add32(a: u32, b: u32): u32 {
    if a + b < 0x1_0000_0000 then a + b else a + b - 0x1_0000_0000
  }

  function Sub32(a: u32, b: u32): u32 {
    if b <= a then a - b else a - b + 0x1_0000_0000
  }

  lemma Wrap32Small(x: nat)
    requires x < TWO32
    ensures Wrap32(x) == x
  {
  }

  function Times(a: nat, b: nat): nat {
    a * b
  }

  lemma MulAtLeast(n: nat, m: nat)
    requires 0 < m
    ensures n <= n * m
  {
    assert n * m == n + n * (m - 1);
  }

  lemma Add32Wraps(x: nat, b: u32)
    ensures Add32(Wrap32(x), b) == Wrap32(x + b)
  {
  }

  function Min(a: int, b: int): int {
    if a < b then a else b
  }

  /** Four bytes of an `unsigned int`, least significant first. */
  function Le32(x: u32): (s: seq<byte>)
    ensures |s| == 4
  {
    [x % 256, x / 0x100 % 256, x / 0x1_0000 % 256, x / 0x100_0000]
  }

  function FromLe32(s: seq<byte>): u32
    requires |s| == 4
  {
    var b0: int, b1: int, b2: int, b3: int := s[0], s[1], s[2], s[3];
    b0 + 0x100 * b1 + 0x1_0000 * b2 + 0x100_0000 * b3
  }

  lemma Le32RoundTrip(x: u32)
    ensures FromLe32(Le32(x)) == x
  {
    var y := x / 0x100;
    var z := y / 0x100;
    assert z == x / 0x1_0000;
    assert z / 0x100 == x / 0x100_0000;
    assert x == x % 256 + 0x100 * y;
    assert y == y % 256 + 0x100 * z;
    assert z == z % 256 + 0x100 * (z / 0x100);
  }

  /** A signed 32-bit value read back from its unsigned representation, and the 16-bit analogue. */
  function AsI32(x: u32): i32 {
    if x < 0x8000_0000 then x else x - 0x1_0000_0000
  }

  lemma SignedRoundTrip(x: i32)
    ensures AsI32(Wrap32(x)) == x
  {
  }

  /** The value of a `short` counter after counting to `n` from zero. */
  function Short(n: nat): int {
    var w := n % 0x1_0000;
    if w < 0x8000 then w else w - 0x1_0000
  }

  function Le16(n: int): (s: seq<byte>)
    ensures |s| == 2
  {
    [n % 0x1_0000 % 256, n % 0x1_0000 / 256]
  }

  function FromLe16(s: seq<byte>): int
    requires |s| == 2
  {
    var b0: int, b1: int := s[0], s[1];
    Short(b0 + 0x100 * b1)
  }

  lemma Le16RoundTrip(n: nat)
    ensures FromLe16(Le16(n)) == Short(n)
  {
    var w := n % 0x1_0000;
    assert w == w % 256 + 0x100 * (w / 256);
  }

  /** A `short` counter is stored as the low 16 bits of the true count. */
  lemma Le16Short(n: nat)
    ensures Le16(Short(n)) == Le16(n)
  {
    assert Short(n) % 0x1_0000 == n % 0x1_0000;
  }

  /** `dst` with `src` copied over it at position `at` (memcpy). */
  function Splice<T>(dst: seq<T>, at: nat, src: seq<T>): (r: seq<T>)
    requires at + |src| <= |dst|
    ensures |r| == |dst|
    ensures forall i :: 0 <= i < |r| ==> r[i] == if at <= i < at + |src| then src[i - at] else dst[i]
  {
    dst[..at] + src + dst[at + |src|..]
  }

  lemma MulGap(a: nat, b: nat, m: nat)
    requires a < b
    ensures a * m + m <= b * m
  {
    var d := b - a;
    assert b * m == a * m + d * m;
    assert d * m == m + (d - 1) * m;
  }

  /** A quotient and a remainder in range determine the remainder. */
  lemma ModUnique(x: nat, q: nat, r: nat, m: nat)
    requires 0 < m && r < m && x == q * m + r
    ensures x % m == r
  {
    var p := x / m;
    assert x == p * m + x % m;
    if q > p {
      MulGap(p, q, m);
    } else if q < p {
      MulGap(q, p, m);
    }
  }
}
