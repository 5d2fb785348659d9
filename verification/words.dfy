/** Fixed-width machine integers as the Go code uses them, written out over
    unbounded integers: every wrap-around and truncation is explicit. */
module Words {

  type u8 = x: int | 0 <= x < 0x100
  type u16 = x: int | 0 <= x < 0x1_0000
  type u32 = x: int | 0 <= x < 0x1_0000_0000
  type u64 = x: int | 0 <= x < 0x1_0000_0000_0000_0000
  type i8 = x: int | -0x80 <= x < 0x80
  type i16 = x: int | -0x8000 <= x < 0x8000
  type i32 = x: int | -0x8000_0000 <= x < 0x8000_0000

  const TWO32: int := 0x1_0000_0000
  const TWO64: int := 0x1_0000_0000_0000_0000

  /** Four bytes, the unit of a ptrace peek or poke on 32-bit ARM. */
  type Word = w: seq<u8> | |w| == 4 witness [0, 0, 0, 0]

  function Pow2(n: nat): (r: nat)
    ensures r >= 1
  {
    if n == 0 then 1 else 2 * Pow2(n - 1)
  }

  /** Reduction modulo 2^64: Go's uint64 addition, subtraction and conversion
      from a signed type. */
  function Wrap64(x: int): (r: u64)
    ensures 0 <= x < TWO64 ==> r == x
    ensures (r - x) % TWO64 == 0
  {
    x % TWO64
  }

  /** uint32(x), and uintptr(x) on 32-bit ARM: keep the low 32 bits. */
  function Trunc32(x: u64): (r: u32)
    ensures x < TWO32 ==> r == x
    ensures (x - r) % TWO32 == 0
  {
    x % TWO32
  }

  /** Go's `x << n` on uint64: bits shifted past bit 63 are lost, so a count of
      64 or more gives 0. */
  function Shl64(x: u64, n: nat): (r: u64)
  {
    if n >= 64 then 0 else (x * Pow2(n)) % TWO64
  }

  /** Go's logical `x >> n` on uint64: n halvings, so 0 once n reaches 64. */
  function Shr64(x: u64, n: nat): (r: u64)
    ensures r <= x
  {
    if n >= 64 then 0 else if n == 0 then x else Shr64(x / 2, n - 1)
  }

  /** bits.RotateLeft64(x, k): `x << s | x >> (64 - s)` with s = k mod 64, so
      a negative k rotates right. The two halves occupy disjoint bits, so the
      reduction modulo 2^64 never changes the sum; it only restates the width. */
  function RotateLeft64(x: u64, k: int): (r: u64)
  {
    var s := k % 64;
    (Shl64(x, s) + Shr64(x, 64 - s)) % TWO64
  }

  /** The little-endian 32-bit value of a word (binary.LittleEndian.Uint32). */
  function LE32(w: Word): (r: u32)
  {
    w[0] as int + 0x100 * w[1] as int + 0x1_0000 * w[2] as int + 0x100_0000 * w[3] as int
  }

  /** The little-endian bytes of a 32-bit value (binary.LittleEndian.PutUint32). */
  function LEBytes(x: u32): (w: Word)
  {
    [x % 0x100, (x / 0x100) % 0x100, (x / 0x1_0000) % 0x100, x / 0x100_0000]
  }

  lemma LE32RoundTrip(x: u32)
    ensures LE32(LEBytes(x)) == x
  {
    var w := LEBytes(x);
    assert x == x % 0x100 + 0x100 * (x / 0x100);
    assert x / 0x100 == (x / 0x100) % 0x100 + 0x100 * (x / 0x1_0000);
    assert x / 0x1_0000 == (x / 0x1_0000) % 0x100 + 0x100 * (x / 0x100_0000);
  }

  lemma LEBytesRoundTrip(w: Word)
    ensures LEBytes(LE32(w)) == w
  {
    var x := LE32(w);
    assert x % 0x100 == w[0];
    assert x / 0x100 == w[1] as int + 0x100 * w[2] as int + 0x1_0000 * w[3] as int;
    assert (x / 0x100) / 0x100 == x / 0x1_0000;
    assert x / 0x1_0000 == w[2] as int + 0x100 * w[3] as int;
    assert (x / 0x1_0000) / 0x100 == x / 0x100_0000;
    assert x / 0x100_0000 == w[3];
  }
}
