/** Fixed-width C++ integer types and the conversions between them that the
    engine relies on: `uint8_t`, `uint32_t`, `int32_t`, the implicit narrowing
    of an integer into an unsigned parameter, and C++'s truncating division. */
module CInt {

  /** `uint8_t` */
  type u8 = x: int | 0 <= x < 0x100
  /** `uint32_t` */
  type u32 = x: int | 0 <= x < 0x1_0000_0000
  /** `int32_t` */
  type i32 = x: int | -0x8000_0000 <= x < 0x8000_0000

  const INT32_MAX: int := 0x7FFF_FFFF

  function Abs(x: int): nat { if x < 0 then -x else x }

  /** Conversion of any integer to `uint8_t`: the low 8 bits, so -1 becomes 255. */
  function ToU8(x: int): (r: u8)
    ensures 0 <= x < 0x100 ==> r == x
    ensures (x - r) % 0x100 == 0
  {
    x % 0x100
  }

  /** Conversion of any integer to `uint32_t`: the low 32 bits, so -1 becomes 2^32 - 1. */
  function ToU32(x: int): (r: u32)
    ensures 0 <= x < 0x1_0000_0000 ==> r == x
    ensures (x - r) % 0x1_0000_0000 == 0
  {
    x % 0x1_0000_0000
  }

  /** `static_cast<int32_t>` of a `uint32_t` on a two's-complement machine. */
  function ToI32(x: u32): (r: i32)
    ensures ToU32(r) == x
    ensures x <= INT32_MAX ==> r == x
  {
    if x <= INT32_MAX then x else x - 0x1_0000_0000
  }

  /** The four sign cases of truncating division, given |a| = m * |b| + r. */
  lemma TruncDivCases(a: int, b: int, m: int, r: int)
    requires b != 0 && 0 <= m && Abs(a) == m * Abs(b) + r && 0 <= r < Abs(b)
    ensures a - (if (a >= 0) == (b > 0) then m else -m) * b == if a >= 0 then r else -r
  {
    if b > 0 {
      assert Abs(b) == b;
    } else {
      assert m * Abs(b) == -(m * b);
    }
  }

  /** A non-zero multiple of b is at least as large as b. */
  lemma NonzeroMultiple(d: int, b: int)
    requires d != 0
    ensures Abs(d * b) >= Abs(b)
  {
    var n: int, k: int := Abs(d), Abs(b);
    if (d < 0) == (b < 0) {
      assert d * b == n * k;
    } else {
      assert d * b == -(n * k);
    }
    assert n * k == (n - 1) * k + k;
    ProductNonnegative(n - 1, k);
  }

  lemma ProductNonnegative(a: nat, c: nat)
    ensures a * c >= 0
  {
  }

  /** An exact multiple divides back to its factor, whatever the signs. */
  lemma TruncDivExact(m: int, b: int)
    requires b != 0
    ensures TruncDiv(m * b, b) == m
  {
    var q := TruncDiv(m * b, b);
    assert m * b - q * b == (m - q) * b;
    if m != q {
      NonzeroMultiple(m - q, b);
    }
  }

  /** C++ `a / b`: the quotient is truncated toward zero (Dafny's `/` is Euclidean). */
  function TruncDiv(a: int, b: int): (q: int)
    requires b != 0
    ensures Abs(a - q * b) < Abs(b)
    ensures a - q * b == 0 || ((a - q * b < 0) == (a < 0))
  {
    var m, r := Abs(a) / Abs(b), Abs(a) % Abs(b);
    TruncDivCases(a, b, m, r);
    if (a >= 0) == (b > 0) then m else -m
  }
}
