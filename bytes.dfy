/** Bytes, 32-bit unsigned integers and the little-endian encoding the wire
    protocol uses for every multi-byte integer (`int.to_bytes(4, "little")`
    and `int.from_bytes(..., "little")`), plus the two pieces of Python
    sequence semantics the tool relies on: clipped slices and slice
    assignment. */
module Bytes {

  type byte = b: int | 0 <= b < 0x100
  type u32 = x: int | 0 <= x < 0x1_0000_0000

  const U32_LIMIT: int := 0x1_0000_0000

  function Min(a: int, b: int): int { if a <= b then a else b }
  function Max(a: int, b: int): int { if a <= b then b else a }

  lemma {:induction false} MulAtLeast(d: nat, a: nat)
    requires d >= 1
    ensures d * a >= a
    decreases d
  {
    if d > 1 {
      MulAtLeast(d - 1, a);
      assert d * a == (d - 1) * a + a;
    }
  }

  /** Euclidean division has one quotient and one remainder. */
  lemma DivModUnique(x: int, a: int, q: int, m: int)
    requires a > 0 && 0 <= m < a && x == q * a + m
    ensures x / a == q && x % a == m
  {
    var q', m' := x / a, x % a;
    assert x == q' * a + m';
    if q' < q {
      assert (q - q') * a == q * a - q' * a;
      MulAtLeast(q - q', a);
      assert false;
    } else if q' > q {
      assert (q' - q) * a == q' * a - q * a;
      MulAtLeast(q' - q, a);
      assert false;
    }
  }

  /** `bytes(n)`: n zero bytes. */
  function Zeros(n: nat): (r: seq<byte>)
    ensures |r| == n
    ensures forall i :: 0 <= i < n ==> r[i] == 0
  {
    seq(n, _ => 0)
  }

  /** `x.to_bytes(4, "little")` for a value that fits in 32 bits. */
  function LE32(x: u32): (r: seq<byte>)
    ensures |r| == 4
  {
    [x % 0x100, (x / 0x100) % 0x100, (x / 0x1_0000) % 0x100, x / 0x100_0000]
  }

  /** `int.from_bytes(s, "little")` for four bytes. */
  function FromLE32(s: seq<byte>): (r: u32)
    requires |s| == 4
  {
    s[0] as int + 0x100 * (s[1] as int) + 0x1_0000 * (s[2] as int) + 0x100_0000 * (s[3] as int)
  }

  lemma FromLE32OfLE32(x: u32)
    ensures FromLE32(LE32(x)) == x
  {
    var b0, q0 := x % 0x100, x / 0x100;
    var b1, q1 := q0 % 0x100, q0 / 0x100;
    var b2, b3 := q1 % 0x100, q1 / 0x100;
    assert x == b0 + 0x100 * q0;
    assert q0 == b1 + 0x100 * q1;
    assert q1 == b2 + 0x100 * b3;
    assert x / 0x1_0000 == q1;
    assert x / 0x100_0000 == b3;
  }

  lemma LE32OfFromLE32(s: seq<byte>)
    requires |s| == 4
    ensures LE32(FromLE32(s)) == s
  {
    var x := FromLE32(s);
    var b1, b2, b3: int := s[1], s[2], s[3];
    assert x % 0x100 == s[0] && x / 0x100 == b1 + 0x100 * b2 + 0x1_0000 * b3;
    assert x / 0x1_0000 == b2 + 0x100 * b3;
    assert x / 0x100_0000 == s[3];
  }

  /** Two values have the same encoding only if they are equal. */
  lemma LE32Injective(x: u32, y: u32)
    requires LE32(x) == LE32(y)
    ensures x == y
  {
    FromLE32OfLE32(x);
    FromLE32OfLE32(y);
  }

  /** Python's `s[lo:hi]` for non-negative bounds: both ends are clipped to
      the length, and an empty slice results when `hi` falls below `lo`. */
  function Slice<T>(s: seq<T>, lo: nat, hi: nat): (r: seq<T>)
    ensures lo <= hi <= |s| ==> r == s[lo..hi]
    ensures |r| == Max(0, Min(hi, |s|) - Min(lo, |s|))
  {
    var l := Min(lo, |s|);
    s[l..Max(l, Min(hi, |s|))]
  }

  /** Python's `buf[lo:hi] = data` for non-negative bounds: the clipped slice
      is replaced by `data`, which may make the buffer longer. */
  function SliceAssign(buf: seq<byte>, lo: nat, hi: nat, data: seq<byte>): seq<byte>
  {
    var l := Min(lo, |buf|);
    buf[..l] + data + buf[Max(l, Min(hi, |buf|))..]
  }

  function Pow2(k: nat): (r: nat)
    ensures r >= 1
  {
    if k == 0 then 1 else 2 * Pow2(k - 1)
  }

  /** Bitwise and of two non-negative integers. */
  function BitAnd(a: nat, b: nat): nat
    decreases a
  {
    if a == 0 || b == 0 then 0
    else 2 * BitAnd(a / 2, b / 2) + (if a % 2 == 1 && b % 2 == 1 then 1 else 0)
  }

  lemma HalfMod(a: nat, n: nat)
    requires n > 0
    ensures 2 * ((a / 2) % n) + a % 2 == a % (2 * n)
  {
    var q, r := (a / 2) / n, (a / 2) % n;
    assert a == (2 * n) * q + (2 * r + a % 2);
    DivModUnique(a, 2 * n, q, 2 * r + a % 2);
  }

  /** Masking with 2^k - 1 keeps the remainder modulo 2^k. */
  lemma {:induction false} BitAndLowBits(a: nat, k: nat)
    ensures BitAnd(a, Pow2(k) - 1) == a % Pow2(k)
    decreases k
  {
    if k == 0 {
      assert Pow2(0) == 1;
    } else if a == 0 {
      var p := Pow2(k);
      DivModUnique(0, p, 0, 0);
    } else {
      var n := Pow2(k - 1);
      var b := 2 * n - 1;
      assert Pow2(k) == 2 * n;
      DivModUnique(b, 2, n - 1, 1);
      BitAndLowBits(a / 2, k - 1);
      var h := BitAnd(a / 2, n - 1);
      assert h == (a / 2) % n;
      var bit := if a % 2 == 1 then 1 else 0;
      assert bit == a % 2;
      assert BitAnd(a, b) == 2 * h + bit;
      HalfMod(a, n);
    }
  }

  lemma {:induction false} Pow2Split(k: nat, n: nat)
    requires k <= n
    ensures Pow2(n) == Pow2(k) * Pow2(n - k)
    decreases n
  {
    if k < n {
      Pow2Split(k, n - 1);
      var a, b := Pow2(k), Pow2(n - 1 - k);
      assert Pow2(n - k) == 2 * b;
      assert Pow2(n) == 2 * (a * b);
      assert a * (2 * b) == 2 * (a * b);
    }
  }

  lemma Pow2Of32()
    ensures Pow2(32) == U32_LIMIT
  {
    assert Pow2(8) == 256;
    Pow2Split(8, 16);
    assert Pow2(16) == 65536;
    Pow2Split(16, 32);
  }

  /** Python's `x & mask` for a mask of at most 32 bits or the mask -1 (all
      bits set); a negative `x` has infinitely many leading ones, so only
      its low 32 bits meet such a mask. */
  function AndMask(x: int, mask: int): (r: int)
    requires -1 <= mask < U32_LIMIT
    ensures mask == -1 ==> r == x
    ensures mask >= 0 ==> 0 <= r <= mask
  {
    if mask == -1 then x
    else
      BitAndBound(x % U32_LIMIT, mask);
      BitAnd(x % U32_LIMIT, mask)
  }

  /** An and keeps no bit the second operand lacks. */
  lemma {:induction false} BitAndBound(a: nat, b: nat)
    ensures BitAnd(a, b) <= b
    decreases a
  {
    if a != 0 && b != 0 {
      BitAndBound(a / 2, b / 2);
      assert b == 2 * (b / 2) + b % 2;
    }
  }

  /** Reducing modulo a multiple of m first does not change the remainder
      modulo m. */
  lemma ModOfMod(x: int, m: nat, n: nat)
    requires m > 0 && n > 0
    ensures (x % (m * n)) % m == x % m
  {
    var mn := m * n;
    var q, r := x / mn, x % mn;
    var q2, r2 := r / m, r % m;
    assert x == q * mn + r;
    assert q * mn == (q * n) * m;
    assert r == q2 * m + r2;
    assert x == (q * n + q2) * m + r2;
    DivModUnique(x, m, q * n + q2, r2);
  }

  lemma Pow2Below32(k: nat)
    requires k < 32
    ensures Pow2(k) * Pow2(32 - k) == U32_LIMIT && Pow2(k) < U32_LIMIT
  {
    Pow2Split(k, 32);
    Pow2Of32();
    Pow2Monotone(k, 31);
    assert Pow2(32) == 2 * Pow2(31);
  }

  lemma {:induction false} Pow2Monotone(i: nat, j: nat)
    requires i <= j
    ensures Pow2(i) <= Pow2(j)
    decreases j
  {
    if i < j {
      Pow2Monotone(i, j - 1);
    }
  }

  /** Python's `x & (2**k - 1)` is `x % 2**k`, whatever the sign of `x`. */
  lemma LowMask(x: int, k: nat)
    requires k < 32
    ensures Pow2(k) < U32_LIMIT && AndMask(x, Pow2(k) - 1) == x % Pow2(k)
  {
    Pow2Below32(k);
    BitAndLowBits(x % U32_LIMIT, k);
    ModOfMod(x, Pow2(k), Pow2(32 - k));
  }
}
