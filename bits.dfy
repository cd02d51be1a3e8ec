/**
 * Machine integers and bit fields.
 *
 * C's fixed-width unsigned integers are modelled as bounded subsets of
 * `int`; every place where the simulator relies on 64-bit wrap-around
 * reduces explicitly with `Wrap64`.
 */
module Bits {

  const TWO32: int := 0x1_0000_0000
  const TWO64: int := 0x1_0000_0000_0000_0000

  type u32 = x: int | 0 <= x < 0x1_0000_0000
  type u64 = x: int | 0 <= x < 0x1_0000_0000_0000_0000
  type i64 = x: int | -0x8000_0000_0000_0000 <= x < 0x8000_0000_0000_0000
  type Byte = x: int | 0 <= x < 256

  function Pow2(n: nat): (r: nat)
    ensures r > 0
  {
    if n == 0 then 1 else 2 * Pow2(n - 1)
  }

  function Pow256(n: nat): (r: nat)
    ensures r > 0
  {
    if n == 0 then 1 else 256 * Pow256(n - 1)
  }

  function Min(a: int, b: int): int { if a < b then a else b }

  /** The value a uint64_t holds after C arithmetic on `x`. */
  function Wrap64(x: int): u64 { x % TWO64 }

  /** Byte `i` (little-endian numbering) of `x`: `(x >> 8 * i) & 0xFF`. */
  function ByteOf(x: nat, i: nat): Byte
  {
    if i == 0 then x % 256 else ByteOf(x / 256, i - 1)
  }

  /** `x >> n`. */
  function Shr(x: nat, n: nat): (r: nat)
    ensures r <= x
  {
    if n == 0 then x else Shr(x / 2, n - 1)
  }

  /** `x & ((1 << n) - 1)`: the low `n` bits of `x`. */
  function LowBits(x: nat, n: nat): (r: nat)
    ensures r < Pow2(n) && r <= x
  {
    if n == 0 then 0 else x % 2 + 2 * LowBits(x / 2, n - 1)
  }

  lemma {:induction false} Pow2Add(a: nat, b: nat)
    ensures Pow2(a + b) == Pow2(a) * Pow2(b)
  {
    if a > 0 {
      Pow2Add(a - 1, b);
    }
  }

  lemma {:induction false} Pow2Mono(a: nat, b: nat)
    requires a <= b
    ensures Pow2(a) <= Pow2(b)
  {
    if a < b {
      Pow2Mono(a, b - 1);
    }
  }

  lemma Pow2Sixty4()
    ensures Pow2(64) == TWO64
  {
    Pow2Add(32, 32);
    assert Pow2(32) == TWO32 by { Pow2Add(16, 16); assert Pow2(16) == 65536 by { Pow2Add(8, 8); } }
  }

  lemma Pow256Eight()
    ensures Pow256(8) == TWO64
  {
  }

  /** `x == q * m + t` with `0 <= t < m` determines quotient and remainder. */
  lemma DivModUnique(x: int, m: int, q: int, t: int)
    requires m > 0 && 0 <= t < m && x == q * m + t
    ensures x / m == q && x % m == t
  {
    var q', t' := x / m, x % m;
    assert x == q' * m + t';
    assert (q' - q) * m == t - t';
    MulAtLeast(q' - q, m);
    MulAtLeast(q - q', m);
  }

  /** Quotient and remainder of naturals are naturals, and the quotient is at most the dividend. */
  lemma DivBounds(x: nat, m: nat)
    requires m > 0
    ensures 0 <= x / m <= x && 0 <= x % m < m
  {
    var q, r := x / m, x % m;
    assert x == q * m + r;
    MulAtLeast(-q, m);
    MulAtLeast(m, q);
  }

  lemma MulAtLeast(k: int, m: int)
    requires m >= 0
    ensures k >= 1 ==> k * m >= m
  {
    if k >= 1 {
      assert k * m == (k - 1) * m + m;
    }
  }

  lemma MulMono(a: nat, b: nat, m: nat)
    requires a <= b
    ensures a * m <= b * m
  {
    assert b * m == a * m + (b - a) * m;
  }

  lemma MulComm3(a: int, b: int, c: int)
    ensures a * (b * c) == (a * c) * b
  {
  }

  /**
   * Splitting a remainder modulo a product: the bits of `x` below `a * b`
   * are the bits below `a` plus the next field shifted up by `a`.
   */
  lemma DivModSplit(x: nat, a: nat, b: nat)
    requires a > 0 && b > 0
    ensures x % (a * b) == (x / a % b) * a + x % a
    ensures x / (a * b) == x / a / b
  {
    var q1, r1 := x / a, x % a;
    var q2, r2 := q1 / b, q1 % b;
    assert x == q2 * (a * b) + (r2 * a + r1) by {
      assert x == q1 * a + r1;
      assert q1 == q2 * b + r2;
      calc {
        q1 * a + r1;
        (q2 * b + r2) * a + r1;
        q2 * (a * b) + (r2 * a + r1);
      }
    }
    assert r2 * a + r1 < a * b by {
      assert r2 <= b - 1;
      assert r2 * a <= (b - 1) * a;
    }
    DivModUnique(x, a * b, q2, r2 * a + r1);
  }

  /** `x` is its high part over `a * b`, its middle field over `a`, and its low part. */
  lemma ThreeFields(x: nat, a: nat, b: nat)
    requires a > 0 && b > 0
    ensures x == x / (a * b) * (a * b) + (x / a % b) * a + x % a
  {
    DivModSplit(x, a, b);
    var m := a * b;
    assert x == x / m * m + x % m;
  }

  lemma WrapAdd(x: int, y: int)
    ensures Wrap64(Wrap64(x) + y) == Wrap64(x + y)
  {
    var q := x / TWO64;
    assert x == q * TWO64 + Wrap64(x);
    DivModUnique(x + y, TWO64, q + (Wrap64(x) + y) / TWO64, (Wrap64(x) + y) % TWO64);
  }

  /**
   * `safe_GETBF`: bits `[frompos, frompos + width)` of `src`. The result is
   * exactly the field that lies between the bits below `frompos` and the bits
   * at and above `frompos + width`.
   */
  function GetBF(src: u32, frompos: nat, width: nat): (r: nat)
    requires frompos < 32 && width < 32
    ensures r < Pow2(width)
    ensures src % Pow2(frompos + width) == r * Pow2(frompos) + src % Pow2(frompos)
  {
    Pow2Add(frompos, width);
    DivModSplit(src, Pow2(frompos), Pow2(width));
    (src / Pow2(frompos)) % Pow2(width)
  }

  /**
   * `safe_GETBOFFSET`: the field `[frompos, frompos + width)` of `src`,
   * sign-extended from its top bit (the arithmetic right shift by
   * `64 - width` of the field moved to the top of a 64-bit word). The mask
   * `((1 << width) - 1) << frompos` stays a positive `int` only while
   * `frompos + width <= 31`, which every call site respects.
   */
  function GetBOffset(src: u32, frompos: nat, width: nat): (r: int)
    requires 1 <= width && frompos + width <= 31
    ensures -(Pow2(width - 1) as int) <= r < Pow2(width - 1)
    ensures (r - GetBF(src, frompos, width)) % Pow2(width) == 0
    ensures GetBF(src, frompos, width) < Pow2(width - 1) ==> r == GetBF(src, frompos, width)
  {
    var f: int, half: int, p: int := GetBF(src, frompos, width), Pow2(width - 1), Pow2(width);
    assert p == 2 * half;
    if f < half then
      assert (f - f) % p == 0;
      f
    else
      DivModUnique(-p, p, -1, 0);
      assert (f - p) - f == -p;
      f - p
  }

  /** Shifting right by `n` divides by 2^n. */
  lemma {:induction false} ShrDiv(x: nat, n: nat)
    ensures Shr(x, n) == x / Pow2(n)
  {
    if n > 0 {
      ShrDiv(x / 2, n - 1);
      DivModSplit(x, 2, Pow2(n - 1));
    }
  }

  /** Masking the low `n` bits is the remainder modulo 2^n. */
  lemma {:induction false} LowBitsMod(x: nat, n: nat)
    ensures LowBits(x, n) == x % Pow2(n)
  {
    if n > 0 {
      LowBitsMod(x / 2, n - 1);
      DivModSplit(x, 2, Pow2(n - 1));
    }
  }

  /** Shifting by `a + b` is shifting by `a`, then by `b`. */
  lemma {:induction false} ShrAdd(x: nat, a: nat, b: nat)
    ensures Shr(x, a + b) == Shr(Shr(x, a), b)
  {
    if a > 0 {
      ShrAdd(x / 2, a - 1, b);
    }
  }

  /** Clearing the low `n` bits leaves the bits above them and zeros below. */
  lemma {:induction false} ClearLowBits(x: nat, n: nat)
    ensures Shr(x - LowBits(x, n), n) == Shr(x, n)
    ensures LowBits(x - LowBits(x, n), n) == 0
  {
    if n > 0 {
      var y := x - LowBits(x, n);
      var l := LowBits(x / 2, n - 1);
      ClearLowBits(x / 2, n - 1);
      assert y == 2 * (x / 2 - l);
      DivModUnique(y, 2, x / 2 - l, 0);
    }
  }

  /** Byte `i` is the quotient by 256^i, reduced modulo 256. */
  lemma {:induction false} ByteOfDiv(x: nat, i: nat)
    ensures ByteOf(x, i) == x / Pow256(i) % 256
  {
    if i > 0 {
      ByteOfDiv(x / 256, i - 1);
      DivModSplit(x, 256, Pow256(i - 1));
    }
  }

  /** `x >> 8 * n`. */
  function ShiftBytes(x: nat, n: nat): (r: nat)
    ensures r <= x
  {
    if n == 0 then x else ShiftBytes(x / 256, n - 1)
  }

  /**
   * Peeling bytes off a shifted copy: the low byte of `x >> 8 * n` is byte
   * `n` of `x`, and shifting it by one more byte gives `x >> 8 * (n + 1)`.
   */
  lemma {:induction false} ShiftBytesStep(x: nat, n: nat)
    ensures ShiftBytes(x, n) % 256 == ByteOf(x, n)
    ensures ShiftBytes(x, n) / 256 == ShiftBytes(x, n + 1)
  {
    if n > 0 {
      ShiftBytesStep(x / 256, n - 1);
    }
  }

  /** The low `n` bytes of `x` are its low byte plus the low `n - 1` bytes of `x >> 8`. */
  lemma LowBytes(x: nat, n: nat)
    requires n > 0
    ensures x % Pow256(n) == x % 256 + 256 * ((x / 256) % Pow256(n - 1))
  {
    DivModSplit(x, 256, Pow256(n - 1));
  }

  /** The number whose little-endian bytes are `bs` (byte 0 least significant). */
  function LittleEndian(bs: seq<Byte>): nat
  {
    if bs == [] then 0 else bs[0] + 256 * LittleEndian(bs[1..])
  }

  /** The number whose big-endian bytes are `bs` (byte 0 most significant). */
  function BigEndian(bs: seq<Byte>): nat
  {
    if bs == [] then 0 else BigEndian(bs[..|bs| - 1]) * 256 + bs[|bs| - 1]
  }

  lemma {:induction false} Pow256Mono(a: nat, b: nat)
    requires a <= b
    ensures Pow256(a) <= Pow256(b)
  {
    if a < b {
      Pow256Mono(a, b - 1);
    }
  }

  /** `n` bytes hold a number below 256^n, in either byte order. */
  lemma {:induction false} LittleEndianBound(bs: seq<Byte>)
    ensures LittleEndian(bs) < Pow256(|bs|)
  {
    if bs != [] {
      LittleEndianBound(bs[1..]);
    }
  }

  lemma {:induction false} BigEndianBound(bs: seq<Byte>)
    ensures BigEndian(bs) < Pow256(|bs|)
  {
    if bs != [] {
      BigEndianBound(bs[..|bs| - 1]);
    }
  }

  /** Bytes laid out least-significant first reassemble, little-endian, to the value. */
  lemma {:induction false} LittleEndianOfBytes(bs: seq<Byte>, x: nat)
    requires forall k :: 0 <= k < |bs| ==> bs[k] == ByteOf(x, k)
    ensures LittleEndian(bs) == x % Pow256(|bs|)
  {
    if bs != [] {
      assert forall k :: 0 <= k < |bs| - 1 ==> bs[1..][k] == ByteOf(x / 256, k);
      LittleEndianOfBytes(bs[1..], x / 256);
      LowBytes(x, |bs|);
    }
  }

  /** Bytes laid out most-significant first reassemble, big-endian, to the value. */
  lemma {:induction false} BigEndianOfBytes(bs: seq<Byte>, x: nat)
    requires forall k :: 0 <= k < |bs| ==> bs[k] == ByteOf(x, |bs| - 1 - k)
    ensures BigEndian(bs) == x % Pow256(|bs|)
  {
    if bs != [] {
      var n, front := |bs|, bs[..|bs| - 1];
      assert forall k :: 0 <= k < |front| ==> front[k] == ByteOf(x / 256, |front| - 1 - k);
      BigEndianOfBytes(front, x / 256);
      LowBytes(x, n);
    }
  }
}

/** An optional value, standing for a pointer that may be NULL. */
module Wrappers {
  datatype Option<+T> = None | Some(value: T)
}
