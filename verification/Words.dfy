/** Machine words of the host and the guest: unsigned widths, little-endian bytes,
    two's complement and the bit mask that `alignUp` uses. */
module Words {

  const TWO8: int := 0x100
  const TWO16: int := 0x1_0000
  const TWO32: int := 0x1_0000_0000
  const TWO64: int := 0x1_0000_0000_0000_0000

  type byte = n: int | 0 <= n < 0x100
  type u32 = n: int | 0 <= n < 0x1_0000_0000
  type u64 = n: int | 0 <= n < 0x1_0000_0000_0000_0000

  /** uint32 addition, wrapping. */
  function Add32(a: int, b: int): u32 {
    (a + b) % TWO32
  }

  function Max(a: int, b: int): int {
    if a > b then a else b
  }

  /** i * n, by repeated addition; it keeps products of two variables out of the proofs about it. */
  function Times(i: nat, n: nat): nat {
    if i == 0 then 0 else Times(i - 1, n) + n
  }

  lemma {:induction false} TimesIsProduct(i: nat, n: nat)
    ensures Times(i, n) == i * n
  {
    if i > 0 {
      TimesIsProduct(i - 1, n);
      assert i * n == (i - 1) * n + n;
    }
  }

  lemma {:induction false} TimesMonotone(i: nat, j: nat, n: nat)
    requires i <= j
    ensures Times(i, n) <= Times(j, n)
    decreases j
  {
    if i < j {
      TimesMonotone(i, j - 1, n);
    }
  }

  function Pow2(k: nat): (p: nat)
    ensures p > 0
  {
    if k == 0 then 1 else 2 * Pow2(k - 1)
  }

  // ---- little-endian bytes ----

  function Pow256(w: nat): (p: nat)
    ensures p > 0
  {
    if w == 0 then 1 else 256 * Pow256(w - 1)
  }

  /** The low `w` bytes of n, least significant first. */
  function LE(n: nat, w: nat): (s: seq<byte>)
    ensures |s| == w
  {
    if w == 0 then [] else [n % 256] + LE(n / 256, w - 1)
  }

  function FromLE(s: seq<byte>): (n: nat)
    ensures n < Pow256(|s|)
  {
    if |s| == 0 then 0 else s[0] + 256 * FromLE(s[1..])
  }

  lemma {:induction false} FromLEOfLE(n: nat, w: nat)
    requires n < Pow256(w)
    ensures FromLE(LE(n, w)) == n
  {
    if w != 0 {
      FromLEOfLE(n / 256, w - 1);
      assert LE(n, w)[1..] == LE(n / 256, w - 1);
    }
  }

  lemma {:induction false} LEOfFromLE(s: seq<byte>)
    ensures LE(FromLE(s), |s|) == s
  {
    if |s| != 0 {
      LEOfFromLE(s[1..]);
      assert [s[0]] + s[1..] == s;
    }
  }

  lemma Pow256Values()
    ensures Pow256(1) == TWO8 && Pow256(2) == TWO16 && Pow256(4) == TWO32 && Pow256(8) == TWO64
  {
    assert Pow256(3) == 256 * Pow256(2);
    assert Pow256(6) == 256 * (256 * Pow256(4));
  }

  // ---- two's complement ----

  /** The signed reading of an unsigned word below `modulus`: int8(b), int16(v), int32(v), int64(v). */
  function ToSigned(n: int, modulus: int): int {
    if 2 * n < modulus then n else n - modulus
  }

  // ---- rounding up to an alignment ----

  /** x &^ m, bit by bit: the bits of x where m has a zero bit. */
  function AndNot(x: nat, m: nat): (r: nat)
    ensures r <= x
  {
    if x == 0 then 0
    else 2 * AndNot(x / 2, m / 2) + (if m % 2 == 1 then 0 else x % 2)
  }

  /** alignUp: uint32 arithmetic and a bit mask. */
  function AlignUp(n: u32, align: u32): u32 {
    if align == 0 then n else AndNot((n + align - 1) % TWO32, align - 1)
  }

  /** The least multiple of a at or above n. */
  function RoundUp(n: nat, a: nat): (r: nat)
    requires a > 0
    ensures n <= r < n + a
  {
    if n % a == 0 then n else n + (a - n % a)
  }

  lemma {:induction false} AndNotMask(x: nat, k: nat)
    ensures AndNot(x, Pow2(k) - 1) == x - x % Pow2(k)
  {
    if k == 0 {
      AndNotZero(x);
    } else if x > 0 {
      AndNotMask(x / 2, k - 1);
      MaskStep(x, Pow2(k - 1));
    } else {
      DivModUnique(0, Pow2(k), 0, 0);
    }
  }

  lemma MaskStep(x: nat, h: nat)
    requires x > 0 && h > 0 && AndNot(x / 2, h - 1) == x / 2 - (x / 2) % h
    ensures AndNot(x, 2 * h - 1) == x - x % (2 * h)
  {
    MaskHalves(x, h);
    ModDouble(x, h);
  }

  lemma {:induction false} AndNotZero(x: nat)
    ensures AndNot(x, 0) == x
  {
    if x > 0 {
      AndNotZero(x / 2);
    }
  }

  lemma MaskHalves(x: nat, h: nat)
    requires x > 0 && h > 0
    ensures AndNot(x, 2 * h - 1) == 2 * AndNot(x / 2, h - 1)
  {
    assert (2 * h - 1) % 2 == 1 && (2 * h - 1) / 2 == h - 1;
  }

  lemma ModDouble(x: nat, h: nat)
    requires h > 0
    ensures x % (2 * h) == 2 * ((x / 2) % h) + x % 2
  {
    var q, r := (x / 2) / h, (x / 2) % h;
    assert x / 2 == q * h + r;
    assert x == q * (2 * h) + (2 * r + x % 2);
    DivModUnique(x, 2 * h, q, 2 * r + x % 2);
  }

  lemma MulMonotone(x: int, y: int, d: int)
    requires d >= 0
    ensures x <= y ==> x * d <= y * d
  {
    if x <= y {
      assert (y - x) * d >= 0;
    }
  }

  lemma DivModUnique(x: int, d: int, q: int, r: int)
    requires d > 0 && 0 <= r < d && x == q * d + r
    ensures x / d == q && x % d == r
  {
    var q', r' := x / d, x % d;
    assert x == q' * d + r';
    assert (q + 1) * d == q * d + d && (q' + 1) * d == q' * d + d;
    MulMonotone(q + 1, q', d);
    MulMonotone(q' + 1, q, d);
  }

  lemma RoundUpIsLeast(n: nat, a: nat)
    requires a > 0
    ensures RoundUp(n, a) % a == 0
    ensures forall m: nat :: n <= m && m % a == 0 ==> RoundUp(n, a) <= m
  {
    var q, r := n / a, n % a;
    assert n == q * a + r;
    var top := if r == 0 then q else q + 1;
    assert (q + 1) * a == q * a + a;
    DivModUnique(RoundUp(n, a), a, top, 0);
    forall m: nat | n <= m && m % a == 0
      ensures RoundUp(n, a) <= m
    {
      MultiplesAbove(n, m / a, a);
    }
  }

  lemma MultiplesAbove(n: nat, p: int, a: nat)
    requires a > 0 && n <= p * a
    ensures RoundUp(n, a) <= p * a
  {
    var q, r := n / a, n % a;
    assert n == q * a + r;
    assert (q + 1) * a == q * a + a;
    MulMonotone(p, q, a);
    MulMonotone(q + 1, p, a);
  }

  lemma RoundDown(n: nat, a: nat)
    requires a > 0
    ensures var x := n + a - 1; x - x % a == RoundUp(n, a)
  {
    var x := n + a - 1;
    var q, r := n / a, n % a;
    assert n == q * a + r;
    assert (q + 1) * a == q * a + a;
    if r == 0 {
      DivModUnique(x, a, q, a - 1);
    } else {
      DivModUnique(x, a, q + 1, r - 1);
    }
  }

  /** The mask form computes the rounding, whenever the sum stays inside 32 bits. */
  lemma AlignUpIsRoundUp(n: u32, k: nat)
    requires Pow2(k) < TWO32 && n + Pow2(k) - 1 < TWO32
    ensures AlignUp(n, Pow2(k)) == RoundUp(n, Pow2(k))
  {
    var a := Pow2(k);
    var x := n + a - 1;
    SmallMod(x, TWO32);
    AndNotMask(x, k);
    RoundDown(n, a);
  }

  lemma SmallMod(x: int, d: int)
    requires 0 <= x < d
    ensures x % d == x
  {
  }

  // ---- digits ----

  /** Digit i of n to base 256; for negative n, of its endless two's complement. */
  function Digit(n: int, i: nat): int {
    (n / Pow256(i)) % 256
  }

  lemma ModThenDigits(n: int, p: nat)
    requires p > 0
    ensures (n % (256 * p)) % 256 == n % 256
    ensures (n % (256 * p)) / 256 == (n / 256) % p
  {
    var q, r := n / 256, n % 256;
    var s, u := q / p, q % p;
    assert q == s * p + u && n == 256 * q + r;
    assert 256 * (s * p) == s * (256 * p);
    DivModUnique(n, 256 * p, s, 256 * u + r);
    DivModUnique(256 * u + r, 256, u, r);
  }

  lemma DivTwice(n: int, p: nat)
    requires p > 0
    ensures (n / 256) / p == n / (256 * p)
  {
    var q, r := n / 256, n % 256;
    var s, u := q / p, q % p;
    assert q == s * p + u && n == 256 * q + r;
    assert 256 * (s * p) == s * (256 * p);
    DivModUnique(n, 256 * p, s, 256 * u + r);
  }

  /** The low w bytes of n modulo 256^w are its first w digits. */
  lemma {:induction false} LEDigits(n: int, w: nat, i: nat)
    requires i < w
    ensures LE(n % Pow256(w), w)[i] == Digit(n, i)
    decreases w
  {
    var p := Pow256(w - 1);
    ModThenDigits(n, p);
    if i > 0 {
      LEDigits(n / 256, w - 1, i - 1);
      DivTwice(n, Pow256(i - 1));
    }
  }
}
