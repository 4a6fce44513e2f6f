/** Machine-word bit operations as functions on natural numbers, with the
    arithmetic meaning of the forms the kernel uses: XOR with a power of two,
    and masking off the low bits. */
module Bits {

  function Pow2(k: nat): (p: nat)
    ensures p >= 1
  {
    if k == 0 then 1 else 2 * Pow2(k - 1)
  }

  /** Bitwise exclusive or. */
  function Xor(a: nat, b: nat): nat
    decreases a + b
  {
    if a == 0 && b == 0 then 0 else 2 * Xor(a / 2, b / 2) + (a + b) % 2
  }

  /** `a & !m`: the bits of `a` that are clear in `m`. */
  function AndNot(a: nat, m: nat): nat {
    if a == 0 then 0 else 2 * AndNot(a / 2, m / 2) + (if m % 2 == 0 then a % 2 else 0)
  }

  /** `a >> k`. */
  function Shr(a: nat, k: nat): nat {
    if k == 0 then a else Shr(a / 2, k - 1)
  }

  /** `a` with the bit of weight `p` inverted, for `p` a power of two. */
  function Flip(a: nat, p: nat): nat
    requires p > 0
  {
    if (a / p) % 2 == 0 then a + p else if a >= p then a - p else a
  }

  // ---- division facts -------------------------------------------------------

  lemma ScaleAtLeast(d: int, n: int)
    requires d > 0
    ensures n >= 1 ==> d * n >= d
    ensures n <= -1 ==> d * n <= -d
    ensures d * n > 0 ==> n >= 1
  {
    if n >= 1 {
      assert d * n == d * (n - 1) + d;
    } else if n <= -1 {
      assert d * n == d * (n + 1) - d;
    }
  }

  lemma DivModUnique(a: int, d: int, q: int, r: int)
    requires d > 0 && a == d * q + r && 0 <= r < d
    ensures a / d == q && a % d == r
  {
    var q', r' := a / d, a % d;
    assert a == d * q' + r';
    var n := q - q';
    assert d * n == d * q - d * q' == r' - r;
    ScaleAtLeast(d, n);
  }

  lemma HalveDivisor(a: nat, p: nat)
    requires p > 0
    ensures a / (2 * p) == (a / 2) / p
    ensures a % (2 * p) == 2 * ((a / 2) % p) + a % 2
  {
    var q, r := (a / 2) / p, (a / 2) % p;
    assert a / 2 == p * q + r;
    assert a == 2 * (p * q + r) + a % 2;
    assert 2 * (p * q) == (2 * p) * q;
    DivModUnique(a, 2 * p, q, 2 * r + a % 2);
  }

  lemma MulMod(m: int, s: int)
    requires s > 0
    ensures (m * s) % s == 0 && (m * s) / s == m
  {
    assert m * s == s * m;
    DivModUnique(m * s, s, m, 0);
  }

  lemma ModAdd(a: int, b: int, s: int)
    requires s > 0 && a % s == 0
    ensures (a + b) % s == b % s
    ensures (b - a) % s == b % s
  {
    var q, t := a / s, b / s;
    assert a == s * q;
    assert b == s * t + b % s;
    assert s * q + s * t == s * (q + t);
    assert s * t - s * q == s * (t - q);
    DivModUnique(a + b, s, q + t, b % s);
    DivModUnique(b - a, s, t - q, b % s);
  }

  /** Two distinct multiples of `s` are at least `s` apart. */
  lemma MultiplesApart(x: int, y: int, s: int)
    requires s > 0 && x % s == 0 && y % s == 0 && x < y
    ensures x + s <= y
  {
    var q, t := x / s, y / s;
    assert x == s * q && y == s * t;
    var n := t - q;
    assert s * n == s * t - s * q == y - x;
    ScaleAtLeast(s, n);
  }

  lemma ModPlusSelf(a: int, s: int)
    requires s > 0
    ensures (a + s) % s == a % s
  {
    ScaleSucc(s, a / s);
    DivModUnique(a + s, s, a / s + 1, a % s);
  }

  /** The multiple of `s` after `a`. */
  lemma NextMultipleOf(a: int, s: int)
    requires s > 0
    ensures (a + s - a % s) % s == 0
  {
    ScaleSucc(s, a / s);
    DivModUnique(a + s - a % s, s, a / s + 1, 0);
  }

  // ---- powers of two --------------------------------------------------------

  lemma {:induction false} Pow2Add(j: nat, k: nat)
    ensures Pow2(j + k) == Pow2(j) * Pow2(k)
  {
    if j == 0 {
    } else {
      Pow2Add(j - 1, k);
      assert Pow2(j + k) == 2 * Pow2(j - 1 + k);
    }
  }

  lemma {:induction false} Pow2Monotone(j: nat, k: nat)
    requires j <= k
    ensures Pow2(j) <= Pow2(k)
    ensures j < k ==> 2 * Pow2(j) <= Pow2(k)
  {
    if j < k {
      Pow2Monotone(j, k - 1);
    }
  }

  // ---- the kernel's bit idioms ----------------------------------------------

  lemma XorZero(a: nat)
    ensures Xor(a, 0) == a
  {
  }

  lemma {:induction false} XorDouble(a: nat, p: nat)
    requires p > 0
    ensures Xor(a, 2 * p) == 2 * Xor(a / 2, p) + a % 2
  {
    assert (2 * p) / 2 == p;
    assert (a + 2 * p) % 2 == a % 2;
  }

  lemma FlipDouble(a: nat, p: nat)
    requires p > 0
    ensures Flip(a, 2 * p) == 2 * Flip(a / 2, p) + a % 2
  {
    HalveDivisor(a, p);
    if (a / (2 * p)) % 2 == 1 {
      FlipInRange(a, 2 * p);
      FlipInRange(a / 2, p);
    }
  }

  lemma FlipInRange(a: nat, p: nat)
    requires p > 0
    ensures Flip(a, p) == a + p || (a >= p && Flip(a, p) == a - p)
  {
    if a < p {
      DivModUnique(a, p, 0, a);
    }
  }

  lemma FlipInvolution(a: nat, p: nat)
    requires p > 0
    ensures Flip(Flip(a, p), p) == a
  {
    FlipInRange(a, p);
    var q, r := a / p, a % p;
    assert a == p * q + r;
    if q % 2 == 0 {
      assert p * (q + 1) == p * q + p;
      DivModUnique(a + p, p, q + 1, r);
    } else {
      assert p * (q - 1) == p * q - p;
      DivModUnique(a - p, p, q - 1, r);
    }
  }

  lemma FlipOfEven(a: nat, s: nat)
    requires s > 0 && a % (2 * s) == 0
    ensures Flip(a, s) == a + s
  {
    var q := a / (2 * s);
    assert a == (2 * s) * q;
    assert (2 * s) * q == s * (2 * q);
    DivModUnique(a, s, 2 * q, 0);
  }

  /** The lower of a multiple of `s` and its flip is a multiple of `2 * s`. */
  lemma FlipLowerAligned(a: nat, s: nat)
    requires s > 0 && a % s == 0
    ensures (if a <= Flip(a, s) then a else Flip(a, s)) % (2 * s) == 0
  {
    var q := a / s;
    var h := q / 2;
    var low := s * (2 * h);
    assert low == (2 * s) * h;
    DivModUnique(low, 2 * s, h, 0);
    assert a == s * q;
    if q % 2 == 0 {
      assert a == low;
    } else {
      ScaleSucc(s, 2 * h);
      assert a == low + s;
    }
  }

  lemma ScaleSucc(s: int, n: int)
    ensures s * (n + 1) == s * n + s
  {
  }

  /** XOR with a power of two adds or subtracts it: for every address, aligned or not. */
  lemma {:induction false} XorPow2(a: nat, k: nat)
    ensures Xor(a, Pow2(k)) == Flip(a, Pow2(k))
    ensures Flip(a, Pow2(k)) == a + Pow2(k) || Flip(a, Pow2(k)) == a - Pow2(k)
  {
    FlipInRange(a, Pow2(k));
    if k == 0 {
      XorOne(a);
    } else {
      XorPow2(a / 2, k - 1);
      var p := Pow2(k - 1);
      assert Xor(a, 2 * p) == Flip(a, 2 * p) by {
        XorDouble(a, p);
        FlipDouble(a, p);
      }
    }
  }

  lemma {:induction false} XorOne(a: nat)
    ensures Xor(a, 1) == Flip(a, 1)
  {
    XorZero(a / 2);
  }

  /** A right shift divides by a power of two. */
  lemma {:induction false} ShrDivides(a: nat, k: nat)
    ensures Shr(a, k) == a / Pow2(k)
  {
    if k > 0 {
      ShrDivides(a / 2, k - 1);
      HalveDivisor(a, Pow2(k - 1));
    }
  }

  lemma Pow2Twelve()
    ensures Pow2(12) == 4096
  {
    assert Pow2(4) == 16;
    assert Pow2(8) == 256;
  }

  /** Masking with `2^k - 1` rounds down to a multiple of `2^k`. */
  lemma {:induction false} AndNotMask(a: nat, k: nat)
    ensures AndNot(a, Pow2(k) - 1) == a - a % Pow2(k)
  {
    if k == 0 {
      AndNotZero(a);
    } else {
      AndNotMask(a / 2, k - 1);
      AndNotDouble(a, Pow2(k - 1));
      HalveDivisor(a, Pow2(k - 1));
    }
  }

  lemma {:induction false} AndNotDouble(a: nat, p: nat)
    requires p > 0
    ensures AndNot(a, 2 * p - 1) == 2 * AndNot(a / 2, p - 1)
  {
    var m := 2 * p - 1;
    assert m / 2 == p - 1 && m % 2 == 1;
  }

  lemma AndNotZero(a: nat)
    ensures AndNot(a, 0) == a
  {
  }

  ghost predicate IsPow2(p: nat) {
    exists k: nat :: Pow2(k) == p
  }

  /** `(a + (al - 1)) & !(al - 1)`, the kernel's align-up idiom. */
  function AlignUp(a: nat, al: nat): nat
    requires al > 0
  {
    AndNot(a + (al - 1), al - 1)
  }

  /** For any mask, clearing its bits takes away at most the mask. */
  lemma {:induction false} AndNotBounds(a: nat, m: nat)
    ensures a - m <= AndNot(a, m) <= a
  {
    if a > 0 {
      AndNotBounds(a / 2, m / 2);
    }
  }

  /** Whatever the alignment, align-up moves up by less than it. */
  lemma AlignUpBounds(a: nat, al: nat)
    requires al > 0
    ensures a <= AlignUp(a, al) < a + al
  {
    AndNotBounds(a + (al - 1), al - 1);
  }

  lemma {:induction false} AndNotSelf(a: nat)
    ensures AndNot(a, a) == 0
  {
    if a > 0 {
      AndNotSelf(a / 2);
    }
  }

  /** `n & !(n - 1)` is the lowest set bit of `n`. */
  lemma {:induction false} LowestBit(n: nat)
    requires n > 0
    ensures IsPow2(AndNot(n, n - 1))
  {
    if n % 2 == 1 {
      assert (n - 1) / 2 == n / 2;
      AndNotSelf(n / 2);
      assert Pow2(0) == AndNot(n, n - 1);
    } else {
      assert (n - 1) / 2 == n / 2 - 1 && (n - 1) % 2 == 1;
      LowestBit(n / 2);
      var k: nat :| Pow2(k) == AndNot(n / 2, n / 2 - 1);
      assert Pow2(k + 1) == AndNot(n, n - 1);
    }
  }

  /** The idiom aligns every address if and only if the alignment is a power of two. */
  lemma AlignsIffPow2(al: nat)
    requires al > 0
    ensures (forall a: nat :: AlignUp(a, al) % al == 0) <==> IsPow2(al)
  {
    if IsPow2(al) {
      forall a: nat
        ensures AlignUp(a, al) % al == 0
      {
        AlignUpLeast(a, al);
      }
    } else {
      Misaligns(al);
    }
  }

  /** Any other alignment leaves address 1 at its lowest set bit. */
  lemma Misaligns(al: nat)
    requires al > 0 && !IsPow2(al)
    ensures AlignUp(1, al) % al != 0
  {
    var low := AndNot(al, al - 1);
    LowestBit(al);
    AndNotBounds(al, al - 1);
    assert 1 + (al - 1) == al && low != al;
    DivModUnique(low, al, 0, low);
  }

  /** Align-up gives the least multiple at or above its argument. */
  lemma AlignUpLeast(a: nat, al: nat)
    requires IsPow2(al)
    ensures AlignUp(a, al) % al == 0
    ensures a <= AlignUp(a, al) < a + al
    ensures forall m: nat :: a <= m && m % al == 0 ==> AlignUp(a, al) <= m
  {
    var k: nat :| Pow2(k) == al;
    var t := a + (al - 1);
    AndNotMask(t, k);
    RoundDown(t, al);
    var up := AlignUp(a, al);
    assert up == t - t % al;
    forall m: nat | a <= m && m % al == 0
      ensures up <= m
    {
      if m < up {
        MultiplesApart(m, up, al);
      }
    }
  }

  lemma RoundDown(t: nat, s: nat)
    requires s > 0
    ensures (t - t % s) % s == 0 && 0 <= t % s < s
  {
    assert t - t % s == s * (t / s);
    DivModUnique(t - t % s, s, t / s, 0);
  }

  // ---- bit length -----------------------------------------------------------

  function BitLength(v: nat): nat {
    if v == 0 then 0 else 1 + BitLength(v / 2)
  }

  const WORD_BITS: nat := 64

  function LeadingZeros(v: nat): int {
    WORD_BITS - BitLength(v)
  }

  /** `log2_floor`: `size_of::<usize>() * 8 - 1 - v.leading_zeros()`, and 0 for 0. */
  function Log2Floor(v: nat): (r: nat)
    ensures v > 0 ==> Pow2(r) <= v < 2 * Pow2(r)
    ensures v == 0 ==> r == 0
  {
    if v == 0 then 0
    else
      BitLengthBounds(v);
      WORD_BITS - 1 - LeadingZeros(v)
  }

  lemma {:induction false} BitLengthBounds(v: nat)
    requires v > 0
    ensures BitLength(v) >= 1
    ensures Pow2(BitLength(v) - 1) <= v < 2 * Pow2(BitLength(v) - 1)
  {
    if v > 1 {
      BitLengthBounds(v / 2);
      assert v / 2 > 0;
    }
  }
}
