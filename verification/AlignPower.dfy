/** `align_power`: rounding a 64-bit address up to a power of two, with 64-bit wrap-around. */
module AlignPower {

  const TWO64 := 0x1_0000_0000_0000_0000

  type u64 = x: int | 0 <= x < TWO64

  function Pow2(n: nat): (p: nat)
    ensures p > 0
  {
    if n == 0 then 1 else 2 * Pow2(n - 1)
  }

  /** Bitwise and, bit by bit from the lowest. */
  function BitAnd(x: nat, y: nat): (r: nat)
    ensures r <= x
  {
    if x == 0 || y == 0 then 0 else 2 * BitAnd(x / 2, y / 2) + (if x % 2 == 1 && y % 2 == 1 then 1 else 0)
  }

  /** `v << n` in 64 bits. */
  function ShiftLeft(v: u64, n: nat): (r: u64) {
    v * Pow2(n) % TWO64
  }

  function AlignPower(addr: u64, align: nat): (r: u64)
    requires align < 64
  {
    var bumped := (addr + ShiftLeft(1, align) - 1) % TWO64;
    BitAnd(bumped, ShiftLeft(TWO64 - 1, align))
  }

  ghost predicate IsMultiple(r: nat, m: nat) {
    exists q: nat :: r == q * m
  }

  /** The smallest multiple of `m` that is at least `x`. */
  ghost predicate IsCeiling(x: nat, m: nat, r: nat) {
    IsMultiple(r, m) && x <= r && forall k: nat :: IsMultiple(k, m) && x <= k ==> r <= k
  }

  // ---------------------------------------------------------------- the mask

  lemma {:induction false} Pow2Mono(a: nat, b: nat)
    requires a <= b
    ensures Pow2(a) <= Pow2(b)
    decreases b
  {
    if a < b {
      Pow2Mono(a, b - 1);
    }
  }

  lemma {:induction false} Pow2Eight(n: nat)
    ensures Pow2(n + 8) == 0x100 * Pow2(n)
  {
    assert Pow2(n + 8) == 16 * Pow2(n + 4) by {
      assert Pow2(n + 8) == 4 * Pow2(n + 6);
      assert Pow2(n + 6) == 4 * Pow2(n + 4);
    }
    assert Pow2(n + 4) == 4 * Pow2(n + 2) == 16 * Pow2(n);
  }

  lemma Pow2Max()
    ensures Pow2(64) == TWO64 && 2 * Pow2(63) == TWO64
  {
    Pow2Eight(0);
    Pow2Eight(8);
    Pow2Eight(16);
    Pow2Eight(24);
    Pow2Eight(32);
    Pow2Eight(40);
    Pow2Eight(48);
    Pow2Eight(56);
  }

  /** The mask `(bfd_vma) -1 << n` is 2^64 - 2^n. */
  lemma MaskIs(n: nat)
    requires n < 64
    ensures 0 < 2 * Pow2(n) <= TWO64
    ensures ShiftLeft(1, n) == Pow2(n) && ShiftLeft(TWO64 - 1, n) == TWO64 - Pow2(n)
  {
    Pow2Max();
    Pow2Mono(n, 63);
    OnesTimes(Pow2(n));
  }

  lemma OnesTimes(p: nat)
    requires 0 < p < TWO64
    ensures (TWO64 - 1) * p % TWO64 == TWO64 - p && 1 * p % TWO64 == p
  {
    assert (TWO64 - 1) * p == TWO64 * (p - 1) + (TWO64 - p);
  }

  /** The number the low `n` bits of `x` make. */
  function Low(x: nat, n: nat): (r: nat)
    ensures r <= x && r < Pow2(n)
  {
    if n == 0 then 0 else 2 * Low(x / 2, n - 1) + x % 2
  }

  /** Masking by 2^w - 2^n clears the low `n` bits. */
  lemma {:induction false} AndClears(x: nat, w: nat, n: nat)
    requires n <= w && x < Pow2(w)
    ensures Pow2(n) <= Pow2(w)
    ensures BitAnd(x, Pow2(w) - Pow2(n)) == x - Low(x, n)
    decreases w
  {
    Pow2Mono(n, w);
    if w == 0 {
    } else if n == 0 {
      AndOnes(x, w);
    } else if n == w {
      LowAll(x, n);
    } else {
      AndClears(x / 2, w - 1, n - 1);
      Pow2Strict(n, w);
    }
  }

  lemma Pow2Strict(a: nat, b: nat)
    requires a < b
    ensures Pow2(a) < Pow2(b)
  {
    Pow2Mono(a, b - 1);
  }

  lemma {:induction false} LowAll(x: nat, n: nat)
    requires x < Pow2(n)
    ensures Low(x, n) == x
    decreases n
  {
    if n > 0 {
      LowAll(x / 2, n - 1);
    }
  }

  lemma {:induction false} AndOnes(x: nat, w: nat)
    requires x < Pow2(w)
    ensures BitAnd(x, Pow2(w) - 1) == x
    decreases w
  {
    if w > 0 {
      AndOnes(x / 2, w - 1);
    }
  }

  /** What is left after clearing the low bits is a multiple. */
  lemma {:induction false} ClearedIsMultiple(x: nat, n: nat) returns (q: nat)
    ensures x - Low(x, n) == q * Pow2(n)
    decreases n
  {
    if n == 0 {
      q := x;
    } else {
      q := ClearedIsMultiple(x / 2, n - 1);
      assert x - Low(x, n) == 2 * (q * Pow2(n - 1)) == q * (2 * Pow2(n - 1));
    }
  }

  // ---------------------------------------------------------------- what it computes

  /** In 64-bit arithmetic: add 2^align - 1, let it wrap, clear the low bits. */
  lemma AlignIs(addr: u64, align: nat)
    requires align < 64
    ensures 0 < 2 * Pow2(align) <= TWO64
    ensures var bumped := (addr + Pow2(align) - 1) % TWO64;
            AlignPower(addr, align) == bumped - Low(bumped, align)
  {
    hide BitAnd, Low;
    MaskIs(align);
    Pow2Max();
    AndClears((addr + Pow2(align) - 1) % TWO64, 64, align);
  }

  lemma {:induction false} TimesMono(a: nat, b: nat, m: nat)
    requires a <= b
    ensures a * m <= b * m
    decreases b
  {
    if a < b {
      TimesMono(a, b - 1, m);
      assert b * m == (b - 1) * m + m;
    }
  }

  lemma MultipleGap(q: nat, j: nat, m: nat)
    requires m > 0 && q * m < j * m + m
    ensures q * m <= j * m
  {
    assert (j + 1) * m == j * m + m;
    if q > j {
      TimesMono(j + 1, q, m);
    } else {
      TimesMono(q, j, m);
    }
  }

  lemma CeilingFrom(x: nat, m: nat, q: nat)
    requires m > 0 && x <= q * m < x + m
    ensures IsCeiling(x, m, q * m)
  {
    forall k: nat | IsMultiple(k, m) && x <= k
      ensures q * m <= k
    {
      var j: nat :| k == j * m;
      MultipleGap(q, j, m);
    }
  }

  /** Without wrap-around the result is the least multiple of 2^align not below the address; otherwise it is 0. */
  lemma AlignCases(addr: u64, align: nat)
    requires align < 64
    ensures addr + Pow2(align) <= TWO64 ==> IsCeiling(addr, Pow2(align), AlignPower(addr, align))
    ensures addr + Pow2(align) > TWO64 ==> AlignPower(addr, align) == 0
  {
    hide AlignPower, Pow2, Low;
    AlignIs(addr, align);
    var p := Pow2(align);
    var bumped := (addr + p - 1) % TWO64;
    Bumped(addr, p);
    if addr + p <= TWO64 {
      var q := ClearedIsMultiple(bumped, align);
      CeilingFrom(addr, p, q);
    } else {
      LowAll(bumped, align);
    }
  }

  lemma Bumped(addr: u64, p: nat)
    requires 0 < p < TWO64
    ensures addr + p <= TWO64 ==> (addr + p - 1) % TWO64 == addr + p - 1
    ensures addr + p > TWO64 ==> (addr + p - 1) % TWO64 == addr + p - 1 - TWO64
  {
  }

  /** `align_power` rounds up if and only if the address is at most 2^64 - 2^align. */
  lemma AlignExact(addr: u64, align: nat)
    requires align < 64
    ensures IsCeiling(addr, Pow2(align), AlignPower(addr, align)) <==> addr + Pow2(align) <= TWO64
  {
    hide AlignPower;
    AlignCases(addr, align);
    MaskIs(align);
  }

  /** The wrap-around case: the last 64-bit address, rounded up to an even one, becomes 0. */
  lemma AlignWraps()
    ensures AlignPower(TWO64 - 1, 1) == 0 && !IsCeiling(TWO64 - 1, 2, AlignPower(TWO64 - 1, 1))
  {
    AlignCases(TWO64 - 1, 1);
  }

  // ---------------------------------------------------------------- aligning twice

  lemma {:induction false} Pow2Sum(a: nat, b: nat)
    ensures Pow2(a + b) == Pow2(a) * Pow2(b)
  {
    if a > 0 {
      Pow2Sum(a - 1, b);
      TimesAssociative(2, Pow2(a - 1), Pow2(b));
    }
  }

  /** A multiple of a power of two is a multiple of every smaller one. */
  lemma CoarserMultiple(r: nat, a: nat, b: nat)
    requires a <= b && IsMultiple(r, Pow2(b))
    ensures IsMultiple(r, Pow2(a))
  {
    hide Pow2;
    var q: nat :| r == q * Pow2(b);
    Pow2Sum(b - a, a);
    TimesAssociative(q, Pow2(b - a), Pow2(a));
    assert r == (q * Pow2(b - a)) * Pow2(a);
  }

  lemma TimesAssociative(x: nat, y: nat, z: nat)
    ensures x * (y * z) == (x * y) * z
  {
  }

  /** The last multiple below 2^64 is 2^64 - 2^n. */
  lemma MultipleRoom(r: nat, n: nat)
    requires n < 64 && IsMultiple(r, Pow2(n)) && r < TWO64
    ensures r + Pow2(n) <= TWO64
  {
    hide Pow2;
    var p, t := Pow2(n), Pow2(64 - n);
    Pow2Max();
    Pow2Sum(64 - n, n);
    var q: nat :| r == q * p;
    if q >= t {
      TimesMono(t, q, p);
    } else {
      TimesMono(q + 1, t, p);
      assert (q + 1) * p == q * p + p;
    }
  }

  /** The result is always a multiple, also when it wraps to 0. */
  lemma AlignedIsMultiple(addr: u64, align: nat)
    requires align < 64
    ensures IsMultiple(AlignPower(addr, align), Pow2(align))
  {
    hide AlignPower;
    AlignCases(addr, align);
    assert 0 == 0 * Pow2(align);
  }

  /** An address already aligned is left alone. */
  lemma AlignKeeps(r: u64, n: nat)
    requires n < 64 && IsMultiple(r, Pow2(n))
    ensures AlignPower(r, n) == r
  {
    hide AlignPower;
    MultipleRoom(r, n);
    AlignCases(r, n);
  }

  lemma AlignCoarser(addr: u64, a: nat, b: nat)
    requires a <= b < 64
    ensures AlignPower(AlignPower(addr, a), b) == AlignPower(addr, b)
  {
    hide AlignPower, Pow2;
    var r := AlignPower(addr, a);
    Pow2Mono(a, b);
    AlignCases(addr, a);
    AlignCases(addr, b);
    AlignCases(r, b);
    if addr + Pow2(b) <= TWO64 {
      var c := AlignPower(addr, b);
      CoarserMultiple(c, a, b);
      MultipleRoom(c, b);
      assert addr <= r <= c;
    } else if addr + Pow2(a) > TWO64 {
      assert 0 == 0 * Pow2(b);
      AlignKeeps(0, b);
    }
  }

  /** For all addresses, wrapping or not: aligning twice is aligning once to the larger power. */
  lemma AlignTwice(addr: u64, a: nat, b: nat)
    requires a < 64 && b < 64
    ensures AlignPower(AlignPower(addr, a), b) == AlignPower(addr, if a <= b then b else a)
  {
    hide AlignPower;
    if a <= b {
      AlignCoarser(addr, a, b);
    } else {
      AlignedIsMultiple(addr, a);
      CoarserMultiple(AlignPower(addr, a), b, a);
      AlignKeeps(AlignPower(addr, a), b);
    }
  }
}
