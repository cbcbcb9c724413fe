/**
 The JavaScript numbers the client computes with: hexadecimal text read by `parseInt` is rounded to
 the nearest double (ECMA-262 section 19.2.5, ties to even), `^` works on 32-bit integers (section
 7.1.6), `%` keeps the sign of its left operand.
 */
module Numbers {
  import opened Arithmetic

  function Pow2(n: nat): (p: nat)
    ensures p > 0
  {
    if n == 0 then 1 else 2 * Pow2(n - 1)
  }

  lemma {:induction false} Pow2Add(m: nat, n: nat)
    ensures Pow2(m + n) == Pow2(m) * Pow2(n)
  {
    if m > 0 {
      Pow2Add(m - 1, n);
      MulAssoc(2, Pow2(m - 1), Pow2(n));
    }
  }

  // ---------- Bitwise exclusive or ----------

  predicate Odd(n: nat) {
    n % 2 == 1
  }

  function Xor(a: nat, b: nat): nat {
    if a == 0 && b == 0 then 0 else 2 * Xor(a / 2, b / 2) + if Odd(a) != Odd(b) then 1 else 0
  }

  lemma XorHalf(a: nat, b: nat)
    ensures Xor(a, b) / 2 == Xor(a / 2, b / 2) && (Odd(Xor(a, b)) <==> Odd(a) != Odd(b))
  {
  }

  lemma {:induction false} XorBound(a: nat, b: nat, k: nat)
    requires a < Pow2(k) && b < Pow2(k)
    ensures Xor(a, b) < Pow2(k)
  {
    if k > 0 {
      XorBound(a / 2, b / 2, k - 1);
      XorHalf(a, b);
    }
  }

  lemma {:induction false} XorWithZero(b: nat)
    ensures Xor(0, b) == b
  {
    if b > 0 {
      XorWithZero(b / 2);
    }
  }

  lemma {:induction false} XorSelf(a: nat)
    ensures Xor(a, a) == 0
  {
    if a > 0 {
      XorSelf(a / 2);
    }
  }

  lemma SameHalves(x: nat, y: nat)
    requires x / 2 == y / 2 && Odd(x) == Odd(y)
    ensures x == y
  {
  }

  lemma {:induction false} XorAssociates(a: nat, b: nat, c: nat)
    ensures Xor(Xor(a, b), c) == Xor(a, Xor(b, c))
    decreases a + b + c
  {
    if a + b + c > 0 {
      var x, y := Xor(a, b), Xor(b, c);
      XorHalf(a, b);
      XorHalf(b, c);
      XorHalf(x, c);
      XorHalf(a, y);
      XorAssociates(a / 2, b / 2, c / 2);
      SameHalves(Xor(x, c), Xor(a, y));
    }
  }

  // XOR-ing twice with the same number undoes itself; this is what makes it a permutation.
  lemma XorCancel(a: nat, b: nat)
    ensures Xor(a, Xor(a, b)) == b
  {
    XorAssociates(a, a, b);
    XorSelf(a);
    XorWithZero(b);
  }

  lemma XorZeroMeansEqual(a: nat, b: nat)
    requires Xor(a, b) == 0
    ensures a == b
  {
    XorCancel(a, b);
    XorWithZero(a);
    XorCommutes(a, 0);
  }

  lemma {:induction false} XorCommutes(a: nat, b: nat)
    ensures Xor(a, b) == Xor(b, a)
    decreases a + b
  {
    if a > 0 || b > 0 {
      XorCommutes(a / 2, b / 2);
    }
  }

  // The low k bits of an XOR come from the low k bits of its operands.
  lemma {:induction false} XorLowBits(a: nat, b: nat, k: nat)
    ensures Xor(a, b) % Pow2(k) == Xor(a % Pow2(k), b % Pow2(k))
  {
    if k > 0 {
      XorLowBits(a / 2, b / 2, k - 1);
      XorLowBitsStep(a, b, Pow2(k - 1));
    }
  }

  lemma XorLowBitsStep(a: nat, b: nat, p: nat)
    requires p > 0 && Xor(a / 2, b / 2) % p == Xor(a / 2 % p, b / 2 % p)
    ensures Xor(a, b) % (2 * p) == Xor(a % (2 * p), b % (2 * p))
  {
    ModHalf(a, p);
    ModHalf(b, p);
    ModHalf(Xor(a, b), p);
    var c, d := a % (2 * p), b % (2 * p);
    XorHalf(a, b);
    XorHalf(c, d);
    SameHalves(Xor(a, b) % (2 * p), Xor(c, d));
  }

  lemma ModHalf(n: nat, p: nat)
    requires p > 0
    ensures n % (2 * p) / 2 == n / 2 % p && Odd(n % (2 * p)) == Odd(n)
  {
    var q, r := n / 2 / p, n / 2 % p;
    assert n / 2 == q * p + r;
    MulAssoc(q, 2, p);
    MulAssoc(2, q, p);
    DivModUnique(n, 2 * p, q, 2 * r + n % 2);
  }

  // Dropping the low k bits.
  function Shift(n: nat, k: nat): nat {
    if k == 0 then n else Shift(n / 2, k - 1)
  }

  lemma {:induction false} ShiftDivides(n: nat, k: nat)
    ensures Shift(n, k) == n / Pow2(k)
  {
    if k > 0 {
      ShiftDivides(n / 2, k - 1);
      DivDiv(n, Pow2(k - 1));
    }
  }

  lemma {:induction false} XorShift(a: nat, b: nat, k: nat)
    ensures Shift(Xor(a, b), k) == Xor(Shift(a, k), Shift(b, k))
  {
    if k > 0 {
      XorHalf(a, b);
      XorShift(a / 2, b / 2, k - 1);
    }
  }

  // ---------- 32-bit integers ----------

  const TWO_32 := 0x1_0000_0000

  function ToInt32(x: int): (r: int)
    ensures -0x8000_0000 <= r < 0x8000_0000 && r % TWO_32 == x % TWO_32
  {
    var m := x % TWO_32;
    if m >= 0x8000_0000 then m - TWO_32 else m
  }

  // The operands' bits, as unsigned 32-bit numbers, are combined and read as a signed number again.
  function JsXor(a: int, b: int): int {
    ToInt32(Xor(a % TWO_32, b % TWO_32))
  }

  // `%` truncates: the sign is the left operand's.
  function JsRem(a: int, m: nat): (r: int)
    requires m > 0
    ensures r < m && -r < m
  {
    if a >= 0 then a % m else -(-a % m)
  }

  lemma XorOfSmall(a: nat, b: nat)
    requires a < 1024 && b < 1024
    ensures Xor(a, b) < 1024
  {
    Pow2Values();
    XorBound(a, b, 10);
  }

  lemma SmallFitsInt32(x: nat)
    requires x < 0x8000_0000
    ensures x % TWO_32 == x && ToInt32(x) == x
  {
  }

  // The 32 bits of `a ^ b` are the XOR of the operands' low 32 bits.
  lemma JsXorBits(a: int, b: int)
    ensures JsXor(a, b) % TWO_32 == Xor(a % TWO_32, b % TWO_32)
    ensures -0x8000_0000 <= JsXor(a, b) < 0x8000_0000
  {
    Pow2Values();
    XorBound(a % TWO_32, b % TWO_32, 32);
  }

  lemma JsXorOfSmall(a: nat, b: nat)
    requires a < 1024 && b < 1024
    ensures JsXor(a, b) == Xor(a, b) && 0 <= Xor(a, b) < 1024
  {
    XorOfSmall(a, b);
    SmallFitsInt32(a);
    SmallFitsInt32(b);
    SmallFitsInt32(Xor(a, b));
  }

  lemma Pow2Values()
    ensures Pow2(10) == 1024 && Pow2(11) == 2048
    ensures Pow2(31) == 0x8000_0000 && Pow2(32) == TWO_32
  {
    assert Pow2(10) == 1024;
    Pow2Add(10, 10);
    Pow2Add(20, 10);
    assert Pow2(30) == 1024 * 1024 * 1024;
  }

  // ---------- Rounding to a double ----------

  const PRECISION := 53

  // How many low bits of n do not fit a 53-bit significand.
  function ExtraBits(n: nat): nat {
    if n < Pow2(PRECISION) then 0 else 1 + ExtraBits(n / 2)
  }

  // The nearer multiple of `unit`; the even one of two equally near.
  function RoundTo(n: nat, unit: nat): int
    requires unit > 0
  {
    var r := n % unit;
    if 2 * r < unit || (2 * r == unit && n / unit % 2 == 0) then n - r else n - r + unit
  }

  // Keep 53 significant bits.
  function Round53(n: nat): int {
    RoundTo(n, Pow2(ExtraBits(n)))
  }

  lemma {:induction false} ExtraBitsQuotient(n: nat)
    ensures n / Pow2(ExtraBits(n)) < Pow2(53)
    ensures ExtraBits(n) > 0 ==> n / Pow2(ExtraBits(n)) >= Pow2(52)
  {
    if n >= Pow2(53) {
      ExtraBitsQuotient(n / 2);
      var u := Pow2(ExtraBits(n / 2));
      DivDiv(n, u);
      assert Pow2(53) == 2 * Pow2(52);
    }
  }

  lemma DivDiv(n: nat, u: nat)
    requires u > 0
    ensures n / (2 * u) == n / 2 / u
  {
    var q, r := n / 2 / u, n / 2 % u;
    assert n / 2 == q * u + r;
    MulAssoc(q, 2, u);
    MulAssoc(2, q, u);
    DivModUnique(n, 2 * u, q, 2 * r + n % 2);
  }

  lemma RoundToMultiple(n: nat, unit: nat) returns (m: nat)
    requires unit > 0
    ensures RoundTo(n, unit) == m * unit
    ensures m == n / unit || m == n / unit + 1
    ensures 2 * (n % unit) == unit ==> m % 2 == 0
  {
    var q := n / unit;
    assert n == q * unit + n % unit;
    assert (q + 1) * unit == q * unit + unit;
    m := if RoundTo(n, unit) == n - n % unit then q else q + 1;
  }

  function Distance(a: int, b: int): nat {
    if a < b then b - a else a - b
  }

  // No multiple of the unit is nearer.
  lemma RoundToNearest(n: nat, unit: nat, m: nat)
    requires unit > 0
    ensures Distance(RoundTo(n, unit), n) <= Distance(m * unit, n)
  {
    var q, r := n / unit, n % unit;
    assert n == q * unit + r;
    MultipleAtMost(m, q, unit);
    MultipleAtMost(q + 1, m, unit);
    assert (q + 1) * unit == q * unit + unit;
  }

  // Round53 is correct rounding: its result has at most 53 significant bits, and no number with at
  // most 53 significant bits is nearer to n.
  lemma Round53IsNearest(n: nat, m: nat, j: nat)
    requires m < Pow2(53)
    ensures Distance(Round53(n), n) <= Distance(m * Pow2(j), n)
  {
    var e := ExtraBits(n);
    if j >= e {
      NearestCoarse(n, e, m, j);
    } else {
      ExtraBitsQuotient(n);
      NearestFine(n, e, 52, m, j);
    }
  }

  lemma NearestCoarse(n: nat, e: nat, m: nat, j: nat)
    requires e <= j
    ensures Distance(RoundTo(n, Pow2(e)), n) <= Distance(m * Pow2(j), n)
  {
    CoarserIsMultiple(m, j, e);
    RoundToNearest(n, Pow2(e), m * Pow2(j - e));
  }

  lemma NearestFine(n: nat, e: nat, t: nat, m: nat, j: nat)
    requires j < e && m <= Pow2(t + 1) && n / Pow2(e) >= Pow2(t)
    ensures Distance(RoundTo(n, Pow2(e)), n) <= Distance(m * Pow2(j), n)
  {
    FinerIsBelow(t, m, j, n / Pow2(e), e);
    BelowIsFarther(n, Pow2(e), m * Pow2(j));
  }

  lemma CoarserIsMultiple(m: nat, j: nat, e: nat)
    requires e <= j
    ensures m * Pow2(j) == m * Pow2(j - e) * Pow2(e)
  {
    Pow2Add(j - e, e);
    MulAssoc(m, Pow2(j - e), Pow2(e));
  }

  // A number of t + 1 bits on a finer grid stays below every such multiple of the coarser unit.
  lemma FinerIsBelow(t: nat, m: nat, j: nat, q: nat, e: nat)
    requires j < e && m <= Pow2(t + 1) && q >= Pow2(t)
    ensures m * Pow2(j) <= q * Pow2(e)
  {
    Pow2Add(t + 1, j);
    Pow2Add(t, e);
    Pow2Monotone(t + 1 + j, t + e);
    MultipleAtMost(m, Pow2(t + 1), Pow2(j));
    MultipleAtMost(Pow2(t), q, Pow2(e));
  }

  lemma BelowIsFarther(n: nat, unit: nat, x: nat)
    requires unit > 0 && x <= n / unit * unit
    ensures Distance(RoundTo(n, unit), n) <= Distance(x, n)
  {
    RoundToNearest(n, unit, n / unit);
    assert n == n / unit * unit + n % unit;
  }

  lemma {:induction false} Pow2Monotone(a: nat, b: nat)
    requires a <= b
    ensures Pow2(a) <= Pow2(b)
    decreases b
  {
    if a < b {
      Pow2Monotone(a, b - 1);
    }
  }

  // The result is a 53-bit multiple of a power of two, the even one of two equally near.
  lemma Round53Representable(n: nat) returns (m: nat, j: nat)
    ensures j == ExtraBits(n) && Round53(n) == m * Pow2(j) && m <= Pow2(53)
    ensures 2 * (n % Pow2(j)) == Pow2(j) ==> m % 2 == 0
  {
    j := ExtraBits(n);
    ExtraBitsQuotient(n);
    m := RoundToMultiple(n, Pow2(j));
  }

  lemma {:induction false} ExtraBitsAtLeast(n: nat, k: nat)
    requires n >= Pow2(52 + k)
    ensures ExtraBits(n) >= k
  {
    if k > 0 {
      Pow2Monotone(53, 52 + k);
      ExtraBitsAtLeast(n / 2, k - 1);
    }
  }

  // A number of at least 52 + k bits loses its k low bits to the rounding.
  lemma LowBitsLost(n: nat, k: nat)
    requires k <= ExtraBits(n)
    ensures Round53(n) % Pow2(k) == 0
  {
    var e := ExtraBits(n);
    var m := RoundToMultiple(n, Pow2(e));
    Pow2Add(e - k, k);
    MulAssoc(m, Pow2(e - k), Pow2(k));
    DivModUnique(Round53(n), Pow2(k), m * Pow2(e - k), 0);
  }

  // Rounding keeps a number's residue modulo 1024 exactly when the bits it drops, up to ten of them,
  // were zero.
  lemma RoundingKeepsResidue(n: nat)
    ensures Round53(n) % 1024 == n % 1024 <==> n % Pow2(Min(10, ExtraBits(n))) == 0
  {
    var e := ExtraBits(n);
    Pow2Values();
    if e >= 10 {
      LowBitsLost(n, 10);
    } else {
      Pow2Monotone(e, 9);
      assert 2 * Pow2(9) == Pow2(10);
      NearbyResidue(n, Pow2(e));
    }
  }

  lemma NearbyResidue(n: nat, unit: nat)
    requires 1 <= unit <= 512
    ensures RoundTo(n, unit) % 1024 == n % 1024 <==> n % unit == 0
  {
    Congruent(RoundTo(n, unit), n);
  }

  lemma Congruent(x: int, y: int)
    requires -1024 < x - y < 1024
    ensures x % 1024 == y % 1024 <==> x == y
  {
  }
}
