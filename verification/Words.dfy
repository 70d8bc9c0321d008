// Fixed-width unsigned arithmetic as the C code uses it: 64-bit words, powers of two, and the
// bitwise operators defined bit by bit over the natural numbers.
module Words {
  const WORD: nat := 0x1_0000_0000_0000_0000
  const WORD_MAX: nat := WORD - 1

  newtype Byte = b: int | 0 <= b < 256

  function Pow2(k: nat): (r: nat)
    ensures r >= 1
  {
    if k == 0 then 1 else 2 * Pow2(k - 1)
  }

  ghost predicate IsPow2(n: nat) {
    exists k: nat :: Pow2(k) == n
  }

  // C's `x & y`.
  function BitAnd(x: nat, y: nat): nat {
    if x == 0 || y == 0 then 0 else (if x % 2 == 1 && y % 2 == 1 then 1 else 0) + 2 * BitAnd(x / 2, y / 2)
  }

  // C's `x ^ y`.
  function BitXor(x: nat, y: nat): nat
    decreases x + y
  {
    if x == 0 && y == 0 then 0 else (x % 2 + y % 2) % 2 + 2 * BitXor(x / 2, y / 2)
  }

  // C's `~x` on a 64-bit word.
  function BitNot(x: nat): nat
    requires x < WORD
  {
    WORD_MAX - x
  }

  lemma DivModUnique(x: int, m: int, q: int, r: int)
    requires m > 0 && 0 <= r < m && x == q * m + r
    ensures x / m == q && x % m == r
  {
    var d := x / m - q;
    assert x % m - r == -d * m;
    if d >= 1 {
      MulAtLeast(d, m);
    } else if d <= -1 {
      MulAtLeast(-d, m);
    }
  }

  lemma MulAtLeast(d: int, m: int)
    requires d >= 1 && m > 0
    ensures d * m >= m
  {
  }

  lemma MulMonotone(a: nat, b: nat, c: nat)
    requires a <= b
    ensures a * c <= b * c
  {
    assert b * c == a * c + (b - a) * c;
  }

  lemma ModHalf(x: nat, m: nat)
    requires m > 0
    ensures x % (2 * m) == 2 * ((x / 2) % m) + x % 2
  {
    var q, r := (x / 2) / m, (x / 2) % m;
    assert x == q * (2 * m) + (2 * r + x % 2);
    DivModUnique(x, 2 * m, q, 2 * r + x % 2);
  }

  // The low `k` bits of `x`.
  function LowBits(x: nat, k: nat): nat {
    if k == 0 then 0 else x % 2 + 2 * LowBits(x / 2, k - 1)
  }

  lemma {:induction false} LowBitsIsMod(x: nat, k: nat)
    ensures LowBits(x, k) == x % Pow2(k)
    decreases k
  {
    if k == 0 {
    } else {
      LowBitsIsMod(x / 2, k - 1);
      ModHalf(x, Pow2(k - 1));
    }
  }

  lemma {:induction false} AndLowBits(x: nat, k: nat)
    ensures BitAnd(x, Pow2(k) - 1) == LowBits(x, k)
    decreases k
  {
    if k == 0 {
    } else {
      AndLowBits(x / 2, k - 1);
      AndOdd(x, Pow2(k - 1) - 1);
    }
  }

  // Masking with `m - 1` is reduction modulo a power of two `m`.
  lemma AndLowMask(x: nat, k: nat)
    ensures BitAnd(x, Pow2(k) - 1) == x % Pow2(k)
  {
    AndLowBits(x, k);
    LowBitsIsMod(x, k);
  }

  lemma AndOdd(x: nat, y: nat)
    ensures BitAnd(x, 2 * y + 1) == x % 2 + 2 * BitAnd(x / 2, y)
  {
    assert (2 * y + 1) % 2 == 1 && (2 * y + 1) / 2 == y;
  }

  lemma AndMask(x: nat, m: nat)
    requires m > 0 && IsPow2(m)
    ensures BitAnd(x, m - 1) == x % m
  {
    var k: nat :| Pow2(k) == m;
    AndLowMask(x, k);
  }

  // `x` with its low `k` bits cleared.
  function ClearLow(x: nat, k: nat): nat {
    if k == 0 then x else 2 * ClearLow(x / 2, k - 1)
  }

  lemma {:induction false} ClearLowRoundsDown(x: nat, k: nat)
    ensures ClearLow(x, k) == x - x % Pow2(k)
    decreases k
  {
    if k == 0 {
    } else {
      ClearLowRoundsDown(x / 2, k - 1);
      HalveDown(x, Pow2(k - 1));
    }
  }

  // The mask of the bits from `k` up to `n`.
  function HighMask(k: nat, n: nat): nat
    requires k <= n
  {
    if k == 0 then Pow2(n) - 1 else 2 * HighMask(k - 1, n - 1)
  }

  lemma {:induction false} HighMaskIsDifference(k: nat, n: nat)
    requires k <= n
    ensures HighMask(k, n) == Pow2(n) - Pow2(k)
    decreases k
  {
    if k == 0 {
    } else {
      HighMaskIsDifference(k - 1, n - 1);
    }
  }

  lemma {:induction false} AndClears(x: nat, k: nat, n: nat)
    requires k <= n && x < Pow2(n)
    ensures BitAnd(x, HighMask(k, n)) == ClearLow(x, k)
    decreases k
  {
    if k == 0 {
      AndLowMask(x, n);
      SmallMod(x, Pow2(n));
    } else {
      AndClears(x / 2, k - 1, n - 1);
      AndEven(x, HighMask(k - 1, n - 1));
    }
  }

  // Clearing the low `k` bits of an `n`-bit number rounds it down to a multiple of 2^k.
  lemma AndHighMask(x: nat, k: nat, n: nat)
    requires k <= n && x < Pow2(n)
    ensures Pow2(k) <= Pow2(n)
    ensures BitAnd(x, Pow2(n) - Pow2(k)) == x - x % Pow2(k)
  {
    Pow2Monotone(k, n);
    HighMaskIsDifference(k, n);
    AndClears(x, k, n);
    ClearLowRoundsDown(x, k);
  }

  lemma HalveDown(x: nat, m: nat)
    requires m > 0
    ensures 2 * (x / 2 - (x / 2) % m) == x - x % (2 * m)
  {
    ModHalf(x, m);
  }

  lemma AndEven(x: nat, y: nat)
    ensures BitAnd(x, 2 * y) == 2 * BitAnd(x / 2, y)
  {
    assert (2 * y) % 2 == 0 && (2 * y) / 2 == y;
  }

  lemma SmallMod(x: nat, m: nat)
    requires x < m
    ensures x % m == x
  {
  }

  lemma {:induction false} Pow2Monotone(k: nat, n: nat)
    requires k <= n
    ensures Pow2(k) <= Pow2(n)
    decreases n
  {
    if k == n {
    } else {
      Pow2Monotone(k, n - 1);
    }
  }

  lemma Pow2Word()
    ensures Pow2(63) == WORD / 2 && Pow2(64) == WORD && IsPow2(WORD)
  {
    assert Pow2(8) == 256;
    assert Pow2(16) == 0x1_0000;
    assert Pow2(24) == 0x100_0000;
    assert Pow2(32) == 0x1_0000_0000;
    assert Pow2(40) == 0x100_0000_0000;
    assert Pow2(48) == 0x1_0000_0000_0000;
    assert Pow2(56) == 0x100_0000_0000_0000;
  }

  // The lowest bit and the remaining bits of an exclusive or.
  lemma XorBits(x: nat, y: nat)
    ensures BitXor(x, y) % 2 == (x % 2 + y % 2) % 2
    ensures BitXor(x, y) / 2 == BitXor(x / 2, y / 2)
  {
  }

  lemma {:induction false} XorZero(x: nat)
    ensures BitXor(x, 0) == x
  {
    if x == 0 {
    } else {
      XorZero(x / 2);
    }
  }

  // `r` is the exclusive or of `x` and the `k`-bit number `y`, checked bit by bit.
  predicate XorIs(x: nat, y: nat, r: nat, k: nat) {
    if k == 0 then y == 0 && r == x
    else r % 2 == (x % 2 + y % 2) % 2 && XorIs(x / 2, y / 2, r / 2, k - 1)
  }

  lemma {:induction false} XorCheck(x: nat, y: nat, r: nat, k: nat)
    requires XorIs(x, y, r, k)
    ensures BitXor(x, y) == r
    decreases k
  {
    if k == 0 {
      XorZero(x);
    } else {
      XorBits(x, y);
      XorCheck(x / 2, y / 2, r / 2, k - 1);
      HalvesEqual(BitXor(x, y), r);
    }
  }

  lemma {:induction false} XorCancel(x: nat, y: nat)
    ensures BitXor(BitXor(x, y), y) == x
    decreases x + y
  {
    if x == 0 && y == 0 {
    } else {
      var z := BitXor(x, y);
      XorBits(x, y);
      XorBits(z, y);
      XorCancel(x / 2, y / 2);
      ParityCancel(x % 2, y % 2);
      HalvesEqual(BitXor(z, y), x);
    }
  }

  lemma ParityCancel(a: nat, b: nat)
    requires a < 2 && b < 2
    ensures ((a + b) % 2 + b) % 2 == a
  {
  }

  lemma HalvesEqual(a: nat, b: nat)
    requires a % 2 == b % 2 && a / 2 == b / 2
    ensures a == b
  {
  }

  lemma {:induction false} XorComm(x: nat, y: nat)
    ensures BitXor(x, y) == BitXor(y, x)
    decreases x + y
  {
    if x == 0 && y == 0 {
    } else {
      XorComm(x / 2, y / 2);
    }
  }

  lemma {:induction false} XorBound(x: nat, y: nat, k: nat)
    requires x < Pow2(k) && y < Pow2(k)
    ensures BitXor(x, y) < Pow2(k)
    decreases k
  {
    if x == 0 && y == 0 {
    } else {
      XorBound(x / 2, y / 2, k - 1);
    }
  }

  // Powers of two divide one another: the smaller divides the larger.
  lemma {:induction false} Pow2Divides(k: nat, n: nat) returns (q: nat)
    requires k <= n
    ensures Pow2(n) == q * Pow2(k) && q >= 1
  {
    if k == n {
      q := 1;
    } else {
      var r := Pow2Divides(k, n - 1);
      q := 2 * r;
    }
  }

  // ---- size computations -----------------------------------------------------------------------

  // Comparing with a quotient decides a comparison with a product.
  lemma QuotientTest(a: nat, b: nat, x: nat)
    requires b > 0
    ensures a > x / b <==> a * b > x
  {
    var q, r := x / b, x % b;
    assert x == q * b + r;
    if a > q {
      MulMonotone(q + 1, a, b);
    } else {
      MulMonotone(a, q, b);
    }
  }

  // The C idiom for an overflow-free multiplication test.
  lemma OverflowExact(a: nat, b: nat)
    requires b > 0
    ensures a > WORD_MAX / b <==> a * b >= WORD
  {
    QuotientTest(a, b, WORD_MAX);
  }

  // The least power of two that is at least `least` and `n`, saturating at 2^63.
  ghost predicate IsRoundedCapacity(least: nat, n: nat, cap: nat) {
    && least <= cap <= WORD / 2 && IsPow2(cap)
    && (n <= WORD / 2 ==> n <= cap && forall k: nat :: least <= Pow2(k) && n <= Pow2(k) ==> cap <= Pow2(k))
    && (n > WORD / 2 ==> cap == WORD / 2)
  }

  // The capacity doubling loop shared by the ring buffer (from 2^0) and the hash map (from 2^3).
  method NextPow2AtLeast(j0: nat, n: nat) returns (cap: nat)
    requires j0 <= 63 && n < WORD
    ensures IsRoundedCapacity(Pow2(j0), n, cap)
  {
    cap := Pow2(j0);
    ghost var j := j0;
    while cap < n
      invariant j0 <= j <= 63 && cap == Pow2(j)
      invariant TooSmall(j0, j, n)
      decreases 64 - j
    {
      if cap > WORD_MAX / 2 {
        RoundedAt(j0, n, j);
        return;
      }
      CanDouble(j);
      cap := cap * 2;
      j := j + 1;
    }
    RoundedAt(j0, n, j);
  }

  // The powers of two from 2^j0 up to 2^j, the latter excluded, are below `n`.
  ghost predicate TooSmall(j0: nat, j: nat, n: nat) {
    forall k: nat :: j0 <= k < j ==> Pow2(k) < n
  }

  lemma RoundedAt(j0: nat, n: nat, j: nat)
    requires j0 <= j <= 63 && n < WORD && TooSmall(j0, j, n)
    requires n <= Pow2(j) || Pow2(j) > WORD_MAX / 2
    ensures IsRoundedCapacity(Pow2(j0), n, Pow2(j))
  {
    Pow2Monotone(j0, j);
    Pow2Top(j);
    LeastPow2(j0, n, j);
  }

  lemma Pow2Top(j: nat)
    requires j <= 63
    ensures Pow2(j) <= WORD / 2
  {
    Pow2Word();
    Pow2Monotone(j, 63);
  }

  lemma CanDouble(j: nat)
    requires j <= 63 && Pow2(j) <= WORD_MAX / 2
    ensures j < 63 && Pow2(j + 1) == 2 * Pow2(j) <= WORD / 2
  {
    Pow2Word();
    if j < 63 {
      Pow2Monotone(j + 1, 63);
    }
  }

  lemma LeastPow2(j0: nat, n: nat, j: nat)
    requires j0 <= j && TooSmall(j0, j, n)
    ensures forall k: nat :: Pow2(j0) <= Pow2(k) && n <= Pow2(k) ==> Pow2(j) <= Pow2(k)
  {
    forall k: nat | Pow2(j0) <= Pow2(k) && n <= Pow2(k)
      ensures Pow2(j) <= Pow2(k)
    {
      if k < j0 {
        Pow2Strict(k, j0);
      } else {
        Pow2Monotone(j, k);
      }
    }
  }

  lemma Pow2Strict(k: nat, n: nat)
    requires k < n
    ensures Pow2(k) < Pow2(n)
  {
    Pow2Monotone(k + 1, n);
  }

  // ---- rounding up, as the pool allocator and the hash map do it ------------------------------------

  function RoundUp(value: nat, multiple: nat): nat
    requires value < WORD && 0 < multiple < WORD
  {
    BitAnd((value + (multiple - 1)) % WORD, BitNot(multiple - 1))
  }

  lemma RoundDown(x: nat, k: nat)
    requires x < WORD && k < 64
    ensures 0 < Pow2(k) < WORD && BitAnd(x, BitNot(Pow2(k) - 1)) == x - x % Pow2(k)
  {
    Pow2Word();
    Pow2Strict(k, 64);
    AndHighMask(x, k, 64);
  }

  // The least multiple of `m` that is at least `value`, in unbounded arithmetic.
  function Rounded(value: nat, m: nat): (r: nat)
    requires m > 0
  {
    (value + (m - 1)) / m * m
  }

  lemma RoundedIsLeast(value: nat, m: nat)
    requires m > 0
    ensures value <= Rounded(value, m) < value + m && Rounded(value, m) % m == 0
  {
    var x := value + (m - 1);
    assert x == x / m * m + x % m;
    DivModUnique(Rounded(value, m), m, x / m, 0);
  }

  // The masking trick rounds up exactly; when the sum wraps, the result is zero.
  lemma RoundUpExact(value: nat, k: nat)
    requires value < WORD && k < 64
    ensures 0 < Pow2(k) < WORD
    ensures RoundUp(value, Pow2(k)) == if value + (Pow2(k) - 1) < WORD then Rounded(value, Pow2(k)) else 0
  {
    RoundDown(0, k);
    RoundDown((value + (Pow2(k) - 1)) % WORD, k);
    WrappedSum(value, Pow2(k));
  }

  lemma WrappedSum(value: nat, m: nat)
    requires value < WORD && 0 < m < WORD
    ensures var x := (value + (m - 1)) % WORD;
            x - x % m == if value + (m - 1) < WORD then Rounded(value, m) else 0
  {
    var sum := value + (m - 1);
    if sum < WORD {
      SmallMod(sum, WORD);
    } else {
      DivModUnique(sum, WORD, 1, sum - WORD);
      SmallMod(sum - WORD, m);
    }
  }
}
