/** The server's classification of a requested integer: `is_square` and
    `is_fibonacci` (server/main.c).  The C code takes the floor of a `double`
    square root of a `long`; here the perfect-square test is exact.  The two
    agree on ExactRange. */
module Fibonacci {

  /** k * k, defined by odd-number sums so that the verifier only meets the
      product where a proof asks for it (SqIsProduct). */
  function Sq(k: int): nat
    decreases if k < 0 then 1 - 2 * k else 2 * k
  {
    if k < 0 then Sq(-k) else if k == 0 then 0 else Sq(k - 1) + 2 * k - 1
  }

  lemma {:induction false} SqIsProduct(k: int)
    ensures Sq(k) == k * k
    decreases if k < 0 then 1 - 2 * k else 2 * k
  {
    if k < 0 {
      SqIsProduct(-k);
    } else if k > 0 {
      SqIsProduct(k - 1);
    }
  }

  ghost predicate PerfectSquare(m: int) {
    exists k :: Sq(k) == m
  }

  lemma SqStep(a: int)
    ensures Sq(a + 1) == Sq(a) + 2 * a + 1
  {
    SqIsProduct(a);
    SqIsProduct(a + 1);
  }

  lemma {:induction false} SqDouble(a: int)
    ensures Sq(2 * a) == 4 * Sq(a)
    decreases if a < 0 then 1 - a else a
  {
    if a < 0 {
      SqDouble(-a);
    } else if a > 0 {
      SqDouble(a - 1);
      assert Sq(2 * a) == Sq(2 * a - 1) + 4 * a - 1;
      assert Sq(2 * a - 1) == Sq(2 * (a - 1)) + 4 * a - 3;
    }
  }

  lemma SqNeg(a: int)
    ensures Sq(-a) == Sq(a)
  {
  }

  lemma {:induction false} SquareMonotone(a: nat, b: nat)
    requires a <= b
    ensures Sq(a) <= Sq(b)
    decreases b - a
  {
    if a < b {
      SquareMonotone(a, b - 1);
      SqStep(b - 1);
    }
  }

  /** The integer square root, `floor(sqrt(m))` computed exactly, from the
      root of m / 4. */
  function Isqrt(m: nat): nat
    decreases m
  {
    if m < 4 then
      (if m == 0 then 0 else 1)
    else
      var h := 2 * Isqrt(m / 4);
      if Sq(h + 1) <= m then h + 1 else h
  }

  lemma {:induction false} IsqrtBounds(m: nat)
    ensures Sq(Isqrt(m)) <= m < Sq(Isqrt(m) + 1)
    decreases m
  {
    if m >= 4 {
      var s := Isqrt(m / 4);
      IsqrtBounds(m / 4);
      var h := 2 * s;
      SqDouble(s);
      SqDouble(s + 1);
      SqStep(h);
      SqStep(h + 1);
    } else {
      SqIsProduct(2);
    }
  }

  /** A square at least r^2 and below (r + 1)^2 is r^2. */
  lemma SquareRootUnique(m: nat, r: nat, k: int)
    requires Sq(r) <= m < Sq(r + 1) && Sq(k) == m
    ensures k == r || k == -(r as int)
  {
    var a: nat := if k < 0 then -k else k;
    SqNeg(k);
    if a < r {
      SquareMonotone(a + 1, r);
      SqStep(a);
    } else if a > r {
      SquareMonotone(r + 1, a);
    }
  }

  /** An integer strictly between two consecutive squares is not a square. */
  lemma NotSquareBetween(m: int, r: nat)
    requires Sq(r) < m < Sq(r + 1)
    ensures !PerfectSquare(m)
  {
    if k :| Sq(k) == m {
      SquareRootUnique(m, r, k);
      SqNeg(k);
    }
  }

  /** `is_square`: the integer square root squared gives the argument back.
      A negative argument is never a square. */
  function IsSquare(m: int): bool {
    m >= 0 && Sq(Isqrt(m)) == m
  }

  lemma IsSquareIsPerfect(m: int)
    ensures IsSquare(m) <==> PerfectSquare(m)
  {
    if m < 0 {
      if k :| Sq(k) == m { }
    } else {
      var r := Isqrt(m);
      IsqrtBounds(m);
      if k :| Sq(k) == m { SquareRootUnique(m, r, k); }
    }
  }

  /** `is_fibonacci`: n is a Fibonacci number iff 5 n^2 + 4 or 5 n^2 - 4 is a
      perfect square. */
  function IsFibonacci(n: int): bool {
    IsSquare(5 * Sq(n) + 4) || IsSquare(5 * Sq(n) - 4)
  }

  lemma IsFibonacciMeans(n: int)
    ensures IsFibonacci(n) <==> PerfectSquare(5 * Sq(n) + 4) || PerfectSquare(5 * Sq(n) - 4)
  {
    var t := 5 * Sq(n);
    assert IsFibonacci(n) == (IsSquare(t + 4) || IsSquare(t - 4));
    IsSquareIsPerfect(t + 4);
    IsSquareIsPerfect(t - 4);
  }

  /** The classification only depends on n^2. */
  lemma IsFibonacciEven(n: int)
    ensures IsFibonacci(-n) == IsFibonacci(n)
  {
    SqNeg(n);
  }

  /** The arguments on which the C `is_fibonacci` computes IsFibonacci:
      5 n^2 + 4 below 2^53.  There `5 * n * n` does not overflow `long`,
      the arguments of `sqrt` convert to `double` exactly, and the square
      root of a perfect square is exact; a non-square is never taken for
      one, whatever the rounding, since no integer squares to it.  (For
      n == 0 the `||` stops before `is_square(-4)`.) */
  predicate ExactRange(n: int) {
    5 * Sq(n) + 4 < 0x20_0000_0000_0000
  }

  /** Every number the client asks about, 0 .. 999999, is in that range. */
  lemma ClientNumbersExact(n: int)
    requires 0 <= n < 1000000
    ensures ExactRange(n)
  {
    SquareMonotone(n, 999999);
    SqIsProduct(999999);
  }

  // ---------------------------------------------------------------------
  // Every Fibonacci number passes the test.

  function Fib(k: nat): nat {
    if k < 2 then k else Fib(k - 1) + Fib(k - 2)
  }

  function Lucas(k: nat): int {
    if k == 0 then 2 else if k == 1 then 1 else Lucas(k - 1) + Lucas(k - 2)
  }

  /** One step of the Fibonacci and Lucas sequences, from the previous pair. */
  lemma {:induction false} LucasStep(k: nat)
    ensures 2 * Fib(k + 1) == Lucas(k) + Fib(k)
    ensures 2 * Lucas(k + 1) == Lucas(k) + 5 * Fib(k)
  {
    if k >= 2 {
      LucasStep(k - 1);
      LucasStep(k - 2);
    }
  }

  lemma CassiniProducts(l: int, f: int)
    ensures (l + 5 * f) * (l + 5 * f) - 5 * ((l + f) * (l + f)) == -4 * (l * l - 5 * (f * f))
  {
  }

  lemma CassiniStep(l: int, f: int)
    ensures Sq(l + 5 * f) - 5 * Sq(l + f) == -4 * (Sq(l) - 5 * Sq(f))
  {
    CassiniProducts(l, f);
    SqIsProduct(l + 5 * f);
    SqIsProduct(l + f);
    SqIsProduct(l);
    SqIsProduct(f);
  }

  /** L^2 - 5 F^2 changes sign from one index to the next. */
  lemma LucasFlip(k: nat)
    ensures Sq(Lucas(k + 1)) - 5 * Sq(Fib(k + 1)) == -(Sq(Lucas(k)) - 5 * Sq(Fib(k)))
  {
    LucasStep(k);
    var l, f := Lucas(k), Fib(k);
    var l', f' := Lucas(k + 1), Fib(k + 1);
    assert 2 * l' == l + 5 * f && 2 * f' == l + f;
    SqDouble(l');
    SqDouble(f');
    assert Sq(l + 5 * f) == 4 * Sq(l') && Sq(l + f) == 4 * Sq(f');
    CassiniStep(l, f);
  }

  /** 4 (-1)^k. */
  function SignedFour(k: nat): int {
    if k % 2 == 0 then 4 else -4
  }

  lemma SignedFourFlips(k: nat)
    requires k > 0
    ensures SignedFour(k) == -SignedFour(k - 1)
  {
  }

  /** L(k)^2 - 5 F(k)^2 == 4 (-1)^k. */
  lemma {:induction false} LucasIdentity(k: nat)
    ensures Sq(Lucas(k)) == 5 * Sq(Fib(k)) + SignedFour(k)
  {
    if k > 0 {
      LucasIdentity(k - 1);
      LucasFlip(k - 1);
      SignedFourFlips(k);
    } else {
      SqIsProduct(2);
    }
  }

  /** `is_fibonacci` holds of every Fibonacci number. */
  lemma FibonacciNumbersPass(k: nat)
    ensures IsFibonacci(Fib(k))
  {
    LucasIdentity(k);
    IsFibonacciMeans(Fib(k));
    assert PerfectSquare(Sq(Lucas(k)));
  }

  /** The sample answers of the protocol description: numbers that are
      Fibonacci numbers ... */
  lemma SampleFibonacci()
    ensures IsFibonacci(0) && IsFibonacci(1) && IsFibonacci(2) && IsFibonacci(3)
    ensures IsFibonacci(5) && IsFibonacci(8) && IsFibonacci(13)
  {
    assert Fib(2) == 1 && Fib(3) == 2 && Fib(4) == 3 && Fib(5) == 5;
    assert Fib(6) == 8 && Fib(7) == 13;
    FibonacciNumbersPass(0);
    FibonacciNumbersPass(1);
    FibonacciNumbersPass(3);
    FibonacciNumbersPass(4);
    FibonacciNumbersPass(5);
    FibonacciNumbersPass(6);
    FibonacciNumbersPass(7);
  }

  /** ... and numbers that are not. */
  lemma SampleNonFibonacci()
    ensures !IsFibonacci(4) && !IsFibonacci(6) && !IsFibonacci(7) && !IsFibonacci(14)
  {
    SqIsProduct(4); SqIsProduct(6); SqIsProduct(7); SqIsProduct(14);
    SqIsProduct(8); SqIsProduct(9); SqIsProduct(10); SqIsProduct(13);
    SqIsProduct(15); SqIsProduct(16); SqIsProduct(31); SqIsProduct(32);
    NotSquareBetween(84, 9);
    NotSquareBetween(76, 8);
    NotSquareBetween(184, 13);
    NotSquareBetween(176, 13);
    NotSquareBetween(249, 15);
    NotSquareBetween(241, 15);
    NotSquareBetween(984, 31);
    NotSquareBetween(976, 31);
    IsFibonacciMeans(4); IsFibonacciMeans(6); IsFibonacciMeans(7); IsFibonacciMeans(14);
  }
}
