/** Integer facts behind the testing bound of `test_cong`: Bezout's
    identity, Euclid's lemma, prime supports, products over them and the
    Dedekind psi function `psi(M) = M * prod((l + 1) / l for l | M)`. */
module Arith {
  import opened Base

  /** Strictly increasing. */
  predicate Increasing(s: seq<nat>) {
    forall i, j :: 0 <= i < j < |s| ==> s[i] < s[j]
  }

  /** An increasing list has no repeats. */
  lemma IncreasingNoDups(s: seq<nat>)
    requires Increasing(s)
    ensures NoDups(s)
  {
  }

  /** `prod(s, 1)`. */
  function Prod(s: seq<nat>): nat {
    if s == [] then 1 else Prod(s[..|s| - 1]) * s[|s| - 1]
  }

  /** `prod(l + 1 for l in s)`. */
  function ProdSucc(s: seq<nat>): nat {
    if s == [] then 1 else ProdSucc(s[..|s| - 1]) * (s[|s| - 1] + 1)
  }

  /** A product of positive factors is positive, and raising every factor by
      one does not make it smaller. */
  lemma {:induction false} ProdPositive(s: seq<nat>)
    requires forall i :: 0 <= i < |s| ==> s[i] >= 1
    ensures Prod(s) >= 1
    ensures ProdSucc(s) >= Prod(s)
  {
    if s != [] {
      var init := s[..|s| - 1];
      ProdPositive(init);
      MulMono(Prod(init), ProdSucc(init), s[|s| - 1], s[|s| - 1] + 1);
    }
  }

  lemma MulMono(a: nat, a': nat, b: nat, b': nat)
    requires 1 <= a <= a' && 1 <= b <= b'
    ensures 1 <= a * b <= a' * b'
  {
    assert a * b <= a' * b;
    assert a' * b <= a' * b';
    MulAtLeast(a, b);
  }

  lemma {:induction false} ProdAppend(a: seq<nat>, b: seq<nat>)
    ensures Prod(a + b) == Prod(a) * Prod(b)
    decreases |b|
  {
    if b == [] {
      assert a + b == a;
    } else {
      var b' := b[..|b| - 1];
      assert (a + b)[..|a + b| - 1] == a + b';
      ProdAppend(a, b');
      MulAssoc(Prod(a), Prod(b'), b[|b| - 1]);
    }
  }

  lemma MulComm(x: int, y: int)
    ensures x * y == y * x
  {
  }

  lemma MulAssoc(x: int, y: int, z: int)
    ensures (x * y) * z == x * (y * z)
  {
  }

  /** Bezout's identity for Euclid's gcd. */
  lemma {:induction false} Bezout(a: nat, b: nat) returns (x: int, y: int)
    ensures x * a + y * b == Gcd(a, b)
    decreases b
  {
    if b == 0 {
      x, y := 1, 0;
    } else {
      var x', y' := Bezout(b, a % b);
      BezoutStep(a, b, a / b, a % b, x', y');
      x, y := y', x' - y' * (a / b);
    }
  }

  lemma BezoutStep(a: int, b: int, q: int, r: int, x: int, y: int)
    requires a == q * b + r
    ensures y * a + (x - y * q) * b == x * b + y * r
  {
    calc {
      y * a + (x - y * q) * b;
      == y * (q * b + r) + x * b - (y * q) * b;
      == y * (q * b) + y * r + x * b - (y * q) * b;
      == { MulAssoc(y, q, b); }
      x * b + y * r;
    }
  }

  /** A positive divisor of a positive number is at most that number. */
  lemma DivisorAtMost(d: nat, n: nat)
    requires d >= 1 && n >= 1 && n % d == 0
    ensures d <= n
  {
    var q := n / d;
    assert n == q * d;
    if q > 0 {
      MulAtLeast(q, d);
    }
  }

  /** Euclid's lemma: a prime dividing a product divides a factor. */
  lemma Euclid(q: nat, a: nat, b: nat)
    requires IsPrime(q) && (a * b) % q == 0 && a % q != 0
    ensures b % q == 0
  {
    var x, y := Bezout(q, a);
    GcdDivides(q, a);
    var g := Gcd(q, a);
    DivisorAtMost(g, q);
    assert g == 1 || g == q;
    assert g == 1;
    var k := (a * b) / q;
    assert a * b == k * q;
    assert b == (x * b + y * k) * q by {
      calc {
        b;
        == (x * q + y * a) * b;
        == x * q * b + y * (a * b);
        == x * q * b + y * (k * q);
        == (x * b + y * k) * q;
      }
    }
    DividesMultiple(b, q, x * b + y * k);
  }

  /** A prime dividing another prime is that prime. */
  lemma PrimeDividesPrime(q: nat, l: nat)
    requires IsPrime(q) && IsPrime(l) && l % q == 0
    ensures q == l
  {
    DivisorAtMost(q, l);
  }

  /** A prime missing from a list of primes does not divide their product. */
  lemma {:induction false} PrimeNotDividingProd(q: nat, s: seq<nat>)
    requires IsPrime(q) && q !in s
    requires forall i :: 0 <= i < |s| ==> IsPrime(s[i])
    ensures Prod(s) % q != 0
  {
    if s == [] {
    } else {
      var init, l := s[..|s| - 1], s[|s| - 1];
      PrimeNotDividingProd(q, init);
      if Prod(s) % q == 0 {
        Euclid(q, Prod(init), l);
        PrimeDividesPrime(q, l);
        assert false;
      }
    }
  }

  /** An increasing list of primes that all divide `n` has a product that
      divides `n`. */
  lemma {:induction false} ProdOfPrimeDivisors(n: Pos, s: seq<nat>)
    requires Increasing(s)
    requires forall i :: 0 <= i < |s| ==> IsPrime(s[i]) && n % s[i] == 0
    ensures Prod(s) >= 1 && n % Prod(s) == 0
  {
    if s != [] {
      var init, l := s[..|s| - 1], s[|s| - 1];
      ProdOfPrimeDivisors(n, init);
      var c := n / Prod(init);
      ExactQuotient(n, Prod(init));
      assert n == c * Prod(init);
      PrimeNotDividingProd(l, init);
      var P := Prod(init);
      MulComm(c, P);
      assert (P * c) % l == 0;
      Euclid(l, P, c);
      var c' := c / l;
      ExactQuotient(c, l);
      MulRearrange(c', l, P);
      MulAssoc(c', P, l);
      assert n == c' * (P * l);
      MulAtLeast(Prod(init), l);
      DividesMultiple(n, Prod(s), c');
    }
  }

  /** The prime divisors of `n` below `bound`, in increasing order. */
  function PrimeDivisorsBelow(n: Pos, bound: nat): (r: seq<nat>)
    ensures forall l :: l in r <==> l < bound && IsPrime(l) && n % l == 0
    ensures Increasing(r)
    ensures forall i :: 0 <= i < |r| ==> IsPrime(r[i]) && n % r[i] == 0
  {
    if bound == 0 then []
    else
      var r := PrimeDivisorsBelow(n, bound - 1);
      if IsPrime(bound - 1) && n % (bound - 1) == 0 then r + [bound - 1] else r
  }

  /** `n.support()`: the primes dividing `n`, in increasing order. */
  function Support(n: Pos): (r: seq<nat>)
    ensures forall l :: l in r <==> IsPrime(l) && n % l == 0
    ensures Increasing(r)
    ensures forall i :: 0 <= i < |r| ==> IsPrime(r[i]) && n % r[i] == 0
  {
    forall l | IsPrime(l) && n % l == 0
      ensures l < n + 1
    {
      DivisorAtMost(l, n);
    }
    PrimeDivisorsBelow(n, n + 1)
  }

  /** `mu = M * prod((l + 1) / l for l in M.support())`, the Dedekind psi
      function of `M`, as an exact integer. */
  function Psi(M: Pos): int {
    var S := Support(M);
    ProdPositive(S);
    Quot(M * ProdSucc(S), Prod(S))
  }

  function Quot(a: int, b: Pos): int {
    a / b
  }

  /** An exact quotient of positive numbers is positive. */
  lemma QuotPositive(n: int, d: Pos)
    requires n >= 1 && n % d == 0
    ensures n / d >= 1
  {
    ExactQuotient(n, d);
    if n / d <= 0 {
      NonPositiveTimes(n / d, d);
    }
  }

  lemma NonPositiveTimes(q: int, d: Pos)
    requires q <= 0
    ensures q * d <= 0
  {
  }

  lemma MulRearrange(c: int, P: int, Q: int)
    ensures (c * P) * Q == (c * Q) * P
  {
  }

  lemma MulDivCancel(k: nat, P: Pos, d: Pos)
    ensures (k * P) / (d * P) == k / d
  {
    var q, r := k / d, k % d;
    assert k == q * d + r;
    assert k * P == q * (d * P) + r * P;
    assert 0 <= r * P < d * P;
    DivModUnique(k * P, d * P, q, r * P);
  }

  /** Kraus's bound: `mu` is an integer at least `M`, and the source's
      `int(mu / 6)` is `mu` divided by 6 rounded down, which is also the
      floor of the fraction `M * prod(l + 1) / (6 * prod(l))`. */
  lemma PsiFacts(M: Pos)
    ensures Prod(Support(M)) >= 1
    ensures (M * ProdSucc(Support(M))) % Prod(Support(M)) == 0
    ensures Psi(M) * Prod(Support(M)) == M * ProdSucc(Support(M))
    ensures Psi(M) >= M
    ensures Psi(M) / 6 == (M * ProdSucc(Support(M))) / (6 * Prod(Support(M)))
  {
    var S := Support(M);
    var P, PS := Prod(S), ProdSucc(S);
    ProdPositive(S);
    ProdOfPrimeDivisors(M, S);
    var c := M / P;
    ExactQuotient(M, P);
    MulRearrange(c, P, PS);
    assert M * PS == (c * PS) * P;
    DividesMultiple(M * PS, P, c * PS);
    DivModUnique(M * PS, P, c * PS, 0);
    assert Psi(M) == c * PS;
    QuotPositive(M, P);
    MulMono(c, c, P, PS);
    assert Psi(M) >= M;
    MulDivCancel(c * PS, P, 6);
  }

  /** `n.valuation(l)`: how many times `l` divides `n`. */
  function Valuation(n: Pos, l: nat): nat
    requires l >= 2
    decreases n
  {
    if n % l != 0 then 0
    else
      QuotPositive(n, l);
      DivisorAtMost(l, n);
      QuotSmaller(n, l);
      1 + Valuation(n / l, l)
  }

  lemma QuotSmaller(n: Pos, l: nat)
    requires l >= 2
    ensures n / l < n
  {
  }

  /** The valuation is the exponent of the largest power of `l` dividing `n`. */
  lemma {:induction false} ValuationPowers(n: Pos, l: nat)
    requires l >= 2
    ensures n % Pow(l, Valuation(n, l)) == 0
    ensures n % Pow(l, Valuation(n, l) + 1) != 0
    decreases n
  {
    if n % l != 0 {
      assert Pow(l, 1) == l;
    } else {
      QuotPositive(n, l);
      QuotSmaller(n, l);
      var m: Pos := n / l;
      ExactQuotient(n, l);
      ValuationPowers(m, l);
      var v := Valuation(m, l);
      ScaleDivides(m, l, Pow(l, v));
      ScaleDivides(m, l, Pow(l, v + 1));
    }
  }

  /** Multiplying by `l` on both sides keeps divisibility exactly. */
  lemma ScaleDivides(m: int, l: Pos, Q: Pos)
    ensures (m * l) % (l * Q) == 0 <==> m % Q == 0
  {
    MulPositive(l, Q);
    if m % Q == 0 {
      ExactQuotient(m, Q);
      var k := m / Q;
      MulRearrange(k, Q, l);
      MulAssoc(k, l, Q);
      DividesMultiple(m * l, l * Q, k);
    }
    if (m * l) % (l * Q) == 0 {
      ExactQuotient(m * l, l * Q);
      var j := (m * l) / (l * Q);
      MulRearrange(j, Q, l);
      MulAssoc(j, l, Q);
      MulCancel(m, j * Q, l);
      DividesMultiple(m, Q, j);
    }
  }

  lemma MulPositive(a: Pos, b: Pos)
    ensures a * b >= 1
  {
    MulAtLeast(a, b);
  }

  lemma MulCancel(x: int, y: int, l: Pos)
    requires x * l == y * l
    ensures x == y
  {
    if x < y {
      MulAtLeast(y - x, l);
    } else if x > y {
      MulAtLeast(x - y, l);
    }
  }

  /** Every common divisor divides the gcd. */
  lemma CommonDivisorDividesGcd(d: Pos, a: nat, b: nat)
    requires a % d == 0 && b % d == 0
    ensures Gcd(a, b) % d == 0
  {
    var x, y := Bezout(a, b);
    ExactQuotient(a, d);
    ExactQuotient(b, d);
    var ka, kb := a / d, b / d;
    MulAssoc(x, ka, d);
    MulAssoc(y, kb, d);
    assert Gcd(a, b) == (x * ka + y * kb) * d;
    DividesMultiple(Gcd(a, b), d, x * ka + y * kb);
  }

  /** `gcd` does not depend on the order of its arguments. */
  lemma GcdSymmetric(a: Pos, b: Pos)
    ensures Gcd(a, b) == Gcd(b, a)
  {
    GcdDivides(a, b);
    GcdDivides(b, a);
    CommonDivisorDividesGcd(Gcd(a, b), b, a);
    CommonDivisorDividesGcd(Gcd(b, a), a, b);
    DivisorAtMost(Gcd(a, b), Gcd(b, a));
    DivisorAtMost(Gcd(b, a), Gcd(a, b));
  }

  /** Neither does `lcm`. */
  lemma LcmSymmetric(a: Pos, b: Pos)
    ensures Lcm(a, b) == Lcm(b, a)
  {
    GcdSymmetric(a, b);
    GcdDivides(a, b);
    var g := Gcd(a, b);
    ExactQuotient(a, g);
    ExactQuotient(b, g);
    MulSwap(a / g, b / g, g);
  }

  /** `lcm(a, b)` is the least common multiple: it divides every positive
      common multiple of `a` and `b`. */
  lemma LcmLeast(a: Pos, b: Pos, m: Pos)
    requires m % a == 0 && m % b == 0
    ensures m % Lcm(a, b) == 0
  {
    GcdDivides(a, b);
    var g := Gcd(a, b);
    var x, y := Bezout(a, b);
    ExactQuotient(a, g);
    ExactQuotient(m, a);
    ExactQuotient(m, b);
    var a', j, k := a / g, m / a, m / b;
    LcmAlgebra(m, g, x, y, a, b, a', j, k);
    assert Lcm(a, b) == a' * b;
    MulCancel(m, (x * k + y * j) * (a' * b), g);
    DividesMultiple(m, a' * b, x * k + y * j);
  }

  /** `m * g` splits over Bezout's identity `g = x * a + y * b`. */
  lemma LcmAlgebra(m: int, g: int, x: int, y: int, a: int, b: int, a': int, j: int, k: int)
    requires x * a + y * b == g && a == a' * g && m == j * a && m == k * b
    ensures m * g == ((x * k + y * j) * (a' * b)) * g
  {
    calc {
      m * g;
      == m * (x * a + y * b);
      == (m * a) * x + (m * b) * y;
      == { assert m * a == (k * b) * a; assert m * b == (j * a) * b; }
         ((k * b) * a) * x + ((j * a) * b) * y;
      == (x * k + y * j) * (a * b);
      == { assert a * b == (a' * g) * b; }
         (x * k + y * j) * ((a' * g) * b);
      == ((x * k + y * j) * (a' * b)) * g;
    }
  }

  /** The gcd of two positive numbers, as a positive number. */
  function GcdPos(a: Pos, b: Pos): (g: Pos)
    ensures a % g == 0 && b % g == 0
  {
    GcdDivides(a, b);
    Gcd(a, b)
  }

  /** A multiple of a multiple of `d` is a multiple of `d`. */
  lemma DividesTimes(a: int, d: Pos, c: int)
    requires a % d == 0
    ensures (a * c) % d == 0
  {
    ExactQuotient(a, d);
    var k := a / d;
    MulRearrange(k, d, c);
    DividesMultiple(a * c, d, k * c);
  }

  /** Divisibility ignores sign. */
  lemma NegDivides(x: int, p: Pos)
    ensures (-x) % p == 0 <==> x % p == 0
  {
    if x % p == 0 {
      ExactQuotient(x, p);
      DividesMultiple(-x, p, -(x / p));
    }
    if (-x) % p == 0 {
      ExactQuotient(-x, p);
      DividesMultiple(x, p, -((-x) / p));
    }
  }

  /** The product of a list does not depend on the order of its two halves. */
  lemma ProdSwapHalves(a: seq<nat>, b: seq<nat>)
    ensures Prod(a + b) == Prod(b + a)
  {
    ProdAppend(a, b);
    ProdAppend(b, a);
    MulComm(Prod(a), Prod(b));
  }
}
