/** Shared vocabulary: labels, optional values, and the integer and sequence
    helpers that the pipeline's Python gets from its built-ins
    (list filtering, set conversion, gcd, primality, powers). */
module Base {

  /** A curve label, as the curve database or `Elabel` spells it. */
  type Label = string

  /** A positive integer (conductors are positive). */
  type Pos = n: int | n >= 1 witness 1

  datatype Option<T> = None | Some(value: T)

  /** The elements of a sequence, as a set. */
  function Elems<T(!new)>(s: seq<T>): (r: set<T>)
    ensures forall x :: x in r <==> x in s
  {
    set x | x in s
  }

  /** No element occurs twice. */
  predicate NoDups<T(==)>(s: seq<T>) {
    forall i, j :: 0 <= i < j < |s| ==> s[i] != s[j]
  }

  /** `[x for x in s if keep(x)]`: the elements of `s` that `keep` accepts, in order. */
  function Filter<T(!new)>(s: seq<T>, keep: T -> bool): (r: seq<T>)
    ensures |r| <= |s|
    ensures forall x :: x in r <==> x in s && keep(x)
  {
    if s == [] then []
    else
      var rest := Filter(s[..|s| - 1], keep);
      assert forall x :: x in s <==> x in s[..|s| - 1] || x == s[|s| - 1];
      if keep(s[|s| - 1]) then rest + [s[|s| - 1]] else rest
  }

  /** Filtering distributes over concatenation. */
  lemma {:induction false} FilterAppend<T(!new)>(a: seq<T>, b: seq<T>, keep: T -> bool)
    ensures Filter(a + b, keep) == Filter(a, keep) + Filter(b, keep)
    decreases |b|
  {
    if b == [] {
      assert a + b == a;
    } else {
      var b' := b[..|b| - 1];
      assert (a + b)[..|a + b| - 1] == a + b';
      FilterAppend(a, b', keep);
    }
  }

  /** A duplicate-free sequence whose length is the size of its element set. */
  lemma {:induction false} NoDupsCard<T(!new)>(s: seq<T>)
    requires NoDups(s)
    ensures |Elems(s)| == |s|
  {
    if s != [] {
      var s' := s[..|s| - 1];
      assert NoDups(s');
      NoDupsCard(s');
      assert Elems(s) == Elems(s') + {s[|s| - 1]};
      assert s[|s| - 1] !in Elems(s');
    }
  }

  /** Filtering a duplicate-free sequence leaves it duplicate-free. */
  lemma {:induction false} FilterNoDups<T(!new)>(s: seq<T>, keep: T -> bool)
    requires NoDups(s)
    ensures NoDups(Filter(s, keep))
  {
    if s != [] {
      var s' := s[..|s| - 1];
      assert NoDups(s');
      FilterNoDups(s', keep);
    }
  }

  /** A filter and the filter by the opposite test share out the elements:
      together they hold every element exactly as often as `s` does. */
  lemma {:induction false} FilterComplement<T(!new)>(s: seq<T>, keep: T -> bool, drop: T -> bool)
    requires forall x :: drop(x) == !keep(x)
    ensures multiset(Filter(s, keep)) + multiset(Filter(s, drop)) == multiset(s)
  {
    if s != [] {
      var s', x := s[..|s| - 1], s[|s| - 1];
      FilterComplement(s', keep, drop);
      assert s == s' + [x];
    }
  }

  /** `list(S)` for a Python set `S`: some duplicate-free enumeration of it.
      The order Python picks is not modelled. */
  method SetToSeq<T(!new)>(s: set<T>) returns (r: seq<T>)
    ensures NoDups(r)
    ensures Elems(r) == s
    ensures |r| == |s|
  {
    r := [];
    var rest := s;
    while rest != {}
      invariant NoDups(r)
      invariant Elems(r) !! rest
      invariant Elems(r) + rest == s
      decreases rest
    {
      var x :| x in rest;
      r := r + [x];
      rest := rest - {x};
    }
    NoDupsCard(r);
  }

  /** `x ** e` on naturals. */
  function Pow(x: nat, e: nat): (r: nat)
    ensures x >= 1 ==> r >= 1
  {
    if e == 0 then 1 else x * Pow(x, e - 1)
  }

  /** `ZZ(n).is_prime()`. */
  predicate IsPrime(n: int) {
    n >= 2 && forall d :: 2 <= d < n ==> n % d != 0
  }

  /** `gcd(a, b)` by Euclid's algorithm. */
  function Gcd(a: nat, b: nat): nat
    decreases b
  {
    if b == 0 then a else Gcd(b, a % b)
  }

  /** The gcd divides both arguments and is positive unless both are zero. */
  lemma {:induction false} GcdDivides(a: nat, b: nat)
    ensures Gcd(a, b) > 0 <==> a > 0 || b > 0
    ensures Gcd(a, b) > 0 ==> a % Gcd(a, b) == 0 && b % Gcd(a, b) == 0
    decreases b
  {
    if b != 0 {
      GcdDivides(b, a % b);
      var g := Gcd(b, a % b);
      if g > 0 {
        var q, r := b / g, (a % b) / g;
        ExactQuotient(b, g);
        ExactQuotient(a % b, g);
        Combine(a, b, g, q, r, a / b);
        DividesMultiple(a, g, (a / b) * q + r);
      }
    }
  }

  lemma Combine(a: int, b: int, g: int, q: int, r: int, d: int)
    requires b == q * g && a == d * b + r * g
    ensures a == (d * q + r) * g
  {
    assert d * (q * g) == (d * q) * g;
  }

  lemma MulAtLeast(x: int, g: int)
    requires x >= 1 && g > 0
    ensures x * g >= g
  {
    assert x * g == (x - 1) * g + g;
    assert (x - 1) * g >= 0;
  }

  /** A multiple of `g` leaves no remainder. */
  lemma DividesMultiple(a: int, g: int, k: int)
    requires g > 0 && a == k * g
    ensures a % g == 0
  {
    DivModUnique(a, g, k, 0);
  }

  /** `lcm(a, b)` for positive integers. */
  function Lcm(a: Pos, b: Pos): (r: Pos)
    ensures r % a == 0 && r % b == 0
  {
    LcmFacts(a, b);
    a / Gcd(a, b) * b
  }

  lemma LcmFacts(a: Pos, b: Pos)
    ensures Gcd(a, b) > 0
    ensures a / Gcd(a, b) * b >= 1
    ensures (a / Gcd(a, b) * b) % a == 0 && (a / Gcd(a, b) * b) % b == 0
  {
    GcdDivides(a, b);
    var g := Gcd(a, b);
    var qa, qb := a / g, b / g;
    ExactQuotient(a, g);
    ExactQuotient(b, g);
    MulAtLeast(qa, b);
    MulSwap(qa, qb, g);
    DividesMultiple(qa * b, b, qa);
    DividesMultiple(qa * b, a, qb);
  }

  lemma ExactQuotient(a: int, g: int)
    requires g > 0 && a % g == 0
    ensures a == (a / g) * g
  {
  }

  lemma MulSwap(x: int, y: int, g: int)
    ensures x * (y * g) == y * (x * g)
  {
  }

  /** The index of the first `c` in `s`, or `|s|` when there is none
      (`s.find(c)`, with "not found" as the length). */
  function IndexOf(s: seq<char>, c: char): (i: nat)
    ensures i <= |s|
    ensures i < |s| ==> s[i] == c
    ensures forall j :: 0 <= j < i ==> s[j] != c
  {
    if s == [] then 0 else if s[0] == c then 0 else 1 + IndexOf(s[1..], c)
  }

  /** Searching past a prefix that lacks `c`. */
  lemma {:induction false} IndexOfAfter(a: seq<char>, b: seq<char>, c: char)
    requires c !in a
    ensures IndexOf(a + b, c) == |a| + IndexOf(b, c)
  {
    if a == [] {
      assert a + b == b;
    } else {
      assert (a + b)[0] == a[0] && (a + b)[1..] == a[1..] + b;
      IndexOfAfter(a[1..], b, c);
    }
  }

  /** `a = q*p + r` with `0 <= r < p` determines quotient and remainder. */
  lemma DivModUnique(a: int, p: Pos, q: int, r: int)
    requires a == q * p + r && 0 <= r < p
    ensures a / p == q && a % p == r
  {
    var q', r' := a / p, a % p;
    assert (q - q') * p == r' - r;
    if q - q' >= 1 {
      MulAtLeast(q - q', p);
    } else if q - q' <= -1 {
      MulAtLeast(q' - q, p);
    }
  }
}
