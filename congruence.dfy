/** `test_cong` in ComputePairs.py: Kraus's criterion for two elliptic curves
    to have isomorphic mod-p representations up to semisimplification,
    followed by the chain of checks that tries to upgrade that to an
    isomorphism. The curve arithmetic it consults (twists, reduction types,
    traces of Frobenius, p-isogenies, image types) is given as functions;
    everything it computes from their answers is modelled exactly. */
module Congruence {
  import opened Base
  import opened Arith
  import opened Labels

  /** What `test_cong` asks of Sage about a curve. A twisted curve is again
      a `Curve`, and its conductor is its `conductor` field. */
  datatype CurveOracle = CurveOracle(
    minimalTwist: Curve -> (Curve, int),        // `E.minimal_quadratic_twist()`
    quadraticTwist: (Curve, int) -> Curve,      // `E.quadratic_twist(d)`
    splitMultiplicative: (Curve, nat) -> bool,  // `E.has_split_multiplicative_reduction(l)`
    nonsplitMultiplicative: (Curve, nat) -> bool,
    ap: (Curve, nat) -> int,                    // `E.ap(l)`
    pIsogenies: (Curve, nat) -> nat,            // `len(E.isogenies_prime_degree(p))`
    imageType: (Curve, nat) -> string)          // `E.galois_representation().image_type(p)`

  /** The curves and conductors the test goes on with after the twist step. */
  datatype Setup = Setup(e1: Curve, e2: Curve, n1: Pos, n2: Pos)

  /** Conductors above this are beyond the curve database. */
  const DatabaseBound := 400000

  function Swap(s: Setup): Setup {
    Setup(s.e2, s.e1, s.n2, s.n1)
  }

  /** The twist step: replace `E1` by its minimal quadratic twist and twist
      `E2` by the same `d`, unless that pushes `E2`'s conductor past the
      database bound, in which case everything is put back. When `d == 1`
      the conductors are not recomputed. */
  function TwistStep(o: CurveOracle, E1: Curve, E2: Curve, twist: bool): (s: Setup)
    ensures s.n2 == s.e2.conductor
    ensures s.e2 == E2 || s.n2 <= DatabaseBound
    ensures s.n1 == s.e1.conductor || (twist && o.minimalTwist(E1).1 == 1 && s.n1 == E1.conductor)
    ensures !twist ==> s == Setup(E1, E2, E1.conductor, E2.conductor)
    ensures twist && o.minimalTwist(E1).1 != 1
            && o.quadraticTwist(E2, o.minimalTwist(E1).1).conductor > DatabaseBound
            ==> s == Setup(E1, E2, E1.conductor, E2.conductor)
  {
    if !twist then Setup(E1, E2, E1.conductor, E2.conductor)
    else
      var t := o.minimalTwist(E1);
      if t.1 == 1 then Setup(t.0, E2, E1.conductor, E2.conductor)
      else
        var T2 := o.quadraticTwist(E2, t.1);
        if T2.conductor > DatabaseBound then Setup(E1, E2, E1.conductor, E2.conductor)
        else Setup(t.0, T2, t.0.conductor, T2.conductor)
  }

  /** Provided a twist by 1 does not change the conductor, the conductors the
      test works with are those of the curves it works with. */
  lemma TwistConductors(o: CurveOracle, E1: Curve, E2: Curve, twist: bool)
    requires o.minimalTwist(E1).1 == 1 ==> o.minimalTwist(E1).0.conductor == E1.conductor
    ensures TwistStep(o, E1, E2, twist).n1 == TwistStep(o, E1, E2, twist).e1.conductor
    ensures TwistStep(o, E1, E2, twist).n2 == TwistStep(o, E1, E2, twist).e2.conductor
  {
  }

  /** One curve split and the other non-split multiplicative at `l`. */
  predicate SplitNonsplit(o: CurveOracle, a: Curve, b: Curve, l: nat) {
    o.splitMultiplicative(a, l) && o.nonsplitMultiplicative(b, l)
  }

  /** `S = S1 + S2`: the primes of `gcd(N1, N2)` where the curves have
      multiplicative reduction of opposite kinds, `S1` first. */
  function ExceptionalPrimes(o: CurveOracle, s: Setup): (r: seq<nat>)
    ensures forall l :: l in r <==>
      IsPrime(l) && GcdPos(s.n1, s.n2) % l == 0
      && (SplitNonsplit(o, s.e1, s.e2, l) || SplitNonsplit(o, s.e2, s.e1, l))
    ensures forall i :: 0 <= i < |r| ==> IsPrime(r[i])
  {
    var S := Support(GcdPos(s.n1, s.n2));
    Filter(S, l => SplitNonsplit(o, s.e1, s.e2, l)) + Filter(S, l => SplitNonsplit(o, s.e2, s.e1, l))
  }

  /** When the oracle never calls one curve both split and non-split at the
      same prime, no prime is counted twice in `S`. */
  lemma ExceptionalPrimesDistinct(o: CurveOracle, s: Setup)
    requires forall l :: !(o.splitMultiplicative(s.e1, l) && o.nonsplitMultiplicative(s.e1, l))
    ensures NoDups(ExceptionalPrimes(o, s))
  {
    var S := Support(GcdPos(s.n1, s.n2));
    var A := Filter(S, l => SplitNonsplit(o, s.e1, s.e2, l));
    var B := Filter(S, l => SplitNonsplit(o, s.e2, s.e1, l));
    IncreasingNoDups(S);
    FilterNoDups(S, l => SplitNonsplit(o, s.e1, s.e2, l));
    FilterNoDups(S, l => SplitNonsplit(o, s.e2, s.e1, l));
    forall i, j | 0 <= i < j < |A + B|
      ensures (A + B)[i] != (A + B)[j]
    {
      if i < |A| && j >= |A| {
        assert (A + B)[i] in A && (A + B)[j] in B;
      }
    }
  }

  /** `M = lcm(N1, N2) * prod(S)`: a common multiple of both conductors and
      of every exceptional prime. */
  function KrausLevel(o: CurveOracle, s: Setup): (M: Pos)
    ensures M % s.n1 == 0 && M % s.n2 == 0
    ensures forall l :: l in ExceptionalPrimes(o, s) ==> M % l == 0
  {
    var S := ExceptionalPrimes(o, s);
    ProdPositive(S);
    MulPositive(Lcm(s.n1, s.n2), Prod(S));
    DividesTimes(Lcm(s.n1, s.n2), s.n1, Prod(S));
    DividesTimes(Lcm(s.n1, s.n2), s.n2, Prod(S));
    forall l | l in S
      ensures (Lcm(s.n1, s.n2) * Prod(S)) % l == 0
    {
      ProdHasFactor(S, l);
      MulComm(Lcm(s.n1, s.n2), Prod(S));
      DividesTimes(Prod(S), l, Lcm(s.n1, s.n2));
    }
    Lcm(s.n1, s.n2) * Prod(S)
  }

  /** Every prime of a list divides its product. */
  lemma {:induction false} ProdHasFactor(s: seq<nat>, l: nat)
    requires l in s && l >= 1
    ensures Prod(s) % l == 0
  {
    var init, last := s[..|s| - 1], s[|s| - 1];
    if last == l {
      DividesMultiple(Prod(s), l, Prod(init));
    } else {
      assert l in init;
      ProdHasFactor(init, l);
      DividesTimes(Prod(init), l, last);
    }
  }

  /** `mu6 = int(mu / 6)`: the psi value of the level divided by 6, rounded
      down. */
  function SturmBound(M: Pos): (b: nat)
    ensures 6 * b <= Psi(M) < 6 * b + 6
    ensures M <= 6 * b + 5
  {
    PsiFacts(M);
    Psi(M) / 6
  }

  /** The bound actually tested: `mu6` capped at `mumax`. */
  function Limit(mu6: int, mumax: int): (r: int)
    ensures r <= mu6 && r <= mumax
    ensures r == mu6 || r == mumax
  {
    if mu6 > mumax then mumax else mu6
  }

  /** Whether the prime `l` refutes the congruence: a prime other than `p`
      where, for `l` not dividing `N1*N2`, the traces differ mod `p`, or, for
      `l` dividing `N1*N2` exactly once, `a1*a2` differs from `l + 1` mod `p`.
      Primes dividing `N1*N2` more than once never refute it. */
  predicate FailsAt(o: CurveOracle, s: Setup, p: Pos, l: nat) {
    MulPositive(s.n1, s.n2);
    var N := s.n1 * s.n2;
    var a1, a2 := o.ap(s.e1, l), o.ap(s.e2, l);
    IsPrime(l) && l != p &&
    if N % l == 0 then Valuation(N, l) == 1 && (a1 * a2 - (l + 1)) % p != 0
    else (a1 - a2) % p != 0
  }

  /** The first prime in `[from, limit)` that refutes the congruence. */
  function FirstFailure(o: CurveOracle, s: Setup, p: Pos, limit: int, from: nat): (r: Option<nat>)
    ensures r.Some? ==> from <= r.value < limit && FailsAt(o, s, p, r.value)
    ensures r.Some? ==> forall l :: from <= l < r.value ==> !FailsAt(o, s, p, l)
    ensures r.None? ==> forall l :: from <= l < limit ==> !FailsAt(o, s, p, l)
    decreases limit - from
  {
    if from >= limit then None
    else if FailsAt(o, s, p, from) then Some(from)
    else FirstFailure(o, s, p, limit, from + 1)
  }

  /** Only primes other than `p` can refute the congruence. */
  lemma NotFailsAt(o: CurveOracle, s: Setup, p: Pos, l: nat)
    requires !IsPrime(l) || l == p
    ensures !FailsAt(o, s, p, l)
  {
  }

  lemma FirstFailureFound(o: CurveOracle, s: Setup, p: Pos, limit: int, from: nat, l: nat)
    requires from <= l < limit && FailsAt(o, s, p, l)
    requires forall k :: from <= k < l ==> !FailsAt(o, s, p, k)
    ensures FirstFailure(o, s, p, limit, from) == Some(l)
  {
  }

  lemma FirstFailureNone(o: CurveOracle, s: Setup, p: Pos, limit: int, from: nat)
    requires forall k :: from <= k < limit ==> !FailsAt(o, s, p, k)
    ensures FirstFailure(o, s, p, limit, from) == None
  {
  }

  /** Two setups that fail at the same primes have the same first failure. */
  lemma {:induction false} FirstFailureSame(o: CurveOracle, s: Setup, s': Setup, p: Pos, limit: int, from: nat)
    requires forall l :: FailsAt(o, s, p, l) == FailsAt(o, s', p, l)
    ensures FirstFailure(o, s, p, limit, from) == FirstFailure(o, s', p, limit, from)
    decreases limit - from
  {
    if from < limit {
      FirstFailureSame(o, s, s', p, limit, from + 1);
    }
  }

  /** The second half of a verdict: a counterexample `(l, a1, a2)` or one of
      the tags `test_cong` returns. */
  datatype Info = Counterexample(ell: nat, a1: int, a2: int) | Reason(tag: string)

  datatype Verdict = Verdict(holds: bool, info: Info)

  /** What `test_cong` decides once no prime has refuted the congruence. */
  function Conclusion(o: CurveOracle, s: Setup, p: nat, semisimp: bool): (v: Verdict)
    requires IsPrime(p)
    ensures v.info.Reason?
    ensures v.holds <==>
      semisimp ||
      (o.pIsogenies(s.e1, p) == o.pIsogenies(s.e2, p)
       && (o.pIsogenies(s.e1, p) != 1
           || (o.imageType(s.e1, p) == o.imageType(s.e2, p)
               && Valuation(s.n1, p) <= 1 && Valuation(s.n2, p) <= 1)))
    ensures !semisimp && o.pIsogenies(s.e1, p) != o.pIsogenies(s.e2, p) ==> v == Verdict(false, Reason("nn"))
  {
    var n1, n2 := o.pIsogenies(s.e1, p), o.pIsogenies(s.e2, p);
    if semisimp then Verdict(true, Reason("up to semisimplification"))
    else if n1 == 0 && n2 == 0 then Verdict(true, Reason("irreducible"))
    else if n1 == n2 && n1 > 1 then Verdict(true, Reason("completely reducible"))
    else if n1 != n2 then Verdict(false, Reason("nn"))
    else if o.imageType(s.e1, p) != o.imageType(s.e2, p) then Verdict(false, Reason("im"))
    else if Valuation(s.n1, p) <= 1 && Valuation(s.n2, p) <= 1 then Verdict(true, Reason("ss"))
    else Verdict(false, Reason("ss"))
  }

  /** The checks after the loop treat the two curves alike. */
  lemma ConclusionSymmetric(o: CurveOracle, s: Setup, p: nat, semisimp: bool)
    requires IsPrime(p)
    ensures Conclusion(o, Swap(s), p, semisimp) == Conclusion(o, s, p, semisimp)
  {
  }

  /** The whole of `test_cong`: the verdict, and whether the warning that
      the bound was capped is printed. */
  function TestCongSpec(o: CurveOracle, p: nat, E1: Curve, E2: Curve, mumax: int,
                        semisimp: bool, twist: bool): (Verdict, bool)
    requires IsPrime(p)
  {
    var s := TwistStep(o, E1, E2, twist);
    var mu6 := SturmBound(KrausLevel(o, s));
    match FirstFailure(o, s, p, Limit(mu6, mumax), 2)
    case Some(l) => (Verdict(false, Counterexample(l, o.ap(s.e1, l), o.ap(s.e2, l))), false)
    case None => (Conclusion(o, s, p, semisimp), mu6 > mumax)
  }

  /** `test_cong(p, E1, E2, mumax, semisimp, twist=twist)`: scans the primes
      below the capped bound for one that refutes the congruence, returning
      the first; otherwise warns when the bound was capped and escalates. */
  method TestCong(o: CurveOracle, p: nat, E1: Curve, E2: Curve, mumax: int,
                  semisimp: bool, twist: bool) returns (v: Verdict, warned: bool)
    requires IsPrime(p)
    ensures (v, warned) == TestCongSpec(o, p, E1, E2, mumax, semisimp, twist)
  {
    var s := TwistStep(o, E1, E2, twist);
    var M := KrausLevel(o, s);
    var actualMu6 := SturmBound(M);
    var mu6 := actualMu6;
    if mu6 > mumax {
      mu6 := mumax;
    }
    MulPositive(s.n1, s.n2);
    var N1N2 := s.n1 * s.n2;
    var ell := 2;
    while ell < mu6
      invariant ell >= 2
      invariant forall l :: 2 <= l < ell ==> !FailsAt(o, s, p, l)
    {
      if IsPrime(ell) && ell != p {
        var a1, a2 := o.ap(s.e1, ell), o.ap(s.e2, ell);
        if N1N2 % ell == 0 {
          if Valuation(N1N2, ell) == 1 && (a1 * a2 - (ell + 1)) % p != 0 {
            FirstFailureFound(o, s, p, mu6, 2, ell);
            return Verdict(false, Counterexample(ell, a1, a2)), false;
          }
        } else if (a1 - a2) % p != 0 {
          FirstFailureFound(o, s, p, mu6, 2, ell);
          return Verdict(false, Counterexample(ell, a1, a2)), false;
        }
        assert !FailsAt(o, s, p, ell);
      } else {
        NotFailsAt(o, s, p, ell);
      }
      ell := ell + 1;
    }
    FirstFailureNone(o, s, p, mu6, 2);
    warned := mu6 < actualMu6;
    v := Conclusion(o, s, p, semisimp);
  }

  /** What the verdict means: a counterexample is returned exactly when some
      prime below the capped bound refutes the congruence, and it is the
      least such prime with the two traces there; otherwise the verdict is
      the escalation's, and the warning is printed exactly when `mu6`
      exceeded `mumax`. */
  lemma TestCongMeaning(o: CurveOracle, p: nat, E1: Curve, E2: Curve, mumax: int,
                        semisimp: bool, twist: bool)
    requires IsPrime(p)
    ensures var s := TwistStep(o, E1, E2, twist);
      var mu6 := SturmBound(KrausLevel(o, s));
      var r := TestCongSpec(o, p, E1, E2, mumax, semisimp, twist);
      && (r.0.info.Counterexample? <==> exists l: nat :: l < Limit(mu6, mumax) && FailsAt(o, s, p, l))
      && (r.0.info.Counterexample? ==>
            && !r.0.holds && !r.1
            && r.0.info.ell < mu6 && r.0.info.ell < mumax
            && FailsAt(o, s, p, r.0.info.ell)
            && (forall l: nat :: l < r.0.info.ell ==> !FailsAt(o, s, p, l))
            && r.0.info.a1 == o.ap(s.e1, r.0.info.ell) && r.0.info.a2 == o.ap(s.e2, r.0.info.ell))
      && (!r.0.info.Counterexample? ==> r.0 == Conclusion(o, s, p, semisimp) && (r.1 <==> mu6 > mumax))
  {
    var s := TwistStep(o, E1, E2, twist);
    var limit := Limit(SturmBound(KrausLevel(o, s)), mumax);
    var f := FirstFailure(o, s, p, limit, 2);
    if f.None? {
      forall l: nat | l < limit
        ensures !FailsAt(o, s, p, l)
      {
        if l >= 2 {
          assert !FailsAt(o, s, p, l);
        }
      }
    }
  }

  /** Without the twist step the test is symmetric in the two curves: the
      same verdict, the same warning, the same refuting prime. */
  lemma TestCongSymmetric(o: CurveOracle, p: nat, E1: Curve, E2: Curve, mumax: int, semisimp: bool)
    requires IsPrime(p)
    ensures var r := TestCongSpec(o, p, E1, E2, mumax, semisimp, false);
      var r' := TestCongSpec(o, p, E2, E1, mumax, semisimp, false);
      && r.0.holds == r'.0.holds && r.1 == r'.1
      && r.0.info.Counterexample? == r'.0.info.Counterexample?
      && (r.0.info.Counterexample? ==> r.0.info.ell == r'.0.info.ell)
  {
    var s := TwistStep(o, E1, E2, false);
    var s' := TwistStep(o, E2, E1, false);
    assert s' == Swap(s);
    KrausLevelSymmetric(o, s);
    forall l
      ensures FailsAt(o, s, p, l) == FailsAt(o, s', p, l)
    {
      FailsAtSymmetric(o, s, p, l);
    }
    var limit := Limit(SturmBound(KrausLevel(o, s)), mumax);
    FirstFailureSame(o, s, s', p, limit, 2);
    ConclusionSymmetric(o, s, p, semisimp);
  }

  lemma KrausLevelSymmetric(o: CurveOracle, s: Setup)
    ensures KrausLevel(o, Swap(s)) == KrausLevel(o, s)
  {
    GcdSymmetric(s.n1, s.n2);
    LcmSymmetric(s.n1, s.n2);
    var S := Support(GcdPos(s.n1, s.n2));
    assert Support(GcdPos(s.n2, s.n1)) == S;
    ProdSwapHalves(Filter(S, l => SplitNonsplit(o, s.e1, s.e2, l)),
                   Filter(S, l => SplitNonsplit(o, s.e2, s.e1, l)));
  }

  lemma FailsAtSymmetric(o: CurveOracle, s: Setup, p: Pos, l: nat)
    ensures FailsAt(o, Swap(s), p, l) == FailsAt(o, s, p, l)
  {
    var a1, a2 := o.ap(s.e1, l), o.ap(s.e2, l);
    MulComm(s.n1, s.n2);
    MulComm(a1, a2);
    NegDivides(a1 - a2, p);
    assert -(a1 - a2) == a2 - a1;
  }
}
