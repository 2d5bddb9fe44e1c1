/** Fingerprinting curves by their Frobenius traces at a fixed list of
    sample primes (`hash1`, `make_hash` and the bucket filter that follows
    it in ComputePairs.py). The traces `a_q(E)` are an oracle `ap`. */
module Hashing {
  import opened Base

  /** The digits `[E.ap(q) % p for q in qlist]`. Python's `%` with a positive
      modulus gives a value in `[0, p)`, as Dafny's does. */
  function Residues(p: Pos, ap: nat -> int, qlist: seq<nat>): (r: seq<nat>)
    ensures |r| == |qlist|
    ensures forall i :: 0 <= i < |r| ==> r[i] < p
  {
    seq(|qlist|, i requires 0 <= i < |qlist| => ap(qlist[i]) % p)
  }

  /** `sum(h[i] * p**i for i in range(len(h)))`, summed in index order. */
  function PowerSum(h: seq<nat>, p: nat): nat {
    if h == [] then 0 else PowerSum(h[..|h| - 1], p) + h[|h| - 1] * Pow(p, |h| - 1)
  }

  /** The base-`p` digits of `x`, least significant first, `n` of them. */
  function BaseDigits(x: nat, p: Pos, n: nat): (r: seq<nat>)
    ensures |r| == n
  {
    if n == 0 then [] else [x % p] + BaseDigits(x / p, p, n - 1)
  }

  /** `hash1(p, E, qlist)`: the residues of `E`'s traces at `qlist` read as
      one base-`p` number; it has exactly `|qlist|` base-`p` digits. */
  function Hash1(p: Pos, ap: nat -> int, qlist: seq<nat>): (h: nat)
    ensures h < Pow(p, |qlist|)
  {
    PowerSumBound(Residues(p, ap, qlist), p);
    PowerSum(Residues(p, ap, qlist), p)
  }

  /** Summing from the lowest digit up equals Horner's form. */
  lemma {:induction false} PowerSumHorner(h: seq<nat>, p: nat)
    requires h != []
    ensures PowerSum(h, p) == h[0] + p * PowerSum(h[1..], p)
    decreases |h|
  {
    var n := |h|;
    if n == 1 {
      assert h[..0] == [] && h[1..] == [];
    } else {
      var init, tail := h[..n - 1], h[1..];
      PowerSumHorner(init, p);
      assert init[0] == h[0] && init[1..] == h[1..n - 1];
      assert tail[..|tail| - 1] == h[1..n - 1];
      assert PowerSum(tail, p) == PowerSum(h[1..n - 1], p) + h[n - 1] * Pow(p, n - 2);
      HornerStep(p, PowerSum(h[1..n - 1], p), h[n - 1], Pow(p, n - 2));
    }
  }

  lemma HornerStep(p: int, a: int, x: int, q: int)
    ensures p * (a + x * q) == p * a + x * (p * q)
  {
  }

  /** Digits below `p` followed by a number below `p^k` stay below `p^(k+1)`. */
  lemma DigitStep(d: int, rest: int, p: int, pk: int)
    requires 0 <= d < p && rest < pk
    ensures d + p * rest < p * pk
  {
    assert p * rest <= p * (pk - 1);
  }

  /** With every digit below `p`, the sum stays below `p^|h|`. */
  lemma {:induction false} PowerSumBound(h: seq<nat>, p: Pos)
    requires forall i :: 0 <= i < |h| ==> h[i] < p
    ensures PowerSum(h, p) < Pow(p, |h|)
    decreases |h|
  {
    if h != [] {
      PowerSumHorner(h, p);
      PowerSumBound(h[1..], p);
      DigitStep(h[0], PowerSum(h[1..], p), p, Pow(p, |h| - 1));
    }
  }

  /** Decoding a fingerprint gives back its digits: `hash1` loses nothing
      about the residues. */
  lemma {:induction false} BaseDigitsOfPowerSum(h: seq<nat>, p: Pos)
    requires forall i :: 0 <= i < |h| ==> h[i] < p
    ensures BaseDigits(PowerSum(h, p), p, |h|) == h
    decreases |h|
  {
    if h != [] {
      PowerSumHorner(h, p);
      DivModUnique(PowerSum(h, p), p, PowerSum(h[1..], p), h[0]);
      BaseDigitsOfPowerSum(h[1..], p);
      assert h == [h[0]] + h[1..];
    }
  }

  /** Digit `i` of `hash1(p, E, qlist)` is `a_{qlist[i]}(E) mod p`. */
  lemma HashDigits(p: Pos, ap: nat -> int, qlist: seq<nat>)
    ensures BaseDigits(Hash1(p, ap, qlist), p, |qlist|) == Residues(p, ap, qlist)
  {
    BaseDigitsOfPowerSum(Residues(p, ap, qlist), p);
  }

  /** Two curves get the same fingerprint exactly when their traces agree
      mod `p` at every sample prime. */
  lemma HashEqualIff(p: Pos, ap1: nat -> int, ap2: nat -> int, qlist: seq<nat>)
    ensures Hash1(p, ap1, qlist) == Hash1(p, ap2, qlist) <==>
      forall i :: 0 <= i < |qlist| ==> ap1(qlist[i]) % p == ap2(qlist[i]) % p
  {
    var r1, r2 := Residues(p, ap1, qlist), Residues(p, ap2, qlist);
    if Hash1(p, ap1, qlist) == Hash1(p, ap2, qlist) {
      HashDigits(p, ap1, qlist);
      HashDigits(p, ap2, qlist);
      assert r1 == r2;
      forall i | 0 <= i < |qlist|
        ensures ap1(qlist[i]) % p == ap2(qlist[i]) % p
      {
        assert r1[i] == r2[i];
      }
    }
    if forall i :: 0 <= i < |qlist| ==> ap1(qlist[i]) % p == ap2(qlist[i]) % p {
      assert r1 == r2;
    }
  }

  /** `plist` as `make_hash` builds it: `next_prime(400000)` and then each
      next prime after the previous one, until there are `np` of them (at
      least one, since the list starts non-empty). */
  predicate IsSampleList(plist: seq<nat>, nextPrime: nat -> nat, np: int) {
    && |plist| == (if np >= 1 then np else 1)
    && plist[0] == nextPrime(400000)
    && forall i :: 0 <= i < |plist| - 1 ==> plist[i + 1] == nextPrime(plist[i])
  }

  /** The `while len(plist) < np` loop at the head of `make_hash`. */
  method SamplePrimes(nextPrime: nat -> nat, np: int) returns (plist: seq<nat>)
    ensures IsSampleList(plist, nextPrime, np)
  {
    plist := [nextPrime(400000)];
    while |plist| < np
      invariant 1 <= |plist| <= (if np >= 1 then np else 1)
      invariant plist[0] == nextPrime(400000)
      invariant forall i :: 0 <= i < |plist| - 1 ==> plist[i + 1] == nextPrime(plist[i])
      decreases np - |plist|
    {
      plist := plist + [nextPrime(plist[|plist| - 1])];
    }
  }

  /** The fingerprint of every curve, in processing order. */
  function CurveHashes(p: Pos, curves: seq<Label>, ap: Label -> nat -> int, plist: seq<nat>): (hs: seq<nat>)
    ensures |hs| == |curves|
  {
    seq(|curves|, i requires 0 <= i < |curves| => Hash1(p, ap(curves[i]), plist))
  }

  /** The labels whose fingerprint is `h`, in processing order: the list
      `hashtab[h]`. */
  function Bucket(curves: seq<Label>, hs: seq<nat>, h: nat): seq<Label>
    requires |curves| == |hs|
  {
    if curves == [] then []
    else
      var n := |curves|;
      Bucket(curves[..n - 1], hs[..n - 1], h) + (if hs[n - 1] == h then [curves[n - 1]] else [])
  }

  /** The distinct fingerprints in order of first appearance: the key order
      of the Python dict `hashtab`. */
  function FirstSeen(hs: seq<nat>): (keys: seq<nat>)
    ensures NoDups(keys)
    ensures Elems(keys) == Elems(hs)
  {
    if hs == [] then []
    else
      var keys := FirstSeen(hs[..|hs| - 1]);
      assert Elems(hs) == Elems(hs[..|hs| - 1]) + {hs[|hs| - 1]};
      if hs[|hs| - 1] in keys then keys else keys + [hs[|hs| - 1]]
  }

  /** Has more than one label: a set of possibly congruent curves. */
  predicate Nontrivial(hashtab: map<nat, seq<Label>>, h: nat) {
    h in hashtab && |hashtab[h]| > 1
  }

  /** `make_hash(p, N1, N2, np)`, given the curves of conductor in
      `[N1, N2]` in database order. Returns the dict, its key order, the
      curve count `nc` and the count `ns` of buckets with two or more
      labels (which the source prints). */
  method MakeHash(p: Pos, curves: seq<Label>, ap: Label -> nat -> int, nextPrime: nat -> nat, np: int)
    returns (hashtab: map<nat, seq<Label>>, keys: seq<nat>, plist: seq<nat>, nc: nat, ns: nat)
    ensures IsSampleList(plist, nextPrime, np)
    ensures nc == |curves|
    ensures keys == FirstSeen(CurveHashes(p, curves, ap, plist))
    ensures hashtab.Keys == Elems(keys)
    ensures forall h :: h in hashtab ==> hashtab[h] == Bucket(curves, CurveHashes(p, curves, ap, plist), h)
    ensures ns == |Filter(keys, h => Nontrivial(hashtab, h))|
  {
    plist := SamplePrimes(nextPrime, np);
    hashtab, keys, nc := FillTable(p, curves, ap, plist);
    ns := CountNontrivial(hashtab, keys);
  }

  /** The loop of `make_hash` over the curves: count each one and append
      its label to the list of its fingerprint, creating the list when the
      fingerprint is new. */
  method FillTable(p: Pos, curves: seq<Label>, ap: Label -> nat -> int, plist: seq<nat>)
    returns (hashtab: map<nat, seq<Label>>, keys: seq<nat>, nc: nat)
    ensures nc == |curves|
    ensures keys == FirstSeen(CurveHashes(p, curves, ap, plist))
    ensures hashtab.Keys == Elems(keys)
    ensures forall h :: h in hashtab ==> hashtab[h] == Bucket(curves, CurveHashes(p, curves, ap, plist), h)
  {
    ghost var hs := CurveHashes(p, curves, ap, plist);
    hashtab, keys, nc := map[], [], 0;
    for k := 0 to |curves|
      invariant nc == k
      invariant Filled(curves, hs, k, hashtab, keys)
    {
      nc := nc + 1;
      var h := Hash1(p, ap(curves[k]), plist);
      hashtab, keys := FileCurve(curves, hs, k, h, hashtab, keys);
    }
    assert curves[..|curves|] == curves && hs[..|curves|] == hs;
  }

  /** The dict and its key order after the first `k` curves. */
  predicate Filled(curves: seq<Label>, hs: seq<nat>, k: nat, hashtab: map<nat, seq<Label>>, keys: seq<nat>)
    requires |curves| == |hs| && k <= |curves|
  {
    && keys == FirstSeen(hs[..k])
    && hashtab.Keys == Elems(keys)
    && forall h :: h in hashtab ==> hashtab[h] == Bucket(curves[..k], hs[..k], h)
  }

  /** One turn of the loop: curve `k`, whose fingerprint is `h`, is appended
      to the list of `h`, which is created when `h` is new. */
  method FileCurve(curves: seq<Label>, ghost hs: seq<nat>, k: nat, h: nat,
                   hashtab: map<nat, seq<Label>>, keys: seq<nat>)
    returns (hashtab': map<nat, seq<Label>>, keys': seq<nat>)
    requires |curves| == |hs| && k < |curves| && h == hs[k]
    requires Filled(curves, hs, k, hashtab, keys)
    ensures Filled(curves, hs, k + 1, hashtab', keys')
  {
    if h in hashtab {
      FileExisting(curves, hs, k, hashtab, keys);
      hashtab', keys' := hashtab[h := hashtab[h] + [curves[k]]], keys;
    } else {
      FileNew(curves, hs, k, hashtab, keys);
      hashtab', keys' := hashtab[h := [curves[k]]], keys + [h];
    }
  }

  /** A fingerprint already in the dict: its list grows, the keys stay. */
  lemma FileExisting(curves: seq<Label>, hs: seq<nat>, k: nat, hashtab: map<nat, seq<Label>>, keys: seq<nat>)
    requires |curves| == |hs| && k < |curves| && hs[k] in hashtab
    requires Filled(curves, hs, k, hashtab, keys)
    ensures Filled(curves, hs, k + 1, hashtab[hs[k] := hashtab[hs[k]] + [curves[k]]], keys)
  {
    BucketSnoc(curves, hs, k);
    FirstSeenSnoc(hs, k);
  }

  /** A new fingerprint: a one-label list, and the key goes last. */
  lemma FileNew(curves: seq<Label>, hs: seq<nat>, k: nat, hashtab: map<nat, seq<Label>>, keys: seq<nat>)
    requires |curves| == |hs| && k < |curves| && hs[k] !in hashtab
    requires Filled(curves, hs, k, hashtab, keys)
    ensures Filled(curves, hs, k + 1, hashtab[hs[k] := [curves[k]]], keys + [hs[k]])
  {
    BucketSnoc(curves, hs, k);
    FirstSeenSnoc(hs, k);
    assert hs[k] !in hs[..k];
    BucketOfAbsent(curves[..k], hs[..k], hs[k]);
    assert Elems(keys + [hs[k]]) == Elems(keys) + {hs[k]};
  }

  lemma BucketSnoc(curves: seq<Label>, hs: seq<nat>, k: nat)
    requires |curves| == |hs| && k < |curves|
    ensures forall h ::
      Bucket(curves[..k + 1], hs[..k + 1], h) == Bucket(curves[..k], hs[..k], h) + (if hs[k] == h then [curves[k]] else [])
  {
    assert curves[..k + 1][..k] == curves[..k] && hs[..k + 1][..k] == hs[..k];
  }

  lemma FirstSeenSnoc(hs: seq<nat>, k: nat)
    requires k < |hs|
    ensures FirstSeen(hs[..k + 1]) ==
      if hs[k] in FirstSeen(hs[..k]) then FirstSeen(hs[..k]) else FirstSeen(hs[..k]) + [hs[k]]
  {
    assert hs[..k + 1][..k] == hs[..k];
  }

  /** The loop `for s in hashtab.values(): if len(s) > 1: ns += 1`. */
  method CountNontrivial(hashtab: map<nat, seq<Label>>, keys: seq<nat>) returns (ns: nat)
    requires Elems(keys) == hashtab.Keys
    ensures ns == |Filter(keys, h => Nontrivial(hashtab, h))|
  {
    ns := 0;
    for k := 0 to |keys|
      invariant ns == |Filter(keys[..k], h => Nontrivial(hashtab, h))|
    {
      assert keys[..k + 1][..k] == keys[..k];
      if |hashtab[keys[k]]| > 1 {
        ns := ns + 1;
      }
    }
    assert keys[..|keys|] == keys;
  }

  /** Total size of the buckets listed in `keys`. */
  function BucketSizes(curves: seq<Label>, hs: seq<nat>, keys: seq<nat>): nat
    requires |curves| == |hs|
  {
    if keys == [] then 0 else BucketSizes(curves, hs, keys[..|keys| - 1]) + |Bucket(curves, hs, keys[|keys| - 1])|
  }

  /** Every processed curve lands in its own fingerprint's bucket. */
  lemma {:induction false} CurveInOwnBucket(curves: seq<Label>, hs: seq<nat>, i: nat)
    requires |curves| == |hs| && i < |curves|
    ensures curves[i] in Bucket(curves, hs, hs[i])
    decreases |curves|
  {
    var n := |curves|;
    if i < n - 1 {
      CurveInOwnBucket(curves[..n - 1], hs[..n - 1], i);
    }
  }

  /** Bucket sizes sum to the number of processed curves: each curve is
      counted in exactly one bucket. */
  lemma {:induction false} BucketSizesSum(curves: seq<Label>, hs: seq<nat>)
    requires |curves| == |hs|
    ensures BucketSizes(curves, hs, FirstSeen(hs)) == |curves|
    decreases |curves|
  {
    var n := |curves|;
    if n > 0 {
      var c', h' := curves[..n - 1], hs[..n - 1];
      var x := hs[n - 1];
      BucketSizesSum(c', h');
      var keys' := FirstSeen(h');
      assert c' + [curves[n - 1]] == curves && h' + [x] == hs;
      BucketSizesStep(c', h', curves[n - 1], x, keys');
      if x in keys' {
        CountOnce(keys', x);
        assert FirstSeen(hs) == keys';
      } else {
        NotInZero(keys', x);
        BucketOfAbsent(c', h', x);
        assert FirstSeen(hs) == keys' + [x];
        assert Bucket(curves, hs, x) == [curves[n - 1]];
        assert (keys' + [x])[..|keys'|] == keys';
      }
    }
  }

  /** A fingerprint no curve has gets an empty bucket. */
  lemma {:induction false} BucketOfAbsent(curves: seq<Label>, hs: seq<nat>, h: nat)
    requires |curves| == |hs| && h !in hs
    ensures Bucket(curves, hs, h) == []
    decreases |curves|
  {
    if curves != [] {
      BucketOfAbsent(curves[..|curves| - 1], hs[..|hs| - 1], h);
    }
  }

  /** How many times `x` occurs in `keys`. */
  function Occurrences(keys: seq<nat>, x: nat): nat {
    if keys == [] then 0 else Occurrences(keys[..|keys| - 1], x) + (if keys[|keys| - 1] == x then 1 else 0)
  }

  lemma {:induction false} CountOnce(keys: seq<nat>, x: nat)
    requires NoDups(keys) && x in keys
    ensures Occurrences(keys, x) == 1
  {
    var n := |keys|;
    var init := keys[..n - 1];
    assert NoDups(init);
    if keys[n - 1] == x {
      NotInZero(init, x);
    } else {
      CountOnce(init, x);
    }
  }

  lemma {:induction false} NotInZero(keys: seq<nat>, x: nat)
    requires x !in keys
    ensures Occurrences(keys, x) == 0
  {
    if keys != [] {
      NotInZero(keys[..|keys| - 1], x);
    }
  }

  /** Appending one curve with fingerprint `x` grows the total over `keys`
      by the number of times `x` is listed there. */
  lemma {:induction false} BucketSizesStep(curves: seq<Label>, hs: seq<nat>, c: Label, x: nat, keys: seq<nat>)
    requires |curves| == |hs|
    ensures BucketSizes(curves + [c], hs + [x], keys) == BucketSizes(curves, hs, keys) + Occurrences(keys, x)
    decreases |keys|
  {
    var c2, h2 := curves + [c], hs + [x];
    assert c2[..|c2| - 1] == curves && h2[..|h2| - 1] == hs;
    if keys != [] {
      BucketSizesStep(curves, hs, c, x, keys[..|keys| - 1]);
    }
  }

  /** Curves whose traces agree mod `p` at every sample prime share a
      bucket. */
  lemma SameResiduesSameBucket(p: Pos, curves: seq<Label>, ap: Label -> nat -> int, plist: seq<nat>, i: nat, j: nat)
    requires i < |curves| && j < |curves|
    requires forall k :: 0 <= k < |plist| ==> ap(curves[i])(plist[k]) % p == ap(curves[j])(plist[k]) % p
    ensures var hs := CurveHashes(p, curves, ap, plist);
      curves[i] in Bucket(curves, hs, hs[j]) && curves[j] in Bucket(curves, hs, hs[j])
  {
    var hs := CurveHashes(p, curves, ap, plist);
    HashEqualIff(p, ap(curves[i]), ap(curves[j]), plist);
    CurveInOwnBucket(curves, hs, i);
    CurveInOwnBucket(curves, hs, j);
  }

  /** `dict([(k, v) for k, v in hashtab.items() if len(v) > 1])`, for a dict
      whose key order is `keys`: the filtered map together with its own key
      order, the order in which `.values()` lists the buckets. */
  function NontrivialBuckets(hashtab: map<nat, seq<Label>>, keys: seq<nat>): (r: (map<nat, seq<Label>>, seq<nat>))
    requires NoDups(keys) && Elems(keys) == hashtab.Keys
    ensures forall h :: h in r.0 <==> Nontrivial(hashtab, h)
    ensures forall h :: h in r.0 ==> h in hashtab && r.0[h] == hashtab[h]
    ensures NoDups(r.1) && Elems(r.1) == r.0.Keys
    ensures r.1 == Filter(keys, h => Nontrivial(hashtab, h))
  {
    FilterNoDups(keys, h => Nontrivial(hashtab, h));
    (map h | h in hashtab && |hashtab[h]| > 1 :: hashtab[h], Filter(keys, h => Nontrivial(hashtab, h)))
  }

  /** The filter keeps exactly the `ns` buckets that `make_hash` counts. */
  lemma NontrivialCount(hashtab: map<nat, seq<Label>>, keys: seq<nat>)
    requires NoDups(keys) && Elems(keys) == hashtab.Keys
    ensures |NontrivialBuckets(hashtab, keys).0| == |Filter(keys, h => Nontrivial(hashtab, h))|
  {
    var r := NontrivialBuckets(hashtab, keys);
    NoDupsCard(r.1);
  }

  /** The kept buckets stay in insertion order: of two kept keys, the one
      inserted first comes first in the filtered dict. */
  lemma NontrivialOrder(hashtab: map<nat, seq<Label>>, keys: seq<nat>, i: nat, j: nat)
    requires NoDups(keys) && Elems(keys) == hashtab.Keys
    requires i < j < |keys| && Nontrivial(hashtab, keys[i]) && Nontrivial(hashtab, keys[j])
    ensures var order, n := NontrivialBuckets(hashtab, keys).1, |Filter(keys[..j], h => Nontrivial(hashtab, h))|;
      n <= |order| && keys[i] in order[..n] && keys[j] in order[n..]
  {
    var keep := h => Nontrivial(hashtab, h);
    assert keys == keys[..j] + keys[j..];
    FilterAppend(keys[..j], keys[j..], keep);
    assert keys[i] in keys[..j] && keys[j] in keys[j..];
  }
}
