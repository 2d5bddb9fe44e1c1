/** `pairs_mod_p_with_same_star_field` in ComputePairs.py and the loop that
    calls it on each half of each kernel-field split: curves are grouped
    by the field cut out by the upper-right entry of their mod-p
    representation, and the pairs inside each group are emitted, except
    pairs of curves linked by an isogeny of degree prime to p. Fields, their
    isomorphism test and the isogeny tests are given as functions. */
module StarField {
  import opened Base
  import opened Arith
  import Reducible

  /** The exceptions the pairing can raise: `list[0]` of an empty list,
      and `EC_star_field` finding no factor of degree p. */
  datatype Error = IndexError | ValueError

  datatype Result<T> = Ok(value: T) | Err(error: Error)

  /** What the pairing asks about curves and fields. */
  datatype FieldOracle<!F> = FieldOracle(
    starField: Label -> Option<F>,          // `EC_star_field(E, p)`; `None` raises `ValueError`
    isomorphic: (F, F) -> bool,             // `field_isomorphism(K1, K2)`
    isogenous: (Label, Label) -> bool,      // `E1.is_isogenous(E2)`
    isogenyDegree: (Label, Label) -> nat)   // `E1.isogeny_degree(E2)`

  /** A pair of labels, written `[a, b]` by the source. */
  type Pair = (Label, Label)

  /** The dict `starfield_dict`: its keys in insertion order and the list of
      labels under each key. */
  datatype Classes<F> = Classes(keys: seq<F>, members: map<F, seq<Label>>)

  /** Every key has a list. */
  predicate KeysListed<F>(c: Classes<F>) {
    forall k :: k in c.keys ==> k in c.members
  }

  /** The keys are listed once each, and they are exactly the dict's keys. */
  ghost predicate ValidClasses<F(!new)>(c: Classes<F>) {
    NoDups(c.keys) && Elems(c.keys) == c.members.Keys
  }

  /** Every label has a star field. */
  predicate HasStarFields<F>(labs: seq<Label>, o: FieldOracle<F>) {
    forall i :: 0 <= i < |labs| ==> o.starField(labs[i]).Some?
  }

  /** The index of the first key isomorphic to `sf`, from `t` on. */
  function FirstIso<F>(keys: seq<F>, sf: F, iso: (F, F) -> bool, t: nat): (r: Option<nat>)
    requires t <= |keys|
    ensures r.Some? ==> t <= r.value < |keys| && iso(keys[r.value], sf)
    ensures r.Some? ==> forall u :: t <= u < r.value ==> !iso(keys[u], sf)
    ensures r.None? ==> forall u :: t <= u < |keys| ==> !iso(keys[u], sf)
    decreases |keys| - t
  {
    if t == |keys| then None
    else if iso(keys[t], sf) then Some(t)
    else FirstIso(keys, sf, iso, t + 1)
  }

  /** One step of the grouping loop: the label joins the list of the first
      key isomorphic to its field; otherwise its field becomes a key with a
      new list. Assigning to a key that is already present replaces its
      list and keeps its place, as a Python dict does. */
  function Place<F(==,!new)>(c: Classes<F>, sf: F, lab: Label, iso: (F, F) -> bool): (c': Classes<F>)
    requires KeysListed(c)
    ensures KeysListed(c')
    ensures c'.keys == c.keys || c'.keys == c.keys + [sf]
  {
    match FirstIso(c.keys, sf, iso, 0)
    case Some(t) => Classes(c.keys, c.members[c.keys[t] := c.members[c.keys[t]] + [lab]])
    case None =>
      if sf in c.members then Classes(c.keys, c.members[sf := [lab]])
      else Classes(c.keys + [sf], c.members[sf := [lab]])
  }

  /** Placing a label keeps the keys distinct and in step with the dict. */
  lemma PlaceValid<F(!new)>(c: Classes<F>, sf: F, lab: Label, iso: (F, F) -> bool)
    requires ValidClasses(c)
    ensures ValidClasses(Place(c, sf, lab, iso))
  {
  }

  /** The first `n` labels have a star field. */
  predicate StarFieldsUpTo<F>(labs: seq<Label>, o: FieldOracle<F>, n: nat)
    requires n <= |labs|
  {
    forall j :: 0 <= j < n ==> o.starField(labs[j]).Some?
  }

  /** The dict after the first `n` labels have been placed: the first label
      founds it, and each later one is placed in turn. */
  function GroupUpTo<F(==,!new)>(labs: seq<Label>, o: FieldOracle<F>, n: nat): (c: Classes<F>)
    requires 1 <= n <= |labs| && StarFieldsUpTo(labs, o, n)
    ensures KeysListed(c)
  {
    if n == 1 then Classes([o.starField(labs[0]).value], map[o.starField(labs[0]).value := [labs[0]]])
    else Place(GroupUpTo(labs, o, n - 1), o.starField(labs[n - 1]).value, labs[n - 1], o.isomorphic)
  }

  /** The dict after all labels have been placed. */
  function Group<F(==,!new)>(labs: seq<Label>, o: FieldOracle<F>): (c: Classes<F>)
    requires labs != [] && HasStarFields(labs, o)
    ensures KeysListed(c)
  {
    GroupUpTo(labs, o, |labs|)
  }

  /** The dict's keys are distinct and are exactly its keys in order. */
  lemma {:induction false} GroupUpToValid<F(!new)>(labs: seq<Label>, o: FieldOracle<F>, n: nat)
    requires 1 <= n <= |labs| && StarFieldsUpTo(labs, o, n)
    ensures ValidClasses(GroupUpTo(labs, o, n))
  {
    if n > 1 {
      GroupUpToValid(labs, o, n - 1);
      PlaceValid(GroupUpTo(labs, o, n - 1), o.starField(labs[n - 1]).value, labs[n - 1], o.isomorphic);
    }
  }

  /** The lists of the dict, concatenated in key order. */
  function Flatten<F>(keys: seq<F>, m: map<F, seq<Label>>): seq<Label>
    requires forall k :: k in keys ==> k in m
  {
    if keys == [] then [] else Flatten(keys[..|keys| - 1], m) + m[keys[|keys| - 1]]
  }

  /** With a reflexive isomorphism test, every label ends up in exactly one
      list, as often as it occurs in the input. */
  lemma GroupPartition<F(!new)>(labs: seq<Label>, o: FieldOracle<F>)
    requires labs != [] && HasStarFields(labs, o)
    requires forall K :: o.isomorphic(K, K)
    ensures multiset(Flatten(Group(labs, o).keys, Group(labs, o).members)) == multiset(labs)
  {
    GroupUpToPartition(labs, o, |labs|);
    assert labs[..|labs|] == labs;
  }

  lemma {:induction false} GroupUpToPartition<F(!new)>(labs: seq<Label>, o: FieldOracle<F>, n: nat)
    requires 1 <= n <= |labs| && StarFieldsUpTo(labs, o, n)
    requires forall K :: o.isomorphic(K, K)
    ensures multiset(Flatten(GroupUpTo(labs, o, n).keys, GroupUpTo(labs, o, n).members)) == multiset(labs[..n])
  {
    if n == 1 {
      GroupFirst(labs, o);
    } else {
      StarFieldsPrefix(labs, o, n);
      GroupUpToPartition(labs, o, n - 1);
      GroupUpToValid(labs, o, n - 1);
      GroupStep(labs, o, n);
    }
  }

  /** Adding the same label to two sequences with the same counts keeps
      their counts equal. */
  lemma SameCountsSnoc(after: seq<Label>, before: seq<Label>, pre: seq<Label>, cur: seq<Label>, lab: Label)
    requires multiset(after) == multiset(before) + multiset{lab}
    requires multiset(before) == multiset(pre)
    requires multiset(cur) == multiset(pre) + multiset{lab}
    ensures multiset(after) == multiset(cur)
  {
  }

  /** Placing label `n - 1` extends the partition of the first `n - 1`
      labels to the first `n`. */
  lemma GroupStep<F(!new)>(labs: seq<Label>, o: FieldOracle<F>, n: nat)
    requires 2 <= n <= |labs| && StarFieldsUpTo(labs, o, n)
    requires ValidClasses(GroupUpTo(labs, o, n - 1))
    requires forall K :: o.isomorphic(K, K)
    requires multiset(Flatten(GroupUpTo(labs, o, n - 1).keys, GroupUpTo(labs, o, n - 1).members)) == multiset(labs[..n - 1])
    ensures multiset(Flatten(GroupUpTo(labs, o, n).keys, GroupUpTo(labs, o, n).members)) == multiset(labs[..n])
  {
    var lab := labs[n - 1];
    PlacePartition(GroupUpTo(labs, o, n - 1), o.starField(lab).value, lab, o.isomorphic);
    PrefixSnoc(labs, n);
    SameCountsSnoc(Flatten(GroupUpTo(labs, o, n).keys, GroupUpTo(labs, o, n).members),
      Flatten(GroupUpTo(labs, o, n - 1).keys, GroupUpTo(labs, o, n - 1).members),
      labs[..n - 1], labs[..n], lab);
  }

  /** The dict founded by the first label holds just that label. */
  lemma GroupFirst<F(!new)>(labs: seq<Label>, o: FieldOracle<F>)
    requires 1 <= |labs| && StarFieldsUpTo(labs, o, 1)
    ensures Flatten(GroupUpTo(labs, o, 1).keys, GroupUpTo(labs, o, 1).members) == labs[..1]
    ensures multiset(Flatten(GroupUpTo(labs, o, 1).keys, GroupUpTo(labs, o, 1).members)) == multiset(labs[..1])
  {
    var c := GroupUpTo(labs, o, 1);
    assert c.keys[..0] == [];
    assert labs[..1] == [labs[0]];
  }

  lemma StarFieldsPrefix<F>(labs: seq<Label>, o: FieldOracle<F>, n: nat)
    requires 1 <= n <= |labs| && StarFieldsUpTo(labs, o, n)
    ensures StarFieldsUpTo(labs, o, n - 1)
  {
  }

  lemma PrefixSnoc(s: seq<Label>, n: nat)
    requires 1 <= n <= |s|
    ensures multiset(s[..n]) == multiset(s[..n - 1]) + multiset{s[n - 1]}
  {
    assert s[..n] == s[..n - 1] + [s[n - 1]];
  }

  /** Placing a label adds it to exactly one list. */
  lemma PlacePartition<F(!new)>(c: Classes<F>, sf: F, lab: Label, iso: (F, F) -> bool)
    requires ValidClasses(c)
    requires forall K :: iso(K, K)
    ensures multiset(Flatten(Place(c, sf, lab, iso).keys, Place(c, sf, lab, iso).members))
      == multiset(Flatten(c.keys, c.members)) + multiset{lab}
  {
    match FirstIso(c.keys, sf, iso, 0)
    case Some(t) =>
      var k := c.keys[t];
      var c' := Place(c, sf, lab, iso);
      assert c'.keys == c.keys && c'.members == c.members[k := c.members[k] + [lab]];
      FlattenUpdate(c.keys, c.members, k, c.members[k] + [lab]);
      var before, mine := multiset(Flatten(c.keys, c.members)), multiset(c.members[k]);
      assert multiset(c.members[k] + [lab]) == mine + multiset{lab};
      assert multiset(Flatten(c'.keys, c'.members)) + mine == before + multiset{lab} + mine;
      MultisetCancel(multiset(Flatten(c'.keys, c'.members)), mine, before + multiset{lab});
    case None =>
      forall u | 0 <= u < |c.keys|
        ensures c.keys[u] != sf
      {
        assert iso(c.keys[u], c.keys[u]);
      }
      var m' := c.members[sf := [lab]];
      FlattenIrrelevant(c.keys, c.members, sf, [lab]);
      assert (c.keys + [sf])[..|c.keys|] == c.keys;
      assert Flatten(c.keys + [sf], m') == Flatten(c.keys, m') + [lab];
  }

  /** Changing the list of a key that is not listed changes nothing. */
  lemma {:induction false} FlattenIrrelevant<F>(keys: seq<F>, m: map<F, seq<Label>>, k: F, v: seq<Label>)
    requires forall x :: x in keys ==> x in m
    requires k !in keys
    ensures Flatten(keys, m[k := v]) == Flatten(keys, m)
  {
    if keys != [] {
      FlattenIrrelevant(keys[..|keys| - 1], m, k, v);
    }
  }

  /** Replacing the list of one listed key replaces its labels. */
  lemma {:induction false} FlattenUpdate<F>(keys: seq<F>, m: map<F, seq<Label>>, k: F, v: seq<Label>)
    requires forall x :: x in keys ==> x in m
    requires NoDups(keys) && k in keys
    ensures multiset(Flatten(keys, m[k := v])) + multiset(m[k]) == multiset(Flatten(keys, m)) + multiset(v)
  {
    var init, last := keys[..|keys| - 1], keys[|keys| - 1];
    var m' := m[k := v];
    assert NoDups(init);
    assert Flatten(keys, m') == Flatten(init, m') + m'[last];
    assert Flatten(keys, m) == Flatten(init, m) + m[last];
    if last == k {
      assert k !in init;
      FlattenIrrelevant(init, m, k, v);
      assert multiset(Flatten(keys, m')) == multiset(Flatten(init, m)) + multiset(v);
      assert multiset(Flatten(keys, m)) == multiset(Flatten(init, m)) + multiset(m[k]);
    } else {
      assert k in init;
      FlattenUpdate(init, m, k, v);
      assert m'[last] == m[last];
      assert multiset(Flatten(keys, m')) == multiset(Flatten(init, m')) + multiset(m[last]);
      assert multiset(Flatten(keys, m)) == multiset(Flatten(init, m)) + multiset(m[last]);
      MultisetShuffle(multiset(Flatten(init, m')), multiset(m[last]), multiset(m[k]),
        multiset(Flatten(init, m)), multiset(v));
    }
  }

  lemma MultisetShuffle<T>(x: multiset<T>, a: multiset<T>, b: multiset<T>, y: multiset<T>, v: multiset<T>)
    requires x + b == y + v
    ensures x + a + b == y + a + v
  {
    assert x + a + b == (x + b) + a;
    assert y + a + v == (y + v) + a;
  }

  lemma MultisetCancel<T>(x: multiset<T>, b: multiset<T>, y: multiset<T>)
    requires x + b == y + b
    ensures x == y
  {
    assert forall z :: x[z] == (x + b)[z] - b[z];
  }

  /* Emitting pairs. */

  /** The pair is left out: the curves are isogenous by an isogeny of degree
      prime to `p`. */
  predicate Skipped<F>(o: FieldOracle<F>, p: nat, a: Label, b: Label) {
    o.isogenous(a, b) && Gcd(o.isogenyDegree(a, b), p) == 1
  }

  /** `[v[i], v[j]]` for `i < j < b`, in order, without the skipped ones. */
  function Row<F>(o: FieldOracle<F>, p: nat, v: seq<Label>, i: nat, b: nat): seq<Pair>
    requires i < |v| && b <= |v|
    decreases b
  {
    if b <= i + 1 then []
    else
      var j := b - 1;
      Row(o, p, v, i, b - 1) + if Skipped(o, p, v[i], v[j]) then [] else [(v[i], v[j])]
  }

  lemma {:induction false} RowMembers<F>(o: FieldOracle<F>, p: nat, v: seq<Label>, i: nat, b: nat, pr: Pair)
    requires i < |v| && b <= |v|
    ensures pr in Row(o, p, v, i, b) <==>
      exists j :: i < j < b && pr == (v[i], v[j]) && !Skipped(o, p, v[i], v[j])
    decreases b
  {
    if b > i + 1 {
      RowMembers(o, p, v, i, b - 1, pr);
    }
  }

  /** The rows `i < a` of one list. */
  function Rows<F>(o: FieldOracle<F>, p: nat, v: seq<Label>, a: nat): seq<Pair>
    requires a <= |v|
  {
    if a == 0 then []
    else Rows(o, p, v, a - 1) + Row(o, p, v, a - 1, |v|)
  }

  lemma {:induction false} RowsMembers<F>(o: FieldOracle<F>, p: nat, v: seq<Label>, a: nat, pr: Pair)
    requires a <= |v|
    ensures pr in Rows(o, p, v, a) <==>
      exists i, j :: 0 <= i < a && i < j < |v| && pr == (v[i], v[j]) && !Skipped(o, p, v[i], v[j])
  {
    if a > 0 {
      RowsMembers(o, p, v, a - 1, pr);
      RowMembers(o, p, v, a - 1, |v|, pr);
      if pr in Rows(o, p, v, a - 1) {
        var i, j :| 0 <= i < a - 1 && i < j < |v| && pr == (v[i], v[j]) && !Skipped(o, p, v[i], v[j]);
        assert 0 <= i < a;
      } else if pr in Row(o, p, v, a - 1, |v|) {
        var j :| a - 1 < j < |v| && pr == (v[a - 1], v[j]) && !Skipped(o, p, v[a - 1], v[j]);
        assert 0 <= a - 1 < a;
      } else {
        forall i, j | 0 <= i < a && i < j < |v| && pr == (v[i], v[j])
          ensures Skipped(o, p, v[i], v[j])
        {
          if i == a - 1 {
            assert !(i < j < |v| && pr == (v[i], v[j]) && !Skipped(o, p, v[i], v[j]));
          }
        }
      }
    }
  }

  /** All the pairs one list of the dict contributes. */
  function ClassPairs<F>(o: FieldOracle<F>, p: nat, v: seq<Label>): seq<Pair> {
    Rows(o, p, v, |v|)
  }

  /** A pair comes from a list exactly when its labels stand at positions
      `i < j` of the list and the pair is not skipped. */
  lemma ClassPairsMembers<F>(o: FieldOracle<F>, p: nat, v: seq<Label>, pr: Pair)
    ensures pr in ClassPairs(o, p, v) <==>
      exists i, j :: 0 <= i < j < |v| && pr == (v[i], v[j]) && !Skipped(o, p, v[i], v[j])
  {
    RowsMembers(o, p, v, |v|, pr);
  }

  /** The guard `len(v) < 2` skips only lists that have no pairs anyway. */
  lemma SmallClassesEmitNothing<F>(o: FieldOracle<F>, p: nat, v: seq<Label>)
    requires |v| < 2
    ensures ClassPairs(o, p, v) == []
  {
    if |v| == 1 {
      assert Rows(o, p, v, 0) == [];
    }
  }

  /** The pairs of every list of the dict, in key order. */
  function AllPairs<F>(o: FieldOracle<F>, p: nat, keys: seq<F>, m: map<F, seq<Label>>): (r: seq<Pair>)
    requires forall k :: k in keys ==> k in m
  {
    if keys == [] then []
    else
      var last := keys[|keys| - 1];
      AllPairs(o, p, keys[..|keys| - 1], m) + if |m[last]| < 2 then [] else ClassPairs(o, p, m[last])
  }

  /** A pair is emitted exactly when its two labels stand at positions
      `i < j` of one list of the dict and are not skipped. */
  lemma {:induction false} AllPairsMembers<F>(o: FieldOracle<F>, p: nat, keys: seq<F>, m: map<F, seq<Label>>, pr: Pair)
    requires forall k :: k in keys ==> k in m
    ensures pr in AllPairs(o, p, keys, m) <==>
      exists k, i, j :: k in keys && 0 <= i < j < |m[k]| && pr == (m[k][i], m[k][j]) && !Skipped(o, p, m[k][i], m[k][j])
  {
    if keys != [] {
      var init, last := keys[..|keys| - 1], keys[|keys| - 1];
      AllPairsMembers(o, p, init, m, pr);
      if |m[last]| < 2 {
        SmallClassesEmitNothing(o, p, m[last]);
      }
      ClassPairsMembers(o, p, m[last], pr);
      assert forall k :: k in keys <==> k in init || k == last;
    }
  }

  /** What `pairs_mod_p_with_same_star_field(list, p)` returns or raises. */
  function StarFieldPairs<F(==,!new)>(labs: seq<Label>, o: FieldOracle<F>, p: nat): (r: Result<seq<Pair>>)
    ensures r.Ok? <==> labs != [] && HasStarFields(labs, o)
    ensures r == Err(IndexError) <==> labs == []
  {
    if labs == [] then Err(IndexError)
    else if !HasStarFields(labs, o) then Err(ValueError)
    else
      var c := Group(labs, o);
      Ok(AllPairs(o, p, c.keys, c.members))
  }

  /** `pairs_mod_p_with_same_star_field(list, p)`. */
  method PairsWithSameStarField<F(==,!new)>(labs: seq<Label>, o: FieldOracle<F>, p: nat)
    returns (r: Result<seq<Pair>>)
    ensures r == StarFieldPairs(labs, o, p)
  {
    if labs == [] {
      return Err(IndexError);
    }
    var c := BuildClasses(labs, o);
    if c.None? {
      return Err(ValueError);
    }
    var pairs := EmitPairs(o, p, c.value.keys, c.value.members);
    return Ok(pairs);
  }

  /** The grouping loop of `pairs_mod_p_with_same_star_field`; `None` when
      some curve has no star field. */
  method BuildClasses<F(==,!new)>(labs: seq<Label>, o: FieldOracle<F>) returns (r: Option<Classes<F>>)
    requires labs != []
    ensures r.None? <==> !HasStarFields(labs, o)
    ensures r.Some? ==> HasStarFields(labs, o) && r.value == Group(labs, o)
  {
    var sf0 := o.starField(labs[0]);
    if sf0.None? {
      return None;
    }
    var keys, dict := [sf0.value], map[sf0.value := [labs[0]]];
    for i := 1 to |labs|
      invariant StarFieldsUpTo(labs, o, i)
      invariant Classes(keys, dict) == GroupUpTo(labs, o, i)
    {
      var sf := o.starField(labs[i]);
      if sf.None? {
        return None;
      }
      keys, dict := PlaceStep(keys, dict, sf.value, labs[i], o.isomorphic);
    }
    return Some(Classes(keys, dict));
  }

  /** The body of the grouping loop: scan the keys in order for one whose
      field is isomorphic, append there and stop; otherwise add the key. */
  method PlaceStep<F(==,!new)>(keys: seq<F>, dict: map<F, seq<Label>>, sf: F, lab: Label, iso: (F, F) -> bool)
    returns (keys': seq<F>, dict': map<F, seq<Label>>)
    requires KeysListed(Classes(keys, dict))
    ensures Classes(keys', dict') == Place(Classes(keys, dict), sf, lab, iso)
  {
    keys', dict' := keys, dict;
    var flag := 0;
    var t := 0;
    while t < |keys|
      invariant t <= |keys|
      invariant forall u :: 0 <= u < t ==> !iso(keys[u], sf)
    {
      if iso(keys[t], sf) {
        dict' := dict'[keys[t] := dict'[keys[t]] + [lab]];
        flag := 1;
        break;
      }
      t := t + 1;
    }
    if flag == 0 {
      if sf !in dict' {
        keys' := keys' + [sf];
      }
      dict' := dict'[sf := [lab]];
    }
  }

  /** The emitting loops: for each list of two or more labels, every pair
      `i < j` that is not skipped, in order. */
  method EmitPairs<F>(o: FieldOracle<F>, p: nat, keys: seq<F>, dict: map<F, seq<Label>>) returns (pairs: seq<Pair>)
    requires forall k :: k in keys ==> k in dict
    ensures pairs == AllPairs(o, p, keys, dict)
  {
    pairs := [];
    for k := 0 to |keys|
      invariant pairs == AllPairs(o, p, keys[..k], dict)
    {
      assert keys[..k + 1][..k] == keys[..k];
      var v := dict[keys[k]];
      if |v| < 2 {
        continue;
      }
      var more := EmitClass(o, p, v);
      pairs := pairs + more;
    }
    assert keys[..|keys|] == keys;
  }

  /** The two inner loops over one list `v`. */
  method EmitClass<F>(o: FieldOracle<F>, p: nat, v: seq<Label>) returns (pairs: seq<Pair>)
    ensures pairs == ClassPairs(o, p, v)
  {
    pairs := [];
    for i := 0 to |v|
      invariant pairs == Rows(o, p, v, i)
    {
      for j := i + 1 to |v|
        invariant pairs == Rows(o, p, v, i) + Row(o, p, v, i, j)
      {
        if o.isogenous(v[i], v[j]) && Gcd(o.isogenyDegree(v[i], v[j]), p) == 1 {
          continue;
        }
        pairs := pairs + [(v[i], v[j])];
      }
    }
  }

  /* The calling loop. */

  /** Every index points into `ss`. */
  predicate IndicesIn(idx: seq<nat>, ss: seq<Label>) {
    forall t :: 0 <= t < |idx| ==> idx[t] < |ss|
  }

  /** `[ss[x] for x in idx]`. */
  function Select(ss: seq<Label>, idx: seq<nat>): (r: seq<Label>)
    requires IndicesIn(idx, ss)
    ensures |r| == |idx| && forall t :: 0 <= t < |idx| ==> r[t] == ss[idx[t]]
  {
    seq(|idx|, t requires 0 <= t < |idx| => ss[idx[t]])
  }

  /** Selecting, in increasing order, exactly the indices whose label passes
      `keep` is filtering the list by `keep`. */
  lemma {:induction false} SelectFilter(ss: seq<Label>, idx: seq<nat>, keep: Label -> bool)
    requires Increasing(idx)
    requires forall i: nat :: i in idx <==> i < |ss| && keep(ss[i])
    ensures IndicesIn(idx, ss)
    ensures Select(ss, idx) == Filter(ss, keep)
  {
    SelectedIndicesIn(ss, idx, keep);
    assert idx == [] || idx[0] < |ss|;
    if ss != [] {
      var n := |ss| - 1;
      if keep(ss[n]) {
        var idx' := KeptLast(ss, idx, keep);
        SelectFilter(ss[..n], idx', keep);
        SelectSnoc(ss, idx', n);
        assert Filter(ss, keep) == Filter(ss[..n], keep) + [ss[n]];
      } else {
        DroppedLast(ss, idx, keep);
        SelectFilter(ss[..n], idx, keep);
        SelectShrink(ss, idx);
        assert Filter(ss, keep) == Filter(ss[..n], keep);
      }
    }
  }

  lemma SelectedIndicesIn(ss: seq<Label>, idx: seq<nat>, keep: Label -> bool)
    requires forall i: nat :: i in idx <==> i < |ss| && keep(ss[i])
    ensures IndicesIn(idx, ss)
  {
    forall t | 0 <= t < |idx| ensures idx[t] < |ss| {
      assert idx[t] in idx;
    }
  }

  /** When the last label passes, its index ends `idx` and the rest of
      `idx` selects from the shorter list. */
  lemma KeptLast(ss: seq<Label>, idx: seq<nat>, keep: Label -> bool) returns (idx': seq<nat>)
    requires ss != [] && keep(ss[|ss| - 1])
    requires Increasing(idx)
    requires forall i: nat :: i in idx <==> i < |ss| && keep(ss[i])
    ensures idx == idx' + [|ss| - 1]
    ensures Increasing(idx')
    ensures forall i: nat :: i in idx' <==> i < |ss| - 1 && keep(ss[..|ss| - 1][i])
  {
    var n := |ss| - 1;
    SelectedIndicesIn(ss, idx, keep);
    LastIndex(idx, n, |ss|);
    var last := |idx| - 1;
    idx' := idx[..last];
    assert idx == idx' + [n];
    forall i: nat ensures i in idx' <==> i < n && keep(ss[..n][i]) {
      if i in idx' {
        var t :| 0 <= t < last && idx'[t] == i;
        assert idx[t] < idx[last];
      }
      if i < n && keep(ss[..n][i]) {
        assert i in idx;
        var t :| 0 <= t < |idx| && idx[t] == i;
        assert t != last;
      }
    }
  }

  /** When the last label fails, `idx` selects from the shorter list. */
  lemma DroppedLast(ss: seq<Label>, idx: seq<nat>, keep: Label -> bool)
    requires ss != [] && !keep(ss[|ss| - 1])
    requires forall i: nat :: i in idx <==> i < |ss| && keep(ss[i])
    ensures forall i: nat :: i in idx <==> i < |ss| - 1 && keep(ss[..|ss| - 1][i])
  {
  }

  lemma SelectSnoc(ss: seq<Label>, idx': seq<nat>, n: nat)
    requires n == |ss| - 1 && IndicesIn(idx', ss[..n])
    ensures IndicesIn(idx' + [n], ss)
    ensures Select(ss, idx' + [n]) == Select(ss[..n], idx') + [ss[n]]
  {
  }

  lemma SelectShrink(ss: seq<Label>, idx: seq<nat>)
    requires ss != [] && IndicesIn(idx, ss[..|ss| - 1])
    ensures IndicesIn(idx, ss)
    ensures Select(ss, idx) == Select(ss[..|ss| - 1], idx)
  {
  }

  /** In an increasing list of indices below `bound` that holds `bound - 1`,
      that index is the last one. */
  lemma LastIndex(idx: seq<nat>, k: nat, bound: nat)
    requires Increasing(idx) && k in idx && k + 1 == bound
    requires forall t :: 0 <= t < |idx| ==> idx[t] < bound
    ensures idx != [] && idx[|idx| - 1] == k
  {
    var t :| 0 <= t < |idx| && idx[t] == k;
  }

  /** The two halves of a kernel-field split select, in group order, the
      curves whose kernel field is isomorphic to that of the first curve and
      the others; between them they hold the group exactly once. */
  lemma SelectSplit(ss: seq<Label>, sameKernel: (Label, Label) -> bool, chi: seq<nat>, chip: seq<nat>)
    requires ss != [] && Reducible.KernelSplitOf(ss, sameKernel, chi, chip)
    ensures IndicesIn(chi, ss) && IndicesIn(chip, ss)
    ensures Select(ss, chi) == Filter(ss, lab => sameKernel(lab, ss[0]))
    ensures Select(ss, chip) == Filter(ss, lab => !sameKernel(lab, ss[0]))
    ensures multiset(Select(ss, chi)) + multiset(Select(ss, chip)) == multiset(ss)
  {
    var keep, drop := lab => sameKernel(lab, ss[0]), lab => !sameKernel(lab, ss[0]);
    SelectFilter(ss, chi, keep);
    SelectFilter(ss, chip, drop);
    FilterComplement(ss, keep, drop);
  }

  /** The indices of a split refer into their group. */
  ghost predicate ValidSplits(sets: seq<seq<Label>>, chis: seq<seq<nat>>, chips: seq<seq<nat>>) {
    |chis| == |sets| && |chips| == |sets|
    && forall i :: 0 <= i < |sets| ==> IndicesIn(chis[i], sets[i]) && IndicesIn(chips[i], sets[i])
  }

  /** Both halves of one kernel-field split are non-empty and every curve
      in them has a star field. */
  ghost predicate SplitPairable<F>(ss: seq<Label>, chi: seq<nat>, chip: seq<nat>, o: FieldOracle<F>)
    requires IndicesIn(chi, ss) && IndicesIn(chip, ss)
  {
    && chi != [] && HasStarFields(Select(ss, chi), o)
    && chip != [] && HasStarFields(Select(ss, chip), o)
  }

  /** The pairs of one split: those of the `chi` half, then those of the
      `chi'` half, or the first exception raised. */
  function SplitPairs<F(==,!new)>(ss: seq<Label>, chi: seq<nat>, chip: seq<nat>, o: FieldOracle<F>, p: nat)
    : (r: Result<seq<Pair>>)
    requires IndicesIn(chi, ss) && IndicesIn(chip, ss)
    ensures r.Ok? <==> SplitPairable(ss, chi, chip, o)
  {
    match StarFieldPairs(Select(ss, chi), o, p)
    case Err(e) => Err(e)
    case Ok(a) =>
      match StarFieldPairs(Select(ss, chip), o, p)
      case Err(e) => Err(e)
      case Ok(b) => Ok(a + b)
  }

  /** The body of the calling loop for one split. */
  method PairsOfSplit<F(==,!new)>(ss: seq<Label>, chi: seq<nat>, chip: seq<nat>, o: FieldOracle<F>, p: nat)
    returns (r: Result<seq<Pair>>)
    requires IndicesIn(chi, ss) && IndicesIn(chip, ss)
    ensures r == SplitPairs(ss, chi, chip, o, p)
  {
    var a := PairsWithSameStarField(Select(ss, chi), o, p);
    if a.Err? {
      return Err(a.error);
    }
    var b := PairsWithSameStarField(Select(ss, chip), o, p);
    if b.Err? {
      return Err(b.error);
    }
    return Ok(a.value + b.value);
  }

  /** What the calling loop has produced after `n` splits, split after
      split, or the first exception raised. */
  function ReduciblePairsSpec<F(==,!new)>(sets: seq<seq<Label>>, chis: seq<seq<nat>>, chips: seq<seq<nat>>,
                                         o: FieldOracle<F>, p: nat, n: nat): Result<seq<Pair>>
    requires ValidSplits(sets, chis, chips) && n <= |sets|
  {
    if n == 0 then Ok([])
    else
      match ReduciblePairsSpec(sets, chis, chips, o, p, n - 1)
      case Err(e) => Err(e)
      case Ok(ps) =>
        match SplitPairs(sets[n - 1], chis[n - 1], chips[n - 1], o, p)
        case Err(e) => Err(e)
        case Ok(ab) => Ok(ps + ab)
  }

  /** The loop over `isom_sets_red_sat_nonzero` that collects `pairs`. */
  method ReduciblePairs<F(==,!new)>(sets: seq<seq<Label>>, chis: seq<seq<nat>>, chips: seq<seq<nat>>,
                                   o: FieldOracle<F>, p: nat) returns (r: Result<seq<Pair>>)
    requires ValidSplits(sets, chis, chips)
    ensures r == ReduciblePairsSpec(sets, chis, chips, o, p, |sets|)
  {
    var pairs := [];
    for iss := 0 to |sets|
      invariant ReduciblePairsSpec(sets, chis, chips, o, p, iss) == Ok(pairs)
    {
      var next := ReduciblePairsStep(sets, chis, chips, o, p, iss, pairs);
      if next.Err? {
        ReduciblePairsErr(sets, chis, chips, o, p, iss + 1, |sets|);
        return next;
      }
      pairs := next.value;
    }
    r := Ok(pairs);
  }

  /** One pass of the calling loop: `pairs += ...` for both halves. */
  method ReduciblePairsStep<F(==,!new)>(sets: seq<seq<Label>>, chis: seq<seq<nat>>, chips: seq<seq<nat>>,
                                       o: FieldOracle<F>, p: nat, iss: nat, pairs: seq<Pair>)
    returns (r: Result<seq<Pair>>)
    requires ValidSplits(sets, chis, chips) && iss < |sets|
    requires ReduciblePairsSpec(sets, chis, chips, o, p, iss) == Ok(pairs)
    ensures r == ReduciblePairsSpec(sets, chis, chips, o, p, iss + 1)
  {
    var ab := PairsOfSplit(sets[iss], chis[iss], chips[iss], o, p);
    if ab.Err? {
      return Err(ab.error);
    }
    return Ok(pairs + ab.value);
  }

  /** Once an exception is raised, the loop stops with it. */
  lemma {:induction false} ReduciblePairsErr<F(!new)>(sets: seq<seq<Label>>, chis: seq<seq<nat>>, chips: seq<seq<nat>>,
                                                    o: FieldOracle<F>, p: nat, n: nat, m: nat)
    requires ValidSplits(sets, chis, chips) && n <= m <= |sets|
    requires ReduciblePairsSpec(sets, chis, chips, o, p, n).Err?
    ensures ReduciblePairsSpec(sets, chis, chips, o, p, m) == ReduciblePairsSpec(sets, chis, chips, o, p, n)
    decreases m
  {
    if m > n {
      ReduciblePairsErr(sets, chis, chips, o, p, n, m - 1);
    }
  }

  /** The calling loop raises exactly when some half of some split is empty
      or holds a curve without a star field. */
  lemma {:induction false} ReduciblePairsOk<F(!new)>(sets: seq<seq<Label>>, chis: seq<seq<nat>>, chips: seq<seq<nat>>,
                                                       o: FieldOracle<F>, p: nat, n: nat)
    requires ValidSplits(sets, chis, chips) && n <= |sets|
    ensures ReduciblePairsSpec(sets, chis, chips, o, p, n).Ok? <==>
      forall i :: 0 <= i < n ==> SplitPairable(sets[i], chis[i], chips[i], o)
  {
    if n > 0 {
      ReduciblePairsOk(sets, chis, chips, o, p, n - 1);
      SpecStepOk(sets, chis, chips, o, p, n);
      AllSplitsSnoc(sets, chis, chips, o, n);
    }
  }

  /** One more split succeeds exactly when both its halves can be paired. */
  lemma SpecStepOk<F(!new)>(sets: seq<seq<Label>>, chis: seq<seq<nat>>, chips: seq<seq<nat>>,
                            o: FieldOracle<F>, p: nat, n: nat)
    requires ValidSplits(sets, chis, chips) && 1 <= n <= |sets|
    ensures ReduciblePairsSpec(sets, chis, chips, o, p, n).Ok? <==>
      ReduciblePairsSpec(sets, chis, chips, o, p, n - 1).Ok? && SplitPairable(sets[n - 1], chis[n - 1], chips[n - 1], o)
  {
  }

  lemma AllSplitsSnoc<F(!new)>(sets: seq<seq<Label>>, chis: seq<seq<nat>>, chips: seq<seq<nat>>,
                               o: FieldOracle<F>, n: nat)
    requires ValidSplits(sets, chis, chips) && 1 <= n <= |sets|
    ensures (forall i :: 0 <= i < n ==> SplitPairable(sets[i], chis[i], chips[i], o)) <==>
      (forall i :: 0 <= i < n - 1 ==> SplitPairable(sets[i], chis[i], chips[i], o))
      && SplitPairable(sets[n - 1], chis[n - 1], chips[n - 1], o)
  {
  }
}
