/** The reducible case of ComputePairs.py up to the kernel-field split:
    saturating each set of possibly congruent curves with their isogeny
    classes (`saturate_list`), dropping the curves whose mod-p
    representation looks like it has a zero upper-right entry
    (`remove_star_zero_cases`), putting back those the exact test clears,
    and splitting each set by the kernel field of a p-isogeny. The tests
    on curves (isogeny classes, the quick and the exact star test, kernel
    field isomorphism) are given as functions. */
module Reducible {
  import opened Base
  import opened Arith
  import opened Labels

  /* Saturation. */

  /** The labels of the curves in a list. */
  function LabelSet(curves: seq<Curve>): set<Label> {
    set E | E in curves :: Elabel(E)
  }

  /** The labels of a group together with the labels of every curve in the
      isogeny class of each of them. */
  function Saturation(isog: seq<Label>, isogenyClass: Label -> seq<Curve>): set<Label> {
    Elems(isog) + set lab, E | lab in isog && E in isogenyClass(lab) :: Elabel(E)
  }

  /** The inner loops of `saturate_list` for one group: start from the
      group's labels and add the label of every curve in the class of every
      member; then `list(saturated)`. */
  method SaturateGroup(isog: seq<Label>, isogenyClass: Label -> seq<Curve>) returns (r: seq<Label>)
    ensures NoDups(r)
    ensures Elems(r) == Saturation(isog, isogenyClass)
  {
    var saturated := Elems(isog);
    for k := 0 to |isog|
      invariant saturated == Elems(isog) + set lab, E | lab in isog[..k] && E in isogenyClass(lab) :: Elabel(E)
    {
      var lab := isog[k];
      var curves := isogenyClass(lab);
      ghost var before := saturated;
      for m := 0 to |curves|
        invariant saturated == before + set E | E in curves[..m] :: Elabel(E)
      {
        assert curves[..m + 1] == curves[..m] + [curves[m]];
        saturated := saturated + {Elabel(curves[m])};
      }
      assert curves[..|curves|] == curves;
      assert isog[..k + 1] == isog[..k] + [lab];
    }
    assert isog[..|isog|] == isog;
    r := SetToSeq(saturated);
  }

  /** `saturate_list(ss)`: one duplicate-free saturated list per group. */
  method SaturateList(ss: seq<seq<Label>>, isogenyClass: Label -> seq<Curve>) returns (r: seq<seq<Label>>)
    ensures |r| == |ss|
    ensures forall i :: 0 <= i < |ss| ==> NoDups(r[i]) && Elems(r[i]) == Saturation(ss[i], isogenyClass)
  {
    r := [];
    for i := 0 to |ss|
      invariant |r| == i
      invariant forall j :: 0 <= j < i ==> NoDups(r[j]) && Elems(r[j]) == Saturation(ss[j], isogenyClass)
    {
      var saturated := SaturateGroup(ss[i], isogenyClass);
      r := r + [saturated];
    }
  }

  /** Isogeny classes are closed: the class of a curve in the class of
      `lab` has no labels outside the class of `lab`. */
  ghost predicate ClassesClosed(isogenyClass: Label -> seq<Curve>) {
    forall lab, E :: E in isogenyClass(lab) ==> LabelSet(isogenyClass(Elabel(E))) <= LabelSet(isogenyClass(lab))
  }

  /** With closed classes, saturating a saturated group adds nothing. */
  lemma SaturationIdempotent(isog: seq<Label>, r: seq<Label>, isogenyClass: Label -> seq<Curve>)
    requires ClassesClosed(isogenyClass)
    requires forall lab :: lab in isog ==> lab in LabelSet(isogenyClass(lab))
    requires Elems(r) == Saturation(isog, isogenyClass)
    ensures Saturation(r, isogenyClass) == Saturation(isog, isogenyClass)
  {
    var S := Saturation(isog, isogenyClass);
    forall y, E | y in r && E in isogenyClass(y)
      ensures Elabel(E) in S
    {
      if y !in isog {
        var lab, E0 :| lab in isog && E0 in isogenyClass(lab) && Elabel(E0) == y;
        assert Elabel(E) in LabelSet(isogenyClass(Elabel(E0)));
        assert Elabel(E) in LabelSet(isogenyClass(lab));
      }
    }
  }

  /* Star-zero filtering. */

  /** The labels the quick star test at prime limit `lim` does not flag,
      in order. */
  function Alive(ss: seq<Label>, looksZero: (Label, nat) -> bool, lim: nat): (r: seq<Label>)
    ensures forall lab :: lab in r <==> lab in ss && !looksZero(lab, lim)
  {
    if ss == [] then []
    else
      var init, last := ss[..|ss| - 1], ss[|ss| - 1];
      assert forall lab :: lab in ss <==> lab in init || lab == last;
      Alive(init, looksZero, lim) + if looksZero(last, lim) then [] else [last]
  }

  /** `remove_star_zero_cases_singleList(ss, p, prLim)`. */
  method AliveAt(ss: seq<Label>, looksZero: (Label, nat) -> bool, lim: nat) returns (alive: seq<Label>)
    ensures alive == Alive(ss, looksZero, lim)
  {
    alive := [];
    for k := 0 to |ss|
      invariant alive == Alive(ss[..k], looksZero, lim)
    {
      assert ss[..k + 1][..k] == ss[..k];
      if !looksZero(ss[k], lim) {
        alive := alive + [ss[k]];
      }
    }
    assert ss[..|ss|] == ss;
  }

  /** The prime limits of the re-checks: `lim, 2 * lim, 4 * lim, ...` while
      below 1000. */
  function Rechecks(lim: nat): (ks: seq<nat>)
    requires lim >= 1
    ensures forall i :: 0 <= i < |ks| ==> lim <= ks[i] < 1000
    decreases 1000 - lim
  {
    if lim >= 1000 then [] else [lim] + Rechecks(2 * lim)
  }

  /** The `i`-th limit is `lim * 2^i`, and the schedule stops at the first
      doubling that reaches 1000. */
  lemma RechecksDoubling(lim: nat)
    requires lim >= 1
    ensures forall i :: 0 <= i < |Rechecks(lim)| ==> Rechecks(lim)[i] == lim * Pow(2, i)
    ensures lim * Pow(2, |Rechecks(lim)|) >= 1000
  {
    forall i | 0 <= i < |Rechecks(lim)| ensures Rechecks(lim)[i] == lim * Pow(2, i) {
      RechecksAt(lim, i);
    }
    RechecksEnd(lim);
  }

  lemma {:induction false} RechecksAt(lim: nat, i: nat)
    requires lim >= 1 && i < |Rechecks(lim)|
    ensures Rechecks(lim)[i] == lim * Pow(2, i)
    decreases i
  {
    if i > 0 {
      RechecksAt(2 * lim, i - 1);
      DoubleShift(lim, i);
    }
  }

  lemma {:induction false} RechecksEnd(lim: nat)
    requires lim >= 1
    ensures lim * Pow(2, |Rechecks(lim)|) >= 1000
    decreases 1000 - lim
  {
    if lim < 1000 {
      RechecksEnd(2 * lim);
      DoubleShift(lim, |Rechecks(lim)|);
    }
  }

  lemma DoubleShift(lim: nat, i: nat)
    requires i >= 1
    ensures lim * Pow(2, i) == (2 * lim) * Pow(2, i - 1)
  {
    var q := Pow(2, i - 1);
    assert Pow(2, i) == 2 * q;
    MulAssoc(lim, 2, q);
  }

  /** With the default `prLim = 50` the re-checks use 100, 200, 400, 800. */
  lemma DefaultRechecks()
    ensures Rechecks(2 * 50) == [100, 200, 400, 800]
  {
    assert Rechecks(1600) == [];
    assert Rechecks(800) == [800];
    assert Rechecks(400) == [400, 800];
    assert Rechecks(200) == [200, 400, 800];
  }

  /** Every limit of the schedule flags the label. */
  predicate FlaggedAt(lab: Label, looksZero: (Label, nat) -> bool, ks: seq<nat>) {
    forall i :: 0 <= i < |ks| ==> looksZero(lab, ks[i])
  }

  /** All limits tried for a group: the first pass, then the re-checks. */
  function Schedule(prLim: nat): seq<nat>
    requires prLim >= 1
  {
    [prLim] + Rechecks(2 * prLim)
  }

  /** What `remove_star_zero_cases` promises of one group: the kept and the
      removed labels split the group; a label is removed exactly when every
      limit of the schedule flags it; the first-pass survivors come first. */
  ghost predicate StarZeroSplit(isog: seq<Label>, kept: seq<Label>, removed: seq<Label>,
                          looksZero: (Label, nat) -> bool, prLim: nat)
    requires prLim >= 1
  {
    && Elems(kept) !! Elems(removed)
    && Elems(kept) + Elems(removed) == Elems(isog)
    && NoDups(removed)
    && (forall lab :: lab in removed <==> lab in isog && FlaggedAt(lab, looksZero, Schedule(prLim)))
    && Alive(isog, looksZero, prLim) <= kept
  }

  /** The body of the loop of `remove_star_zero_cases` for one group. */
  method RemoveStarZeroGroup(isog: seq<Label>, looksZero: (Label, nat) -> bool, prLim: nat)
    returns (kept: seq<Label>, removed: seq<Label>)
    requires prLim >= 1
    ensures StarZeroSplit(isog, kept, removed, looksZero, prLim)
  {
    kept, removed := Recheck([], isog, looksZero, prLim);
    var newPrLim := prLim * 2;
    ghost var tried: seq<nat> := [prLim];
    forall lab
      ensures FlaggedAt(lab, looksZero, tried) <==> looksZero(lab, prLim)
    {
      assert |tried| == 1 && tried[0] == prLim;
    }
    while removed != [] && newPrLim < 1000
      invariant newPrLim >= 1
      invariant tried + Rechecks(newPrLim) == Schedule(prLim)
      invariant forall lab :: lab in removed <==> lab in isog && FlaggedAt(lab, looksZero, tried)
      invariant NoDups(removed)
      invariant Elems(kept) !! Elems(removed) && Elems(kept) + Elems(removed) == Elems(isog)
      invariant Alive(isog, looksZero, prLim) <= kept
      decreases 1000 - newPrLim
    {
      kept, removed := Recheck(kept, removed, looksZero, newPrLim);
      FlaggedSnoc(looksZero, tried, newPrLim);
      ScheduleStep(tried, newPrLim, prLim);
      tried := tried + [newPrLim];
      newPrLim := newPrLim * 2;
    }
    forall lab | lab in isog && FlaggedAt(lab, looksZero, Schedule(prLim))
      ensures lab in removed
    {
      FlaggedPrefix(lab, looksZero, tried, Rechecks(newPrLim));
    }
  }

  /** One pass of the quick test over the labels still in doubt: the
      survivors join the kept labels (`filtered_isog += survivor`), and the
      flagged ones stay in doubt (`list(Set(removed) - Set(survivor))`). */
  method Recheck(kept: seq<Label>, removed: seq<Label>, looksZero: (Label, nat) -> bool, lim: nat)
    returns (kept': seq<Label>, removed': seq<Label>)
    requires Elems(kept) !! Elems(removed)
    ensures kept' == kept + Alive(removed, looksZero, lim)
    ensures forall lab :: lab in removed' <==> lab in removed && looksZero(lab, lim)
    ensures NoDups(removed')
    ensures Elems(kept') !! Elems(removed')
    ensures Elems(kept') + Elems(removed') == Elems(kept) + Elems(removed)
  {
    var survivor := AliveAt(removed, looksZero, lim);
    kept' := kept + survivor;
    removed' := SetToSeq(Elems(removed) - Elems(survivor));
  }

  lemma ScheduleStep(tried: seq<nat>, lim: nat, prLim: nat)
    requires prLim >= 1 && 1 <= lim < 1000
    requires tried + Rechecks(lim) == Schedule(prLim)
    ensures (tried + [lim]) + Rechecks(lim * 2) == Schedule(prLim)
  {
    assert Rechecks(lim) == [lim] + Rechecks(lim * 2);
    assert (tried + [lim]) + Rechecks(lim * 2) == tried + ([lim] + Rechecks(lim * 2));
  }

  lemma FlaggedSnoc(looksZero: (Label, nat) -> bool, ks: seq<nat>, k: nat)
    ensures forall lab :: FlaggedAt(lab, looksZero, ks + [k]) <==> FlaggedAt(lab, looksZero, ks) && looksZero(lab, k)
  {
    forall lab
      ensures FlaggedAt(lab, looksZero, ks + [k]) <==> FlaggedAt(lab, looksZero, ks) && looksZero(lab, k)
    {
      if FlaggedAt(lab, looksZero, ks) && looksZero(lab, k) {
        forall i | 0 <= i < |ks + [k]|
          ensures looksZero(lab, (ks + [k])[i])
        {
          if i < |ks| {
            assert (ks + [k])[i] == ks[i];
          }
        }
      }
      if FlaggedAt(lab, looksZero, ks + [k]) {
        assert looksZero(lab, (ks + [k])[|ks|]);
        forall i | 0 <= i < |ks|
          ensures looksZero(lab, ks[i])
        {
          assert (ks + [k])[i] == ks[i];
        }
      }
    }
  }

  lemma FlaggedPrefix(lab: Label, looksZero: (Label, nat) -> bool, ks: seq<nat>, more: seq<nat>)
    requires FlaggedAt(lab, looksZero, ks + more)
    ensures FlaggedAt(lab, looksZero, ks)
  {
    forall i | 0 <= i < |ks|
      ensures looksZero(lab, ks[i])
    {
      assert (ks + more)[i] == ks[i];
    }
  }

  /** `remove_star_zero_cases(ss, p, prLim)`: per group, the labels kept and
      the labels still possibly zero. A non-positive `prLim` never reaches
      1000 by doubling, so the source demands a positive one. */
  method RemoveStarZeroCases(ss: seq<seq<Label>>, looksZero: (Label, nat) -> bool, prLim: nat)
    returns (filtered: seq<seq<Label>>, possible: seq<seq<Label>>)
    requires prLim >= 1
    ensures |filtered| == |ss| && |possible| == |ss|
    ensures forall i :: 0 <= i < |ss| ==> StarZeroSplit(ss[i], filtered[i], possible[i], looksZero, prLim)
  {
    filtered, possible := [], [];
    for i := 0 to |ss|
      invariant |filtered| == i && |possible| == i
      invariant forall j :: 0 <= j < i ==> StarZeroSplit(ss[j], filtered[j], possible[j], looksZero, prLim)
    {
      var kept, removed := RemoveStarZeroGroup(ss[i], looksZero, prLim);
      filtered := filtered + [kept];
      possible := possible + [removed];
    }
  }

  /** The labels the exact test clears, in order. */
  function Cleared(labs: seq<Label>, reallyZero: Label -> bool): (r: seq<Label>)
    ensures forall lab :: lab in r <==> lab in labs && !reallyZero(lab)
  {
    if labs == [] then []
    else
      var init, last := labs[..|labs| - 1], labs[|labs| - 1];
      assert forall lab :: lab in labs <==> lab in init || lab == last;
      Cleared(init, reallyZero) + if reallyZero(last) then [] else [last]
  }

  /** The loop after `remove_star_zero_cases`: every possibly-zero label
      that the exact test clears is appended to its group. */
  method RestoreNonzero(nonzero: seq<seq<Label>>, possible: seq<seq<Label>>, reallyZero: Label -> bool)
    returns (r: seq<seq<Label>>)
    requires |possible| == |nonzero|
    ensures |r| == |nonzero|
    ensures forall i :: 0 <= i < |r| ==> r[i] == nonzero[i] + Cleared(possible[i], reallyZero)
  {
    r := nonzero;
    for i := 0 to |nonzero|
      invariant |r| == |nonzero|
      invariant forall j :: 0 <= j < i ==> r[j] == nonzero[j] + Cleared(possible[j], reallyZero)
      invariant forall j :: i <= j < |r| ==> r[j] == nonzero[j]
    {
      var group := RestoreGroup(r[i], possible[i], reallyZero);
      r := r[i := group];
    }
  }

  /** The inner loop: the cleared labels of one group's possibly-zero list
      are appended to the group, in order. */
  method RestoreGroup(group0: seq<Label>, possible: seq<Label>, reallyZero: Label -> bool)
    returns (group: seq<Label>)
    ensures group == group0 + Cleared(possible, reallyZero)
  {
    group := group0;
    for k := 0 to |possible|
      invariant group == group0 + Cleared(possible[..k], reallyZero)
    {
      var lab := possible[k];
      assert possible[..k + 1][..k] == possible[..k];
      if !reallyZero(lab) {
        group := group + [lab];
      }
    }
    assert possible[..|possible|] == possible;
  }

  /** Filtering and restoring together: a label of a saturated group is
      dropped exactly when every quick test flags it and the exact test
      confirms that its star is zero; nothing else enters the group, and
      the labels still possibly zero are the flagged ones. */
  method NonzeroSets(ss: seq<seq<Label>>, looksZero: (Label, nat) -> bool,
                     reallyZero: Label -> bool, prLim: nat)
    returns (nonzero: seq<seq<Label>>, possible: seq<seq<Label>>)
    requires prLim >= 1
    ensures |nonzero| == |ss| && |possible| == |ss|
    ensures forall i, lab :: 0 <= i < |ss| ==>
      (lab in nonzero[i] <==> lab in ss[i] && !(FlaggedAt(lab, looksZero, Schedule(prLim)) && reallyZero(lab)))
    ensures forall i, lab :: 0 <= i < |ss| ==>
      (lab in possible[i] <==> lab in ss[i] && FlaggedAt(lab, looksZero, Schedule(prLim)))
  {
    var filtered;
    filtered, possible := RemoveStarZeroCases(ss, looksZero, prLim);
    nonzero := RestoreNonzero(filtered, possible, reallyZero);
    forall i, lab | 0 <= i < |ss|
      ensures lab in nonzero[i] <==> lab in ss[i] && !(FlaggedAt(lab, looksZero, Schedule(prLim)) && reallyZero(lab))
    {
      assert StarZeroSplit(ss[i], filtered[i], possible[i], looksZero, prLim);
      assert lab in ss[i] <==> lab in Elems(filtered[i]) + Elems(possible[i]);
    }
  }

  /* The kernel-field split. */

  /** What the split of one group promises: the indices of the group, in
      increasing order, divided between `chi` (kernel field isomorphic to
      that of the first curve) and `chip` (the rest). */
  ghost predicate KernelSplitOf(ss: seq<Label>, sameKernel: (Label, Label) -> bool, chi: seq<nat>, chip: seq<nat>)
    requires ss != []
  {
    && Increasing(chi) && Increasing(chip)
    && (forall i: nat :: i in chi <==> i < |ss| && sameKernel(ss[i], ss[0]))
    && (forall i: nat :: i in chip <==> i < |ss| && !sameKernel(ss[i], ss[0]))
  }

  /** The split of one group (the body of the loop over
      `isom_sets_red_sat_nonzero`). `None` is the `IndexError` an empty
      group raises at `isogenies[0]`. */
  method KernelSplit(ss: seq<Label>, sameKernel: (Label, Label) -> bool)
    returns (r: Option<(seq<nat>, seq<nat>)>)
    ensures r.None? <==> ss == []
    ensures r.Some? ==> ss != [] && KernelSplitOf(ss, sameKernel, r.value.0, r.value.1)
    ensures r.Some? && sameKernel(ss[0], ss[0]) ==> 0 in r.value.0
  {
    if ss == [] {
      return None;
    }
    var chi: seq<nat>, chip: seq<nat> := [], [];
    for i := 0 to |ss|
      invariant Increasing(chi) && Increasing(chip)
      invariant forall j :: 0 <= j < |chi| ==> chi[j] < i
      invariant forall j :: 0 <= j < |chip| ==> chip[j] < i
      invariant forall j: nat :: j in chi <==> j < i && sameKernel(ss[j], ss[0])
      invariant forall j: nat :: j in chip <==> j < i && !sameKernel(ss[j], ss[0])
    {
      if sameKernel(ss[i], ss[0]) {
        chi := chi + [i];
      } else {
        chip := chip + [i];
      }
    }
    r := Some((chi, chip));
  }

  /** Every index lands in exactly one of the two lists. */
  lemma KernelSplitPartition(ss: seq<Label>, sameKernel: (Label, Label) -> bool, chi: seq<nat>, chip: seq<nat>)
    requires ss != [] && KernelSplitOf(ss, sameKernel, chi, chip)
    ensures Elems(chi) !! Elems(chip)
    ensures forall i: nat :: i in chi || i in chip <==> i < |ss|
    ensures |chi| + |chip| == |ss|
  {
    var A, B := Elems(chi), Elems(chip);
    assert A !! B;
    assert A + B == Range(|ss|);
    IncreasingNoDups(chi);
    IncreasingNoDups(chip);
    NoDupsCard(chi);
    NoDupsCard(chip);
    DisjointCard(A, B);
  }

  lemma DisjointCard(A: set<nat>, B: set<nat>)
    requires A !! B
    ensures |A + B| == |A| + |B|
  {
    assert A * B == {};
  }

  /** The indices `0 .. n - 1`. */
  function Range(n: nat): (r: set<nat>)
    ensures forall i: nat :: i in r <==> i < n
    ensures |r| == n
  {
    if n == 0 then {} else Range(n - 1) + {n - 1}
  }

  /** The split of every group; `None` when some group is empty. */
  method KernelSplitAll(sets: seq<seq<Label>>, sameKernel: (Label, Label) -> bool)
    returns (r: Option<(seq<seq<nat>>, seq<seq<nat>>)>)
    ensures r.None? <==> exists i :: 0 <= i < |sets| && sets[i] == []
    ensures r.Some? ==> |r.value.0| == |sets| && |r.value.1| == |sets|
    ensures r.Some? ==> forall i :: 0 <= i < |sets| ==>
      sets[i] != [] && KernelSplitOf(sets[i], sameKernel, r.value.0[i], r.value.1[i])
  {
    var chis, chips := [], [];
    for i := 0 to |sets|
      invariant |chis| == i && |chips| == i
      invariant forall j :: 0 <= j < i ==> sets[j] != [] && KernelSplitOf(sets[j], sameKernel, chis[j], chips[j])
    {
      var split := KernelSplit(sets[i], sameKernel);
      if split.None? {
        return None;
      }
      chis := chis + [split.value.0];
      chips := chips + [split.value.1];
    }
    r := Some((chis, chips));
  }
}
