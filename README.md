# ComputePairs in Dafny

`ComputePairs.py` builds lists of pairs of elliptic curves whose mod-5 Galois
representations may be isomorphic, and saves them as Magma source files. This
project models its decision and bookkeeping layer. Every piece of arithmetic
geometry is a function-typed parameter (an oracle): traces of Frobenius,
twists, reduction types, isogenies, kernel and star fields, field isomorphism
and the star-zero tests. What the script computes from the oracles' answers is
modelled exactly, and the properties it relies on are proved.

The modules follow the script's stages:

- `Base` (`base.dfy`) holds shared vocabulary: labels, `Option`, list filtering, `list(set)`, gcd/lcm, primality and powers.
- `Arith` (`arith.dfy`) holds the number theory behind the testing bound of `test_cong`: prime supports, Euclid's lemma, valuations and the Dedekind psi function as an exact integer.
- `Labels` (`labels.dfy`) covers `SW_label` and `Elabel`. It includes a reader that recovers conductor and coefficients from a Stein-Watkins label.
- `Hashing` (`hashing.dfy`) covers `hash1`, `make_hash` and the bucket filter that follows it.
- `Congruence` (`congruence.dfy`) covers `test_cong`: the twist step, the Kraus level and bound, the prime-by-prime scan and the escalation to a tagged verdict.
- `Reducible` (`reducible.dfy`) covers `saturate_list`, `remove_star_zero_cases(_singleList)`, the restoration loop after it, and the χ/χ' kernel-field split.
- `StarField` (`starfield.dfy`) covers `pairs_mod_p_with_same_star_field` and the loop that calls it on each half of each split.
- `Writers` (`writers.dfy`) covers the two writers of `pairs := [ ... ];` files. It includes a reader that recovers the pairs once Magma's line continuations are removed.

The loops of the script are `method`s with loop invariants. Each is proved
equal to a specification function or to satisfy a relational specification
(a predicate relating its inputs and results), and the lemmas state what those
specifications mean. Python dicts are a map together with their key order, because
Python 3 dicts iterate in insertion order. Exceptions the script can raise are
`Option`/`Result` values.

## Model

| member | source | states |
|---|---|---|
| Labels.Elabel | ComputePairs.py:20-24 | the database label when the curve has one; otherwise a Stein-Watkins label that reads back as the curve's conductor and coefficients |
| Labels.SWRoundTrip | ComputePairs.py:16-17 | `".".join([str(N), str(ainvs)])` reads back as exactly `(N, ainvs)` |
| Labels.SWLabelInjective | ComputePairs.py:16-17 | two curves with the same Stein-Watkins label have the same conductor and coefficients |
| Labels.JoinRoundTrip | ComputePairs.py:17 | the text `str` gives a tuple of integers (comma and space between them) reads back as that tuple |
| Labels.IntRoundTrip | ComputePairs.py:17 | `str` of an integer, sign included, reads back as that integer |
| Labels.NatRoundTrip | ComputePairs.py:17 | the decimal digits of a natural number have that number as value |
| Labels.SWLabelQuotable | ComputePairs.py:16-17 | a Stein-Watkins label contains no double quote and no backslash, so the writers can quote it |
| Hashing.Residues | ComputePairs.py:146 | one residue per sample prime, each in `[0, p)` |
| Hashing.Hash1 | ComputePairs.py:145-147 | the fingerprint is below `p^len(qlist)` |
| Hashing.PowerSumBound | ComputePairs.py:147 | a sum of digits below `p` times powers of `p` stays below `p^n` |
| Hashing.PowerSumHorner | ComputePairs.py:147 | the sum in index order equals Horner's form `h[0] + p * (rest)` |
| Hashing.BaseDigitsOfPowerSum | ComputePairs.py:147 | the base-`p` digits of the sum are the summed digits: nothing is lost |
| Hashing.HashDigits | ComputePairs.py:145-147 | digit `i` of the fingerprint is `a_{q_i}(E) mod p` |
| Hashing.HashEqualIff | ComputePairs.py:145-147 | two fingerprints are equal exactly when the traces agree mod `p` at every sample prime |
| Hashing.SamplePrimes | ComputePairs.py:151-153 | `plist` starts at `next_prime(400000)`, each entry is the next prime after the one before, and it has `max(np, 1)` entries |
| Hashing.MakeHash | ComputePairs.py:150-173 | returns the sample primes, `nc` equal to the number of curves, dict keys in first-appearance order, each key's list equal to its bucket, and `ns` equal to the number of lists longer than one |
| Hashing.FillTable | ComputePairs.py:154-166 | after the curve loop the dict holds, for each fingerprint seen, the labels with that fingerprint in processing order; the keys are the distinct fingerprints in first-appearance order |
| Hashing.FileCurve | ComputePairs.py:158-166 | one turn of the loop appends the label to its fingerprint's list, creating the list (and the key, last) when the fingerprint is new |
| Hashing.FirstSeen | ComputePairs.py:162-166 | the dict's key order has no repeats and holds exactly the fingerprints seen |
| Hashing.CountNontrivial | ComputePairs.py:167-170 | `ns` is the number of lists longer than one |
| Hashing.CurveInOwnBucket | ComputePairs.py:159-166 | every processed label is in the list of its own fingerprint |
| Hashing.BucketSizesSum | ComputePairs.py:155-166 | the list lengths sum to the number of curves, so each curve is in exactly one list |
| Hashing.SameResiduesSameBucket | ComputePairs.py:157-166 | curves whose traces agree mod `p` at the sample primes share a list |
| Hashing.NontrivialBuckets | ComputePairs.py:324-327 | the filtered dict keeps exactly the keys whose list is longer than one, with their lists unchanged; its key order, which `.values()` follows, is the original insertion order with the other keys dropped, without repeats |
| Hashing.NontrivialOrder | ComputePairs.py:324-327 | of two kept keys, the one inserted first into `hashtab` comes first in the filtered dict |
| Hashing.NontrivialCount | ComputePairs.py:324 | the filtered dict has exactly `ns` keys |
| Arith.Support | ComputePairs.py:67 | `n.support()` holds exactly the primes dividing `n`, increasing |
| Arith.PsiFacts | ComputePairs.py:72-73 | `mu` is an integer, at least `M`, and `int(mu/6)` is the floor of `M * prod(l+1) / (6 * prod(l))` |
| Base.Lcm | ComputePairs.py:71 | `lcm(a, b)` is a positive common multiple of `a` and `b` |
| Arith.LcmLeast | ComputePairs.py:71 | `lcm(a, b)` divides every positive common multiple of `a` and `b`, so it is the least one |
| Congruence.TwistStep | ComputePairs.py:45-66 | without `twist` nothing changes; when the twisted `E2` passes conductor 400000, curves and conductors revert; `N2` is always the conductor of the `E2` kept; a curve other than the original `E2` is kept only within the bound |
| Congruence.TwistConductors | ComputePairs.py:45-66 | if twisting by 1 keeps the conductor, both conductors are those of the curves kept |
| Congruence.ExceptionalPrimes | ComputePairs.py:67-70 | `S` holds exactly the primes of `gcd(N1, N2)` where one curve is split and the other non-split multiplicative |
| Congruence.ExceptionalPrimesDistinct | ComputePairs.py:67-70 | `S1` and `S2` share no prime when no curve is both split and non-split at one prime |
| Congruence.KrausLevel | ComputePairs.py:71 | `M` is a positive multiple of `N1`, `N2` and every prime of `S` |
| Congruence.SturmBound | ComputePairs.py:72-73 | `mu6` is `floor(mu / 6)` and `M <= 6 * mu6 + 5` |
| Congruence.Limit | ComputePairs.py:76-78 | the bound tested is `min(mu6, mumax)` |
| Congruence.FirstFailure | ComputePairs.py:82-93 | the least prime in range that refutes the congruence, or none when no prime in range does |
| Congruence.NotFailsAt | ComputePairs.py:84-85 | `p` itself and non-primes never refute the congruence |
| Congruence.FirstFailureSame | ComputePairs.py:82-93 | two setups refuted at the same primes have the same first failure |
| Congruence.Conclusion | ComputePairs.py:98-128 | the verdict is a tag, and it holds exactly when `semisimp`, or the p-isogeny counts agree and are not 1, or they are 1 with equal image types and both conductors at most once divisible by `p`; differing counts give `(False, "nn")` |
| Congruence.ConclusionSymmetric | ComputePairs.py:103-128 | the escalation gives the same verdict with the curves swapped |
| Congruence.TestCong | ComputePairs.py:31-128 | the scan loop, with its early returns, returns the specified verdict and sets the warning flag as specified |
| Congruence.TestCongMeaning | ComputePairs.py:76-95 | a counterexample is returned exactly when some prime below the capped bound refutes the congruence; it is the least such prime with its two traces, and no warning is printed; otherwise the verdict is the escalation's, and the warning is printed exactly when `mu6 > mumax` |
| Congruence.TestCongSymmetric | ComputePairs.py:67-128 | without the twist step, swapping the curves keeps the verdict, the warning and the refuting prime |
| Base.SetToSeq | ComputePairs.py:265 | `list(S)` has no repeats and holds exactly the elements of `S` |
| Reducible.SaturateGroup | ComputePairs.py:259-265 | one group's list has no repeats and holds exactly its labels and the labels of every curve in the isogeny class of each of them |
| Reducible.SaturateList | ComputePairs.py:253-266 | one such list per input group, in order |
| Reducible.SaturationIdempotent | ComputePairs.py:253-266 | with closed isogeny classes, saturating a saturated group adds nothing |
| Reducible.Alive | ComputePairs.py:269-275 | a label survives the quick test at one limit exactly when it is in the list and not flagged |
| Reducible.AliveAt | ComputePairs.py:269-275 | the loop keeps the unflagged labels in order |
| Reducible.Rechecks | ComputePairs.py:288-293 | every limit tried from `lim` on lies in `[lim, 1000)` (the doubling itself is `RechecksDoubling`) |
| Reducible.RechecksDoubling | ComputePairs.py:288-293 | the `i`-th limit tried is `lim * 2^i`, and the schedule ends at the first doubling that reaches 1000 |
| Reducible.DefaultRechecks | ComputePairs.py:288-293 | with `prLim = 50` the re-checks use 100, 200, 400 and 800 |
| Reducible.Recheck | ComputePairs.py:290-292 | survivors are appended after the kept labels; the labels left in doubt are exactly the flagged ones, without repeats; the two lists stay disjoint and cover the same labels |
| Reducible.RemoveStarZeroGroup | ComputePairs.py:286-295 | kept and removed are disjoint and cover the group; a label is removed exactly when every limit of the schedule flags it; the first-pass survivors come first |
| Reducible.RemoveStarZeroCases | ComputePairs.py:277-296 | one kept list and one removed list per group, each pair split as above |
| Reducible.Cleared | ComputePairs.py:393-399 | a label is cleared exactly when it is possibly zero and the exact test says its star is not zero |
| Reducible.RestoreGroup | ComputePairs.py:393-399 | the cleared labels are appended to the group, in order |
| Reducible.RestoreNonzero | ComputePairs.py:391-399 | each group becomes itself followed by its cleared labels, and the number of groups is unchanged |
| Reducible.NonzeroSets | ComputePairs.py:390-399 | a label leaves its group exactly when every quick test flags it and the exact test confirms a zero star; the possibly-zero list holds exactly the flagged labels |
| Reducible.KernelSplit | ComputePairs.py:414-426 | an empty group raises `IndexError`; otherwise both index lists are increasing, `chi` holds exactly the indices whose kernel field is isomorphic to the first one's, `chip` the others, and index 0 is in `chi` when the test is reflexive |
| Reducible.KernelSplitPartition | ComputePairs.py:420-424 | every index of the group is in exactly one of the two lists |
| Reducible.KernelSplitAll | ComputePairs.py:413-426 | one split per group, or `None` (the `IndexError`) exactly when some group is empty |
| StarField.FirstIso | ComputePairs.py:439-443 | the first key isomorphic to the new field, with no isomorphic key before it, or none |
| StarField.Place | ComputePairs.py:436-445 | placing a label keeps every key listed, and adds at most its own field as the last key |
| StarField.PlaceValid | ComputePairs.py:436-445 | placing a label keeps the keys distinct and equal to the dict's keys |
| StarField.GroupUpToValid | ComputePairs.py:435-445 | the dict built from the first labels has distinct keys, in step with its entries |
| StarField.PlacePartition | ComputePairs.py:436-445 | with a reflexive isomorphism test, placing a label adds it to exactly one list |
| StarField.GroupPartition | ComputePairs.py:435-445 | with a reflexive isomorphism test, the lists together hold every input label exactly as often as it occurs |
| StarField.RowMembers | ComputePairs.py:450-455 | row `i` holds exactly the pairs `(v[i], v[j])`, `j > i`, that are not skipped |
| StarField.RowsMembers | ComputePairs.py:449-455 | the first rows hold exactly the unskipped pairs `(v[i], v[j])` with `i < j` and `i` among them |
| StarField.ClassPairsMembers | ComputePairs.py:449-455 | a list emits exactly its unskipped pairs at positions `i < j` |
| StarField.SmallClassesEmitNothing | ComputePairs.py:447-448 | a list with fewer than two labels has no pairs, so skipping it loses nothing |
| StarField.AllPairsMembers | ComputePairs.py:446-455 | a pair is emitted exactly when it stands at positions `i < j` of one list of the dict and is not skipped |
| StarField.StarFieldPairs | ComputePairs.py:433-456 | an empty list raises `IndexError`; otherwise the call raises `ValueError` exactly when some curve has no star field, and succeeds otherwise |
| StarField.PairsWithSameStarField | ComputePairs.py:433-456 | the function returns the specified pairs or exception |
| StarField.BuildClasses | ComputePairs.py:435-445 | the grouping loop fails exactly when some curve has no star field, and otherwise builds the specified dict |
| StarField.PlaceStep | ComputePairs.py:437-445 | the scan with `flag` and `break` places the label as specified |
| StarField.EmitPairs | ComputePairs.py:446-455 | the emitting loops return the specified pairs, key after key |
| StarField.EmitClass | ComputePairs.py:449-455 | the two inner loops emit the specified pairs of one list |
| StarField.SelectFilter | ComputePairs.py:461 | selecting the increasing list of exactly the indices whose label passes a test is the same as filtering the group by that test, in group order |
| StarField.SelectSplit | ComputePairs.py:461-463 | for a kernel-field split, `curves_with_chi_fld` is exactly the group's curves whose kernel field is isomorphic to the first curve's, in group order, and `curves_with_chip_fld` is the others; together the two lists hold the group's labels exactly once (equal multisets) |
| StarField.SplitPairs | ComputePairs.py:460-464 | one split succeeds exactly when both halves are non-empty and all their curves have star fields |
| StarField.PairsOfSplit | ComputePairs.py:460-464 | the body of the calling loop returns the pairs of `chi`, then those of `chi'`, or the first exception |
| StarField.ReduciblePairsStep | ComputePairs.py:459-464 | one pass extends `pairs` as specified |
| StarField.ReduciblePairs | ComputePairs.py:458-464 | the calling loop returns the specified pairs or the first exception |
| StarField.ReduciblePairsErr | ComputePairs.py:458-464 | once an exception is raised, later splits do not change the outcome |
| StarField.ReduciblePairsOk | ComputePairs.py:458-464 | the loop succeeds exactly when both halves of every split are non-empty and all their curves have star fields |
| Writers.WriteReducible | ComputePairs.py:466-473 | the writing loop produces the specified file text |
| Writers.ReducibleRoundTrip | ComputePairs.py:466-473 | with continuations removed, the file is `pairs := [`, the entries separated by commas, then `];`, and it reads back as exactly the pairs in order (the empty list included) |
| Writers.StripRedLines | ComputePairs.py:468-472 | the written lines, continuations removed, are the entries each followed by a comma except the last |
| Writers.JoinedRoundTrip | ComputePairs.py:468-472 | comma-separated entries read back as the pairs |
| Writers.EntryRoundTrip | ComputePairs.py:469 | one entry `["a", "b"]` reads back as `(a, b)` and reading stops right after it |
| Writers.FileRoundTrip | ComputePairs.py:467-473 | opening, comma-separated entries and closing line read back as the pairs |
| Writers.WriteIrreducible | ComputePairs.py:359-369 | the writing loops produce the specified file text |
| Writers.WriteGroup | ComputePairs.py:362-367 | the inner loop writes the entries `[s[0], s[j]]`, `j >= 1`, of one group |
| Writers.EntryStep | ComputePairs.py:365-367 | writing entry `j` and its comma extends the group's entries by one |
| Writers.FanAt | ComputePairs.py:365 | pair `j - 1` of a group is `(s[0], s[j])` |
| Writers.GroupListed | ComputePairs.py:362-367 | a group's entries continue the comma-separated listing of all pairs, with a comma after its last entry exactly when pairs follow |
| Writers.StripIrredLines | ComputePairs.py:361-368 | when every group has two or more labels, the lines written for the first groups, continuations removed, are the listing of their pairs |
| Writers.IrreducibleRoundTrip | ComputePairs.py:359-369 | when every group has two or more labels, the file reads back as the pairs `[s[0], s[j]]`, group after group, with commas only between entries |
| Writers.TrailingSingletonDangles | ComputePairs.py:366 | a last group with a single label would leave a comma before `];`, and the file would not read back; the filter at line 324 rules such groups out |

## Left out

- The oracles are parameters, and their mathematics is not modelled. They are:
  - traces `E.ap`, twists and conductors of twisted curves;
  - reduction types, `isogenies_prime_degree`, `image_type` and `isogeny_class`;
  - `is_isogenous` and `isogeny_degree`, and `next_prime`;
  - the star-zero tests `check_if_star_is_zero` and `is_star_really_zero`;
  - the kernel fields and `is_isomorphic` for them, `EC_star_field` and `field_isomorphism`.

  Whether Kraus's bound suffices is not verified.
- `check_if_star_is_zero` takes the number of primes, `prLim`; it is the oracle `looksZero(lab, lim)`. The magma session and the string round trip are not modelled.
- An `IndexError` from `isogenies_prime_degree(p)[0]` on a curve with no p-isogeny (line 415) is not modelled. Only an empty group raises there; a curve's kernel-field answer is whatever the oracle says.
- `test_irred`, the irreducible/reducible split of the buckets (lines 334-335) and the `bad_pairs` check (lines 345-357) are not modelled. They are script glue between the modelled stages.
- I/O is not modelled: `load`/`save` checkpoints, opening and closing files, `tqdm`, and every `print`, including `report` and the verbose messages of `test_cong`. The writers return the text they would write. `make_hash` returns the count `ns` that it prints, and `test_cong` returns whether it printed the capped-bound warning.
- The order in which Python enumerates a set is not modelled. `list(saturated)` and `list(Set(...))` are some duplicate-free enumeration, and the contracts state only set-level facts about them.
- `Reducible.RemoveStarZeroCases` requires `prLim >= 1`. For a non-positive `prLim` the doubling never reaches 1000, and the source loops as long as some label stays flagged.
- `StarField.ReduciblePairs` returns only the exception when a later half raises. The source has already extended `pairs` by then, but the exception ends the script, so the partial list is never seen.
- `Congruence.TestCongSymmetric` claims swap symmetry only without the twist step (`twist = false`). The script's default `twist=True` twists by the minimal twist of `E1` alone (lines 45-66), so swapping the curves changes which curve is twisted and the verdict can differ.
- Labels returned by the database are `Option` values in the curve record. Their format is not modelled beyond being quotable where the writers need it.
