# Runner6: Z-pair jet combinations, modelled in Dafny

Runner6.cpp is a ROOT/Delphes analysis macro that looks for an "X" particle
decaying to two Z bosons that decay to jets. For every event with exactly one
photon and at least two jets it does the following:

- It copies the jets' four-vectors into an array.
- It pools every combination of 1 .. jetN/2 jet indices, using `comb`. `comb` walks a 0/1 string
  backwards through its permutations with `std::prev_permutation`.
- Each pooled combination splits the jets into a group Z1 (the listed jets) and a
  group Z2 (all the others).
- If both invariant masses lie strictly inside `91.1876 ± 10.0`, it fills a histogram
  with the invariant mass of X = Z1 + Z2 and increments `proper_events`.

The model has three modules:

- `Combinations` (Combinations.dfy) models `comb` and the pooling loop.
  - The 0/1 string is a `Mask` (`seq<bool>`). `PrevPermutation` is the library step.
  - `SetPositions` and `Comb` are the inner loop and the do-while, written as methods.
  - `SetPositions` is proved against `Positions`. The lemma `PositionsOfOnes` says what
    `Positions` holds.
  - `Comb` is proved to append `Combinations(n, k)`. That list is defined through
    `MaskAt(n, k, i)`, the i-th largest mask with k ones.
  - Lemmas show what that list is: every ascending k-subset of `0 .. n-1`, each exactly
    once, in ascending lexicographic order. They also show that `std::prev_permutation`
    steps to the immediate predecessor and wraps around at the smallest mask.
- `Lorentz` (Lorentz.dfy) models the four-vector values: `TLorentzVector` as far as
  addition goes.
- `Selection` (Selection.dfy) models the per-event body.
  - It covers the skip test, the Z1 and Z2 loops, and the window test.
  - The histogram and the counter live in the class `Analysis`. Its methods `ProcessEvent`
    (one pass of the event loop) and `Run` (the event loop) update them in place.
  - Both methods are proved against `EventEntries` and `RunEntries`: the values filled,
    in order. The lemmas beside them say which splits are accepted. They also show that:
    - the two groups always add up to the sum of all jets;
    - a split and its complement pass or fail together;
    - with an even jet count, every half-half split is pooled twice and, when
      accepted, recorded twice.

The invariant mass `TLorentzVector::M()` is a parameter `mass: Vec4 -> real` of
the selection, so every statement holds for any mass function. Four-vector
components are exact reals.

## Model

| member | source | states |
|---|---|---|
| Combinations.MaskAtFirst | Runner6.cpp:46-47 | The starting string (r ones, then N-r zeros) is `MaskAt(n, k, 0)`, the largest arrangement of k ones among n places. There is at least one arrangement. |
| Combinations.PrevPermutationShape | Runner6.cpp:58 | A step of `prev_permutation` keeps the string's length and its number of ones, so it only rearranges the string. |
| Combinations.PrevPermutationOrder | Runner6.cpp:58 | The step returns true exactly when the string is not already the smallest arrangement. When true, the new string is strictly smaller. When false, it has wrapped around to the largest arrangement. |
| Combinations.PrevPermutationIsPredecessor | Runner6.cpp:58 | When the step returns true, no arrangement with the same length and number of ones lies strictly between the new string and the old one: the step goes to the immediate predecessor. |
| Combinations.PrevPermutationWrapsAround | Runner6.cpp:48-58 | From the smallest arrangement the step returns false and restores the starting string. |
| Combinations.PrevPermutationWalk | Runner6.cpp:48-58 | From the i-th largest arrangement, the step returns true exactly when an (i+1)-th exists, and then yields it. So the do-while visits every arrangement once, largest first. |
| Combinations.MaskAtShape | Runner6.cpp:46-58 | Every visited string has length n and exactly k ones. |
| Combinations.MaskAtDescending | Runner6.cpp:48-58 | Later strings of the walk are strictly smaller than earlier ones. |
| Combinations.MaskAtComplete | Runner6.cpp:48-58 | Every string of length n with k ones is visited, at some position of the walk. |
| Combinations.BinomPositive | Runner6.cpp:46-58 | The number of arrangements is positive exactly when k <= n. |
| Combinations.PositionsOfOnes | Runner6.cpp:49-56 | The list built from a string holds exactly the positions of its ones. The list is ascending and in range. |
| Combinations.PositionsReverseOrder | Runner6.cpp:49-58 | Of two strings with the same number of ones, the smaller one yields the lexicographically larger position list. So walking down the strings lists the combinations upwards. |
| Combinations.SetPositions | Runner6.cpp:49-56 | The loop returns the positions of the ones of the string, in index order. |
| Combinations.Comb | Runner6.cpp:44-59 | `comb(N, r, combList)` leaves the existing entries in place and appends `Combinations(N, min(r, N))`. The min is because `resize` truncates a string longer than N. |
| Combinations.CombinationsValid | Runner6.cpp:44-59 | Every appended list has exactly k entries, all distinct indices below n, in ascending order. |
| Combinations.CombinationsAscending | Runner6.cpp:44-59 | The appended lists are pairwise distinct and in strictly ascending lexicographic order. |
| Combinations.CombinationsComplete | Runner6.cpp:44-59 | Every ascending list of distinct indices below n is appended by `comb(n, length)`. |
| Combinations.CombinationsMembership | Runner6.cpp:44-59 | A list is appended by `comb(n, k)` if and only if it is an ascending list of k distinct indices below n. |
| Combinations.PoolCombinations | Runner6.cpp:139-143 | The pooling loop produces `Pool(n, n/2)`: the output of `comb(n, 1)`, then `comb(n, 2)`, and so on up to `comb(n, n/2)`. |
| Combinations.PoolEntries | Runner6.cpp:139-143 | Every pooled entry is an ascending list of distinct jet indices, with between 1 and n/2 entries. |
| Combinations.PoolOrdered | Runner6.cpp:139-143 | The pool is ordered by size first, then lexicographically within one size. |
| Combinations.PoolDistinct | Runner6.cpp:139-143 | No index list is pooled twice. |
| Combinations.PoolContents | Runner6.cpp:139-143 | A list is pooled if and only if it is an ascending list of distinct indices below n with between 1 and n/2 entries. |
| Selection.SkippedRecordsNothing | Runner6.cpp:121-143 | An event without exactly one photon, or with fewer than two jets, adds nothing. Any other event adds exactly what its pooled combinations record. |
| Selection.LoadJets | Runner6.cpp:128-136 | The new array `jetsLV` holds the event's jets, in order. |
| Selection.SumGroup | Runner6.cpp:152-157 | Z1 is the sum of the jets the combination lists, starting from a zero vector. |
| Selection.SumRest | Runner6.cpp:159-166 | Z2 is the sum of every jet whose index the combination does not hold, in index order. |
| Selection.ComplementElements | Runner6.cpp:159-166 | Z2's indices are ascending and distinct. They are exactly the indices below jetN that are absent from the combination. |
| Selection.ComplementOfCombination | Runner6.cpp:159-166 | The complement of a combination is a combination. Its size is jetN minus the combination's size. An index is in exactly one of the two. |
| Selection.ComplementInvolution | Runner6.cpp:159-166 | The complement of the complement is the combination itself. |
| Selection.SplitSizes | Runner6.cpp:153-166 | Over jetN indices, the listed and the unlisted indices number jetN together. |
| Selection.GroupsPartition | Runner6.cpp:152-171 | For any combination, Z1 + Z2 is the sum of all the event's jets. |
| Selection.AcceptsSymmetric | Runner6.cpp:152-168 | Swapping a combination for its complement swaps Z1 and Z2. The split passes the window test exactly when the swapped one does. |
| Selection.WindowEdges | Runner6.cpp:97-98 | The window is open: masses of exactly 81.1876 and 101.1876 are rejected, while masses just inside are accepted. |
| Selection.TestCombination | Runner6.cpp:152-172 | For one combination: `accepted` is the window test on both groups, and `m` is the mass of X = 0 + (Z1 + Z2). |
| Selection.AcceptedMembers | Runner6.cpp:150-176 | A combination is accepted if and only if it is pooled and both its groups pass the window test. |
| Selection.RecordedFollowsAccepted | Runner6.cpp:150-176 | One histogram value per accepted combination, in pool order. Each value is the mass of that combination's X. |
| Selection.RecordedIsTotalMass | Runner6.cpp:171-172 | Every value the histogram is filled with is the mass of the sum of all the event's jets. |
| Selection.EventEntriesMeaning | Runner6.cpp:121-176 | An event that is not skipped adds one value per accepted combination. Every value it adds is the mass of the sum of all its jets. |
| Selection.EvenSplitPooledTwice | Runner6.cpp:139-168 | With an even jet count, a half-half split is pooled once as c and once as its complement, and these are different lists. The two pass or fail the window test together. |
| Selection.EvenSplitRecordedTwice | Runner6.cpp:139-176 | With an even jet count, an accepted half-half split is accepted twice, as c and as its complement. |
| Selection.OddSplitPooledOnce | Runner6.cpp:139-143 | With an odd jet count, the complement of a pooled entry is never pooled, so each split is evaluated once. |
| Selection.PooledSplitsNonEmpty | Runner6.cpp:139-166 | With at least two jets, every pooled split leaves at least one jet in each group. |
| Selection.Analysis.constructor | Runner6.cpp:69-102 | The histogram starts empty and `proper_events` starts at 0. |
| Selection.Analysis.ProcessEvent | Runner6.cpp:118-176 | One pass of the event loop appends the event's values to the histogram, in order. The counter grows by the number of values appended. Counter and histogram stay in step. |
| Selection.Analysis.Run | Runner6.cpp:109-177 | The event loop appends every event's values, event by event. The counter grows by the total number of values. |

## Left out

- Reading the Delphes file is not modelled: `TChain`, `ExRootTreeReader`, `ReadEntry` and the unused branches. An event is a value holding its photon count and its jets' four-vectors (`Jet::P4()`).
- Progress and summary output is not modelled (lines 105-106, 111-115, 181-186). Neither is the memory released at the end (lines 188-189). This includes `Draw()`.
- Selection.Analysis.Run: the progress test at line 112 computes `entry % (allEntries/100)`. With 1 to 99 events the divisor is 0, so the integer modulo by zero aborts the macro on its first iteration, before any event is read or the histogram is filled. `Run` models the event loop as if that test were guarded, for example with a divisor of at least 1. For 1 to 99 events its contract therefore describes a run the source does not complete.
- The final percentage divides by `allEntries` (line 183). This is not modelled, because it only feeds the printed output.
- `sample_percent` is not modelled: the model processes every event it is given (lines 99-100).
- `TLorentzVector::M()` is not defined here: it is the parameter `mass`. Floating point is not modelled either: four-vectors have exact real components. As a result, the order in which Z1 and Z2 are summed cannot change a result, as it could in double precision.
- Selection.Analysis.ProcessEvent: the histogram is the sequence of values it was filled with. The 150 bins over 0-3000 and the underflow and overflow bins are not modelled (line 69).
- Selection.Analysis.ProcessEvent: `proper_events` is a `nat`. Wrap-around of the 32-bit `int` after 2^31 - 1 matches is not modelled.
- Combinations.Comb: N and r are natural numbers. A negative r or N would make the `std::string` constructor or `resize` throw; the pooling loop never passes one.
- `std::find` over the combination (line 161) is modelled as sequence membership.
