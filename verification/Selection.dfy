/**
 * The per-event body of Runner6.cpp: skip the event unless it has exactly
 * one photon and at least two jets, pool every combination of 1 .. jetN/2
 * jets, split the jets into the chosen group (Z1) and the rest (Z2), and for
 * every split whose two invariant masses both lie strictly inside the Z window
 * record the mass of Z1 + Z2 in the histogram and count the match.
 *
 * The invariant mass is a parameter `mass`; the histogram is the list of the
 * values it was filled with.
 */
module Selection {
  import opened Lorentz
  import opened Combinations

  /** The Z boson mass and the half-width of the acceptance window. */
  const ZMass: real := 91.1876
  const Margin: real := 10.0

  /** One event as the loop reads it: how many photons, and the jets' four-vectors. */
  datatype Event = Event(photonCount: nat, jets: seq<Vec4>)

  /** The skip test: not exactly one photon, or fewer than two jets. */
  predicate Skipped(ev: Event)
  {
    ev.photonCount != 1 || |ev.jets| < 2
  }

  /** The window test on one mass, strict on both sides. */
  predicate InWindow(m: real)
  {
    ZMass - Margin < m && m < ZMass + Margin
  }

  // ---------------------------------------------------------------------------
  // The two groups of a split

  /** The indices below n that c lists, in ascending order. */
  function Listed(n: nat, c: seq<int>): seq<int>
  {
    if n == 0 then [] else Listed(n - 1, c) + (if n - 1 in c then [n - 1] else [])
  }

  /** The indices below n that c does not list, in ascending order: those the Z2 loop adds. */
  function Complement(n: nat, c: seq<int>): seq<int>
  {
    if n == 0 then [] else Complement(n - 1, c) + (if n - 1 in c then [] else [n - 1])
  }

  lemma {:induction false} ListedElements(n: nat, c: seq<int>)
    ensures IsCombination(Listed(n, c), n)
    ensures forall x :: x in Listed(n, c) <==> 0 <= x < n && x in c
  {
    if n > 0 {
      ListedElements(n - 1, c);
    }
  }

  /** Z2's indices: exactly those below n that the combination leaves out, ascending. */
  lemma {:induction false} ComplementElements(n: nat, c: seq<int>)
    ensures IsCombination(Complement(n, c), n)
    ensures forall x :: x in Complement(n, c) <==> 0 <= x < n && x !in c
  {
    if n > 0 {
      ComplementElements(n - 1, c);
    }
  }

  /** The listed and the unlisted indices below n have n entries together. */
  lemma {:induction false} SplitSizes(n: nat, c: seq<int>)
    ensures |Listed(n, c)| + |Complement(n, c)| == n
  {
    if n > 0 {
      SplitSizes(n - 1, c);
    }
  }

  /** A combination is the list of the indices it lists. */
  lemma CombinationIsListed(n: nat, c: seq<int>)
    requires IsCombination(c, n)
    ensures Listed(n, c) == c
  {
    ListedElements(n, c);
    SameElementsSame(Listed(n, c), c);
  }

  /** The complement of a combination is a combination that holds everything else. */
  lemma ComplementOfCombination(n: nat, c: seq<int>)
    requires IsCombination(c, n)
    ensures IsCombination(Complement(n, c), n)
    ensures |Complement(n, c)| == n - |c|
    ensures forall x :: 0 <= x < n ==> (x in c <==> x !in Complement(n, c))
  {
    ComplementElements(n, c);
    SplitSizes(n, c);
    CombinationIsListed(n, c);
  }

  /** Taking the complement twice gives the combination back. */
  lemma ComplementInvolution(n: nat, c: seq<int>)
    requires IsCombination(c, n)
    ensures Complement(n, Complement(n, c)) == c
  {
    var d := Complement(n, c);
    ComplementElements(n, c);
    ComplementElements(n, d);
    SameElementsSame(Complement(n, d), c);
  }

  /** The vectors at the listed indices added up in list order, starting from zero. */
  function SumOver(v: seq<Vec4>, c: seq<int>): Vec4
    requires InRange(c, |v|)
  {
    if c == [] then Zero else Add(SumOver(v, c[..|c| - 1]), v[c[|c| - 1]])
  }

  /** Appending one index adds one vector. */
  lemma SumOverSnoc(v: seq<Vec4>, c: seq<int>, x: int)
    requires InRange(c, |v|) && 0 <= x < |v|
    ensures InRange(c + [x], |v|)
    ensures SumOver(v, c + [x]) == Add(SumOver(v, c), v[x])
  {
    assert (c + [x])[..|c|] == c;
  }

  lemma {:induction false} SplitBelow(k: nat, c: seq<int>, n: nat)
    requires k <= n
    ensures InRange(Listed(k, c), n) && InRange(Complement(k, c), n)
  {
    if k > 0 {
      SplitBelow(k - 1, c, n);
    }
  }

  /** The first k jets whose index c lists (`listed`) or does not list, added in index order. */
  function SumWhere(v: seq<Vec4>, k: nat, c: seq<int>, listed: bool): Vec4
    requires k <= |v|
  {
    if k == 0 then Zero
    else if (k - 1 in c) == listed then Add(SumWhere(v, k - 1, c, listed), v[k - 1])
    else SumWhere(v, k - 1, c, listed)
  }

  /** Z1: the chosen jets, added in the order the combination lists them. */
  function GroupA(v: seq<Vec4>, c: seq<int>): Vec4
    requires InRange(c, |v|)
  {
    SumOver(v, c)
  }

  /** Z2: every jet the combination does not list, added in index order. */
  function GroupB(v: seq<Vec4>, c: seq<int>): Vec4
  {
    SumWhere(v, |v|, c, false)
  }

  /** Adding the listed indices in index order picks the same jets as `SumWhere`. */
  lemma {:induction false} SumListed(v: seq<Vec4>, k: nat, c: seq<int>)
    requires k <= |v|
    ensures InRange(Listed(k, c), |v|)
    ensures SumOver(v, Listed(k, c)) == SumWhere(v, k, c, true)
  {
    SplitBelow(k, c, |v|);
    if k > 0 {
      SumListed(v, k - 1, c);
      if k - 1 in c {
        SumOverSnoc(v, Listed(k - 1, c), k - 1);
      } else {
        assert Listed(k, c) == Listed(k - 1, c);
      }
    }
  }

  /** Adding the indices of the complement list picks the jets the Z2 loop adds. */
  lemma {:induction false} SumComplement(v: seq<Vec4>, k: nat, c: seq<int>)
    requires k <= |v|
    ensures InRange(Complement(k, c), |v|)
    ensures SumOver(v, Complement(k, c)) == SumWhere(v, k, c, false)
  {
    SplitBelow(k, c, |v|);
    if k > 0 {
      SumComplement(v, k - 1, c);
      if k - 1 !in c {
        SumOverSnoc(v, Complement(k - 1, c), k - 1);
      } else {
        assert Complement(k, c) == Complement(k - 1, c);
      }
    }
  }

  /** Two selections that pick the same indices below k add up the same jets. */
  lemma {:induction false} SumWhereAgree(v: seq<Vec4>, k: nat, c: seq<int>, b: bool, d: seq<int>, e: bool)
    requires k <= |v|
    requires forall x :: 0 <= x < k ==> ((x in c) == b <==> (x in d) == e)
    ensures SumWhere(v, k, c, b) == SumWhere(v, k, d, e)
  {
    if k > 0 {
      SumWhereAgree(v, k - 1, c, b, d, e);
    }
  }

  /** Over the first k jets, the listed and the unlisted ones add up to all of them. */
  lemma {:induction false} SplitSums(v: seq<Vec4>, k: nat, c: seq<int>)
    requires k <= |v|
    ensures Add(SumWhere(v, k, c, true), SumWhere(v, k, c, false)) == SumFirst(v, k)
  {
    if k > 0 {
      SplitSums(v, k - 1, c);
      AddRegroup(SumWhere(v, k - 1, c, true), SumWhere(v, k - 1, c, false), v[k - 1]);
    }
  }

  /** Z1 + Z2 is the sum of all the jets of the event, whatever the combination. */
  lemma GroupsPartition(v: seq<Vec4>, c: seq<int>)
    requires IsCombination(c, |v|)
    ensures Add(GroupA(v, c), GroupB(v, c)) == SumAll(v)
  {
    CombinationIsListed(|v|, c);
    SumListed(v, |v|, c);
    SplitSums(v, |v|, c);
  }

  /** The window test on both masses: the condition under which a split is recorded. */
  predicate Accepts(v: seq<Vec4>, c: seq<int>, mass: Vec4 -> real)
    requires InRange(c, |v|)
  {
    InWindow(mass(GroupA(v, c))) && InWindow(mass(GroupB(v, c)))
  }

  /** Swapping the groups changes nothing: a split and its complement are accepted together. */
  lemma AcceptsSymmetric(v: seq<Vec4>, c: seq<int>, mass: Vec4 -> real)
    requires IsCombination(c, |v|)
    ensures IsCombination(Complement(|v|, c), |v|)
    ensures GroupA(v, Complement(|v|, c)) == GroupB(v, c)
    ensures GroupB(v, Complement(|v|, c)) == GroupA(v, c)
    ensures Accepts(v, Complement(|v|, c), mass) <==> Accepts(v, c, mass)
  {
    var n, d := |v|, Complement(|v|, c);
    ComplementElements(n, c);
    SumComplement(v, n, c);
    CombinationIsListed(n, c);
    SumListed(v, n, c);
    SumWhereAgree(v, n, d, false, c, true);
  }

  /** A mass on either edge of the window is rejected; one just inside is not. */
  lemma WindowEdges()
    ensures !InWindow(ZMass - Margin) && !InWindow(ZMass + Margin)
    ensures InWindow(ZMass + Margin - 0.0001) && InWindow(ZMass - Margin + 0.0001)
  {
  }

  // ---------------------------------------------------------------------------
  // What an event records

  /** Every pooled entry is a combination of the event's jets. */
  predicate AllCombinations(pool: seq<seq<int>>, n: nat)
  {
    forall i :: 0 <= i < |pool| ==> IsCombination(pool[i], n)
  }

  lemma PoolAllCombinations(n: nat)
    ensures AllCombinations(Pool(n, n / 2), n)
  {
    forall i | 0 <= i < |Pool(n, n / 2)|
      ensures IsCombination(Pool(n, n / 2)[i], n)
    {
      PoolEntries(n, n / 2, i);
    }
  }

  /** The vector X the source fills the histogram with: zero plus Z1 + Z2. */
  function Candidate(v: seq<Vec4>, c: seq<int>): Vec4
    requires InRange(c, |v|)
  {
    Add(Zero, Add(GroupA(v, c), GroupB(v, c)))
  }

  /** The pooled entries that pass the window test, in pool order. */
  function Accepted(v: seq<Vec4>, pool: seq<seq<int>>, mass: Vec4 -> real): seq<seq<int>>
    requires AllCombinations(pool, |v|)
  {
    if pool == [] then []
    else
      var c := pool[|pool| - 1];
      Accepted(v, pool[..|pool| - 1], mass) + (if Accepts(v, c, mass) then [c] else [])
  }

  /** The histogram values for those entries, in the same order. */
  function Recorded(v: seq<Vec4>, pool: seq<seq<int>>, mass: Vec4 -> real): seq<real>
    requires AllCombinations(pool, |v|)
  {
    if pool == [] then []
    else
      var c := pool[|pool| - 1];
      Recorded(v, pool[..|pool| - 1], mass) + (if Accepts(v, c, mass) then [mass(Candidate(v, c))] else [])
  }

  /** What one event adds to the histogram. */
  function EventEntries(ev: Event, mass: Vec4 -> real): seq<real>
  {
    if Skipped(ev) then []
    else
      PoolAllCombinations(|ev.jets|);
      Recorded(ev.jets, Pool(|ev.jets|, |ev.jets| / 2), mass)
  }

  /** What a run over the events adds to the histogram, event by event. */
  function RunEntries(events: seq<Event>, mass: Vec4 -> real): seq<real>
  {
    if events == [] then []
    else RunEntries(events[..|events| - 1], mass) + EventEntries(events[|events| - 1], mass)
  }

  lemma AppendAssoc(a: seq<real>, b: seq<real>, c: seq<real>)
    ensures (a + b) + c == a + (b + c)
  {
  }

  lemma AllCombinationsPrefix(pool: seq<seq<int>>, n: nat, i: nat)
    requires AllCombinations(pool, n) && i <= |pool|
    ensures AllCombinations(pool[..i], n)
  {
  }

  /** Taking one more pooled entry records one more value exactly when that entry is accepted. */
  lemma RecordedStep(v: seq<Vec4>, pool: seq<seq<int>>, i: nat, mass: Vec4 -> real)
    requires AllCombinations(pool, |v|) && i < |pool|
    ensures AllCombinations(pool[..i], |v|) && AllCombinations(pool[..i + 1], |v|)
    ensures IsCombination(pool[i], |v|)
    ensures Recorded(v, pool[..i + 1], mass) == Recorded(v, pool[..i], mass) +
      (if Accepts(v, pool[i], mass) then [mass(Candidate(v, pool[i]))] else [])
  {
    AllCombinationsPrefix(pool, |v|, i);
    AllCombinationsPrefix(pool, |v|, i + 1);
    assert pool[..i + 1][..i] == pool[..i];
  }

  /** An entry is accepted exactly when it is pooled and passes the window test. */
  lemma {:induction false} AcceptedMembers(v: seq<Vec4>, pool: seq<seq<int>>, mass: Vec4 -> real, c: seq<int>)
    requires AllCombinations(pool, |v|)
    ensures c in Accepted(v, pool, mass) <==> c in pool && IsCombination(c, |v|) && Accepts(v, c, mass)
  {
    if pool != [] {
      var init := pool[..|pool| - 1];
      AcceptedMembers(v, init, mass, c);
      assert pool == init + [pool[|pool| - 1]];
    }
  }

  /** One histogram value per accepted entry, each the mass of that entry's X. */
  lemma {:induction false} RecordedFollowsAccepted(v: seq<Vec4>, pool: seq<seq<int>>, mass: Vec4 -> real)
    requires AllCombinations(pool, |v|)
    ensures |Recorded(v, pool, mass)| == |Accepted(v, pool, mass)|
    ensures forall i :: 0 <= i < |Accepted(v, pool, mass)| ==>
      IsCombination(Accepted(v, pool, mass)[i], |v|) &&
      Recorded(v, pool, mass)[i] == mass(Candidate(v, Accepted(v, pool, mass)[i]))
  {
    if pool != [] {
      RecordedFollowsAccepted(v, pool[..|pool| - 1], mass);
    }
  }

  /** Every value an event records is the mass of the sum of all its jets. */
  lemma {:induction false} RecordedIsTotalMass(v: seq<Vec4>, pool: seq<seq<int>>, mass: Vec4 -> real)
    requires AllCombinations(pool, |v|)
    ensures forall i :: 0 <= i < |Recorded(v, pool, mass)| ==> Recorded(v, pool, mass)[i] == mass(SumAll(v))
  {
    if pool != [] {
      var c := pool[|pool| - 1];
      RecordedIsTotalMass(v, pool[..|pool| - 1], mass);
      GroupsPartition(v, c);
    }
  }

  /**
   * A skipped event records nothing; any other event records what its pooled
   * combinations record.
   */
  lemma SkippedRecordsNothing(ev: Event, mass: Vec4 -> real)
    ensures Skipped(ev) ==> EventEntries(ev, mass) == []
    ensures AllCombinations(Pool(|ev.jets|, |ev.jets| / 2), |ev.jets|)
    ensures !Skipped(ev) ==> EventEntries(ev, mass) == Recorded(ev.jets, Pool(|ev.jets|, |ev.jets| / 2), mass)
  {
    PoolAllCombinations(|ev.jets|);
  }

  /**
   * An event that is not skipped fills the histogram once per accepted pooled
   * entry, and every value it fills with is the mass of the sum of all its jets.
   */
  lemma EventEntriesMeaning(ev: Event, mass: Vec4 -> real)
    ensures AllCombinations(Pool(|ev.jets|, |ev.jets| / 2), |ev.jets|)
    ensures !Skipped(ev) ==>
      |EventEntries(ev, mass)| == |Accepted(ev.jets, Pool(|ev.jets|, |ev.jets| / 2), mass)|
    ensures forall i :: 0 <= i < |EventEntries(ev, mass)| ==> EventEntries(ev, mass)[i] == mass(SumAll(ev.jets))
  {
    var n := |ev.jets|;
    PoolAllCombinations(n);
    RecordedFollowsAccepted(ev.jets, Pool(n, n / 2), mass);
    RecordedIsTotalMass(ev.jets, Pool(n, n / 2), mass);
  }

  /**
   * With an even number of jets, each way of splitting them in half is pooled
   * twice, once from each side, and the two entries are accepted together.
   */
  lemma EvenSplitPooledTwice(v: seq<Vec4>, c: seq<int>, mass: Vec4 -> real)
    requires |v| % 2 == 0 && |v| >= 2
    requires IsCombination(c, |v|) && |c| == |v| / 2
    ensures c in Pool(|v|, |v| / 2) && Complement(|v|, c) in Pool(|v|, |v| / 2)
    ensures c != Complement(|v|, c)
    ensures IsCombination(Complement(|v|, c), |v|)
    ensures Accepts(v, c, mass) <==> Accepts(v, Complement(|v|, c), mass)
  {
    var n := |v|;
    ComplementOfCombination(n, c);
    PoolContents(n, n / 2, c);
    PoolContents(n, n / 2, Complement(n, c));
    AcceptsSymmetric(v, c, mass);
    assert c[0] in c;
  }

  /** With an odd number of jets, the complement of a pooled entry is never pooled: each split once. */
  lemma OddSplitPooledOnce(n: nat, c: seq<int>)
    requires n % 2 == 1 && c in Pool(n, n / 2)
    ensures Complement(n, c) !in Pool(n, n / 2)
  {
    PoolContents(n, n / 2, c);
    ComplementOfCombination(n, c);
    PoolContents(n, n / 2, Complement(n, c));
  }

  /** Every pooled entry leaves at least one jet for each group. */
  lemma PooledSplitsNonEmpty(n: nat, c: seq<int>)
    requires n >= 2 && c in Pool(n, n / 2)
    ensures 1 <= |c| && 1 <= |Complement(n, c)|
  {
    PoolContents(n, n / 2, c);
    ComplementOfCombination(n, c);
  }

  /** An accepted even split is recorded twice, once as c and once as its complement. */
  lemma EvenSplitRecordedTwice(v: seq<Vec4>, c: seq<int>, mass: Vec4 -> real)
    requires |v| % 2 == 0 && |v| >= 2
    requires IsCombination(c, |v|) && |c| == |v| / 2 && Accepts(v, c, mass)
    ensures AllCombinations(Pool(|v|, |v| / 2), |v|)
    ensures c in Accepted(v, Pool(|v|, |v| / 2), mass)
    ensures Complement(|v|, c) in Accepted(v, Pool(|v|, |v| / 2), mass)
    ensures c != Complement(|v|, c)
  {
    var n := |v|;
    PoolAllCombinations(n);
    EvenSplitPooledTwice(v, c, mass);
    ComplementOfCombination(n, c);
    AcceptedMembers(v, Pool(n, n / 2), mass, c);
    AcceptedMembers(v, Pool(n, n / 2), mass, Complement(n, c));
  }

  // ---------------------------------------------------------------------------
  // The loops of the event body

  /** Lines 132-136: the jets' four-vectors copied into the array `jetsLV`. */
  method LoadJets(jets: seq<Vec4>) returns (jetsLV: array<Vec4>)
    ensures fresh(jetsLV) && jetsLV[..] == jets
  {
    jetsLV := new Vec4[|jets|](_ => Zero);
    for i := 0 to |jets|
      invariant jetsLV[..i] == jets[..i]
    {
      jetsLV[i] := jets[i];
    }
  }

  /** Lines 153-157: Z1, the chosen jets added in list order. */
  method SumGroup(jetsLV: array<Vec4>, c: seq<int>) returns (z1: Vec4)
    requires InRange(c, jetsLV.Length)
    ensures z1 == GroupA(jetsLV[..], c)
  {
    z1 := Zero;
    for j := 0 to |c|
      invariant z1 == SumOver(jetsLV[..], c[..j])
    {
      assert c[..j + 1][..j] == c[..j];
      z1 := Add(z1, jetsLV[c[j]]);
    }
    assert c[..|c|] == c;
  }

  /** Lines 159-166: Z2, every jet the combination does not hold, added in index order. */
  method SumRest(jetsLV: array<Vec4>, c: seq<int>) returns (z2: Vec4)
    ensures z2 == GroupB(jetsLV[..], c)
  {
    z2 := Zero;
    for j := 0 to jetsLV.Length
      invariant z2 == SumWhere(jetsLV[..], j, c, false)
    {
      if j !in c {
        z2 := Add(z2, jetsLV[j]);
      }
    }
  }

  /**
   * Lines 152-170 for one combination: build Z1 and Z2, apply the window test
   * to both, and give the mass of X = Z1 + Z2 that would be filled.
   */
  method TestCombination(jetsLV: array<Vec4>, c: seq<int>, mass: Vec4 -> real) returns (accepted: bool, m: real)
    requires InRange(c, jetsLV.Length)
    ensures accepted == Accepts(jetsLV[..], c, mass)
    ensures m == mass(Candidate(jetsLV[..], c))
  {
    var z1 := SumGroup(jetsLV, c);
    var z2 := SumRest(jetsLV, c);
    accepted := InWindow(mass(z1)) && InWindow(mass(z2));
    var x := Add(Zero, Add(z1, z2));
    m := mass(x);
  }

  /**
   * The histogram and the match counter that the event loop updates: `hist`
   * holds every value it was filled with, in order, and `properEvents` is
   * `proper_events`.
   */
  class Analysis {
    var hist: seq<real>
    var properEvents: nat

    /** Every match fills the histogram once and bumps the counter once. */
    predicate Valid()
      reads this
    {
      properEvents == |hist|
    }

    /** Line 69 and line 102: an empty histogram and a zero counter. */
    constructor ()
      ensures hist == [] && properEvents == 0 && Valid()
    {
      hist := [];
      properEvents := 0;
    }

    /**
     * Lines 121-176, one pass of the event loop: skip the event, or pool the
     * combinations and fill the histogram once for every accepted one.
     */
    method ProcessEvent(ev: Event, mass: Vec4 -> real)
      modifies this
      ensures hist == old(hist) + EventEntries(ev, mass)
      ensures properEvents == old(properEvents) + |EventEntries(ev, mass)|
      ensures old(Valid()) ==> Valid()
    {
      if ev.photonCount != 1 || |ev.jets| < 2 {
        return;
      }
      var jetN := |ev.jets|;
      var jetsLV := LoadJets(ev.jets);
      var combList := PoolCombinations(jetN);
      PoolAllCombinations(jetN);
      ghost var recorded: seq<real> := [];
      for i := 0 to |combList|
        invariant jetsLV[..] == ev.jets
        invariant AllCombinations(combList[..i], jetN)
        invariant recorded == Recorded(ev.jets, combList[..i], mass)
        invariant hist == old(hist) + recorded
        invariant properEvents == old(properEvents) + |recorded|
      {
        RecordedStep(ev.jets, combList, i, mass);
        var accepted, m := TestCombination(jetsLV, combList[i], mass);
        if accepted {
          AppendAssoc(old(hist), recorded, [m]);
          hist := hist + [m];
          properEvents := properEvents + 1;
          recorded := recorded + [m];
        } else {
          assert recorded + [] == recorded;
        }
      }
      assert combList[..|combList|] == combList;
    }

    /** Lines 109-177: every event in turn. */
    method Run(events: seq<Event>, mass: Vec4 -> real)
      modifies this
      ensures hist == old(hist) + RunEntries(events, mass)
      ensures properEvents == old(properEvents) + |RunEntries(events, mass)|
      ensures old(Valid()) ==> Valid()
    {
      ghost var recorded: seq<real> := [];
      for e := 0 to |events|
        invariant recorded == RunEntries(events[..e], mass)
        invariant hist == old(hist) + recorded
        invariant properEvents == old(properEvents) + |recorded|
      {
        assert events[..e + 1][..e] == events[..e];
        ProcessEvent(events[e], mass);
        AppendAssoc(old(hist), recorded, EventEntries(events[e], mass));
        recorded := recorded + EventEntries(events[e], mass);
      }
      assert events[..|events|] == events;
    }
  }
}
