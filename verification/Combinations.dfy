/**
 * The combination generator `comb` of Runner6.cpp and the loop that pools its
 * output for r = 1 .. jetN/2.
 *
 * `comb(N, r, combList)` keeps a string of N characters, r of them 1 and the
 * rest 0, starting from 1..10..0.  It walks that string backwards through its
 * permutations with std::prev_permutation and, for every string it visits,
 * appends the ascending list of positions that hold a 1.
 *
 * Here the string is a `Mask` (true is the character 1), the library step is
 * `PrevPermutation`, the inner loop is `SetPositions` and the do-while loop is
 * `Comb`.  `MaskAt(n, k, i)` is the i-th largest mask of length n with k
 * ones; the walk is proved to start at `MaskAt(n, k, 0)` (= `Highest(k, n)`),
 * to step from each `MaskAt(n, k, i)` to the next and to stop after the last,
 * so `Combinations` (the lists `comb` appends) holds every size-k subset of
 * 0 .. n-1 exactly once, in ascending lexicographic order.
 */
module Combinations {

  /** The 0/1 string of `comb`; `true` stands for the character 1. */
  type Mask = seq<bool>

  function Ones(k: nat): Mask { seq(k, _ => true) }

  function Zeros(k: nat): Mask { seq(k, _ => false) }

  /** The largest arrangement of c ones among len characters: all the ones first. */
  function Highest(c: nat, len: nat): Mask
    requires c <= len
  {
    Ones(c) + Zeros(len - c)
  }

  /** The number of ones in a mask. */
  function Count(s: Mask): (c: nat)
    ensures c <= |s|
  {
    if s == [] then 0 else (if s[0] then 1 else 0) + Count(s[1..])
  }

  lemma {:induction false} CountFull(s: Mask)
    ensures Count(s) == |s| <==> false !in s
  {
    if s != [] {
      CountFull(s[1..]);
      assert false in s <==> !s[0] || false in s[1..];
    }
  }

  lemma {:induction false} CountHighest(c: nat, len: nat)
    requires c <= len
    ensures Count(Highest(c, len)) == c
  {
    var s := Highest(c, len);
    if len > 0 {
      if c > 0 {
        assert s[1..] == Highest(c - 1, len - 1);
        CountHighest(c - 1, len - 1);
      } else {
        assert s[1..] == Highest(0, len - 1);
        CountHighest(0, len - 1);
      }
    }
  }

  /** Lexicographic order on masks, with 0 before 1 as the characters compare. */
  predicate MaskLess(a: Mask, b: Mask)
  {
    if a == [] then b != []
    else if b == [] then false
    else (!a[0] && b[0]) || (a[0] == b[0] && MaskLess(a[1..], b[1..]))
  }

  lemma {:induction false} MaskLessAsymmetric(a: Mask, b: Mask)
    ensures !(MaskLess(a, b) && MaskLess(b, a))
    ensures !MaskLess(a, a)
  {
    if a != [] {
      MaskLessAsymmetric(a[1..], if b != [] then b[1..] else []);
    }
  }

  /** The smallest arrangement of its ones: no 1 stands before a 0. */
  predicate IsLowest(s: Mask)
  {
    s == [] || ((s[0] ==> false !in s[1..]) && IsLowest(s[1..]))
  }

  /** The largest arrangement of its ones: no 0 stands before a 1. */
  predicate IsHighest(s: Mask)
  {
    s == [] || ((!s[0] ==> true !in s[1..]) && IsHighest(s[1..]))
  }

  lemma {:induction false} HighestIsHighest(c: nat, len: nat)
    requires c <= len
    ensures IsHighest(Highest(c, len))
  {
    var s := Highest(c, len);
    if len > 0 {
      if c > 0 {
        assert s[1..] == Highest(c - 1, len - 1);
        HighestIsHighest(c - 1, len - 1);
      } else {
        assert s[1..] == Highest(0, len - 1);
        HighestIsHighest(0, len - 1);
      }
    }
  }

  /** What std::prev_permutation leaves behind: its boolean result and the rearranged string. */
  datatype Step = Step(more: bool, mask: Mask)

  lemma CountCons(x: bool, t: Mask)
    ensures Count([x] + t) == (if x then 1 else 0) + Count(t)
  {
    assert ([x] + t)[1..] == t;
  }

  lemma ConsKeepsOrder(x: bool, t: Mask, u: Mask)
    requires MaskLess(t, u)
    ensures MaskLess([x] + t, [x] + u)
  {
    assert ([x] + t)[1..] == t && ([x] + u)[1..] == u;
  }

  /** The rearrangement after a leading 1 whose tail still holds a 0. */
  lemma TurnLastDescent(s: Mask)
    requires s != [] && s[0] && Count(s[1..]) < |s| - 1
    ensures var m := [false] + Highest(Count(s[1..]) + 1, |s| - 1);
      |m| == |s| && Count(m) == Count(s) && MaskLess(m, s)
  {
    var c := Count(s[1..]);
    CountHighest(c + 1, |s| - 1);
    var m := [false] + Highest(c + 1, |s| - 1);
    assert m[1..] == Highest(c + 1, |s| - 1);
    assert s == [true] + s[1..];
    CountCons(true, s[1..]);
  }

  /**
   * std::prev_permutation on a 0/1 string.  The last 1 that is followed by a 0
   * becomes a 0 and everything after it is put in its largest order; when there
   * is no such 1 the string is the smallest arrangement, it is turned into the
   * largest one and the result is false.
   */
  function PrevPermutation(s: Mask): Step
  {
    if s == [] then Step(false, [])
    else
      var tail := PrevPermutation(s[1..]);
      var c := Count(s[1..]);
      if tail.more then Step(true, [s[0]] + tail.mask)
      else if s[0] && c < |s| - 1 then Step(true, [false] + Highest(c + 1, |s| - 1))
      else Step(false, Highest(Count(s), |s|))
  }

  /** std::prev_permutation only rearranges: the length and the number of ones stay. */
  lemma {:induction false} PrevPermutationShape(s: Mask)
    ensures |PrevPermutation(s).mask| == |s| && Count(PrevPermutation(s).mask) == Count(s)
  {
    if s != [] {
      var tail := PrevPermutation(s[1..]);
      PrevPermutationShape(s[1..]);
      assert s == [s[0]] + s[1..];
      CountCons(s[0], s[1..]);
      if tail.more {
        CountCons(s[0], tail.mask);
      } else if s[0] && Count(s[1..]) < |s| - 1 {
        TurnLastDescent(s);
      } else {
        CountHighest(Count(s), |s|);
      }
    }
  }

  /**
   * What std::prev_permutation promises: it returns true exactly when the
   * string was not already its smallest arrangement, and then the new string is
   * smaller; otherwise the string becomes its largest arrangement.
   */
  lemma {:induction false} PrevPermutationOrder(s: Mask)
    ensures PrevPermutation(s).more <==> !IsLowest(s)
    ensures PrevPermutation(s).more ==> MaskLess(PrevPermutation(s).mask, s)
    ensures !PrevPermutation(s).more ==> IsHighest(PrevPermutation(s).mask)
  {
    if s != [] {
      var tail := PrevPermutation(s[1..]);
      PrevPermutationOrder(s[1..]);
      CountFull(s[1..]);
      if tail.more {
        ConsKeepsOrder(s[0], tail.mask, s[1..]);
        assert s == [s[0]] + s[1..];
      } else if s[0] && Count(s[1..]) < |s| - 1 {
        TurnLastDescent(s);
      } else {
        HighestIsHighest(Count(s), |s|);
      }
    }
  }

  /** The binomial coefficient C(n, k), by Pascal's rule. */
  function Binom(n: nat, k: nat): nat
  {
    if k == 0 then 1 else if n == 0 then 0 else Binom(n - 1, k - 1) + Binom(n - 1, k)
  }

  lemma {:induction false} BinomPositive(n: nat, k: nat)
    ensures Binom(n, k) > 0 <==> k <= n
  {
    if k > 0 && n > 0 {
      BinomPositive(n - 1, k - 1);
      BinomPositive(n - 1, k);
    }
  }

  /** How many masks of length n with k ones start with a 1. */
  function Leading(n: nat, k: nat): nat
    requires n > 0
  {
    if k == 0 then 0 else Binom(n - 1, k - 1)
  }

  /**
   * The i-th mask of length n with k ones, counting from the largest: the
   * masks that start with a 1 come before those that start with a 0.
   */
  function MaskAt(n: nat, k: nat, i: nat): Mask
    requires i < Binom(n, k)
  {
    if n == 0 then []
    else if i < Leading(n, k) then [true] + MaskAt(n - 1, k - 1, i)
    else [false] + MaskAt(n - 1, k, i - Leading(n, k))
  }

  lemma MaskLessCons(x: bool, t: Mask, y: bool, u: Mask)
    ensures MaskLess([x] + t, [y] + u) <==> (!x && y) || (x == y && MaskLess(t, u))
  {
    assert ([x] + t)[1..] == t && ([y] + u)[1..] == u;
  }

  lemma {:induction false} MaskAtShape(n: nat, k: nat, i: nat)
    requires i < Binom(n, k)
    ensures |MaskAt(n, k, i)| == n && Count(MaskAt(n, k, i)) == k
  {
    if n > 0 {
      if i < Leading(n, k) {
        MaskAtShape(n - 1, k - 1, i);
        CountCons(true, MaskAt(n - 1, k - 1, i));
      } else {
        MaskAtShape(n - 1, k, i - Leading(n, k));
        CountCons(false, MaskAt(n - 1, k, i - Leading(n, k)));
      }
    }
  }

  /** The walk starts where `comb` starts: k ones followed by n-k zeros. */
  lemma {:induction false} MaskAtFirst(n: nat, k: nat)
    requires k <= n
    ensures Binom(n, k) > 0 && MaskAt(n, k, 0) == Highest(k, n)
  {
    BinomPositive(n, k);
    if n > 0 {
      if k > 0 {
        BinomPositive(n - 1, k - 1);
        MaskAtFirst(n - 1, k - 1);
        assert [true] + Highest(k - 1, n - 1) == Highest(k, n);
      } else {
        MaskAtFirst(n - 1, k);
        assert [false] + Highest(0, n - 1) == Highest(0, n);
      }
    }
  }

  /** The list runs strictly downwards in the lexicographic order. */
  lemma {:induction false} MaskAtDescending(n: nat, k: nat, i: nat, j: nat)
    requires i < j < Binom(n, k)
    ensures MaskLess(MaskAt(n, k, j), MaskAt(n, k, i))
  {
    if n > 0 {
      var l := Leading(n, k);
      if j < l {
        MaskAtDescending(n - 1, k - 1, i, j);
        MaskLessCons(true, MaskAt(n - 1, k - 1, j), true, MaskAt(n - 1, k - 1, i));
      } else if i >= l {
        MaskAtDescending(n - 1, k, i - l, j - l);
        MaskLessCons(false, MaskAt(n - 1, k, j - l), false, MaskAt(n - 1, k, i - l));
      } else {
        MaskLessCons(false, MaskAt(n - 1, k, j - l), true, MaskAt(n - 1, k - 1, i));
      }
    }
  }

  /** Every mask occurs in the list for its length and number of ones. */
  lemma {:induction false} MaskAtComplete(s: Mask) returns (i: nat)
    ensures i < Binom(|s|, Count(s)) && MaskAt(|s|, Count(s), i) == s
  {
    if s == [] {
      i := 0;
    } else {
      var n, k := |s|, Count(s);
      var p := MaskAtComplete(s[1..]);
      CountCons(s[0], s[1..]);
      assert s == [s[0]] + s[1..];
      if s[0] {
        i := p;
      } else {
        i := Leading(n, k) + p;
      }
    }
  }

  lemma BinomSplit(n: nat, k: nat)
    requires n > 0
    ensures Binom(n, k) == Leading(n, k) + Binom(n - 1, k)
  {
  }

  /** A step taken inside the tail leaves the first character alone. */
  lemma PrevPermutationInTail(x: bool, a: Mask)
    requires PrevPermutation(a).more
    ensures PrevPermutation([x] + a) == Step(true, [x] + PrevPermutation(a).mask)
  {
    assert ([x] + a)[1..] == a;
  }

  /** A leading 1 over a tail that is already lowest becomes the 0 of the step. */
  lemma PrevPermutationAtHead(a: Mask)
    requires !PrevPermutation(a).more && Count(a) < |a|
    ensures PrevPermutation([true] + a) ==
      Step(true, [false] + Highest(Count(a) + 1, |a|))
  {
    var s := [true] + a;
    assert s[1..] == a && s[0] && s != [];
    assert |s| - 1 == |a|;
  }

  /** Nothing left to lower: the result is false and the mask wraps to its largest order. */
  lemma PrevPermutationWraps(x: bool, a: Mask)
    requires !PrevPermutation(a).more && (x ==> Count(a) == |a|)
    ensures PrevPermutation([x] + a) == Step(false, Highest(Count([x] + a), |[x] + a|))
  {
    var s := [x] + a;
    assert s[1..] == a && s[0] == x && s != [];
    assert !(x && Count(a) < |s| - 1);
  }

  /** From the last (smallest) mask std::prev_permutation returns false and goes back to the first. */
  lemma {:induction false} PrevPermutationWrapsAround(n: nat, k: nat)
    requires k <= n
    ensures Binom(n, k) > 0
    ensures PrevPermutation(MaskAt(n, k, Binom(n, k) - 1)) == Step(false, MaskAt(n, k, 0))
    decreases n, 1
  {
    BinomPositive(n, k);
    if n == 0 {
      assert MaskAt(n, k, 0) == [];
    } else if k < n {
      WrapsAroundFromZero(n, k);
    } else {
      WrapsAroundFromOne(n, k);
    }
  }

  lemma {:induction false} WrapsAroundFromZero(n: nat, k: nat)
    requires 0 < n && k < n
    ensures Binom(n, k) > 0
    ensures PrevPermutation(MaskAt(n, k, Binom(n, k) - 1)) == Step(false, MaskAt(n, k, 0))
    decreases n, 0
  {
    BinomSplit(n, k);
    BinomPositive(n - 1, k);
    var last := Binom(n, k) - 1;
    var b := MaskAt(n - 1, k, last - Leading(n, k));
    assert MaskAt(n, k, last) == [false] + b;
    PrevPermutationWrapsAround(n - 1, k);
    MaskAtShape(n - 1, k, last - Leading(n, k));
    PrevPermutationWraps(false, b);
    CountCons(false, b);
    MaskAtFirst(n, k);
  }

  lemma {:induction false} WrapsAroundFromOne(n: nat, k: nat)
    requires 0 < n && k == n
    ensures Binom(n, k) > 0
    ensures PrevPermutation(MaskAt(n, k, Binom(n, k) - 1)) == Step(false, MaskAt(n, k, 0))
    decreases n, 0
  {
    BinomSplit(n, k);
    BinomPositive(n - 1, k);
    BinomPositive(n - 1, k - 1);
    var last := Binom(n, k) - 1;
    assert last == Binom(n - 1, k - 1) - 1;
    var a := MaskAt(n - 1, k - 1, last);
    assert MaskAt(n, k, last) == [true] + a;
    PrevPermutationWrapsAround(n - 1, k - 1);
    MaskAtShape(n - 1, k - 1, last);
    PrevPermutationWraps(true, a);
    CountCons(true, a);
    MaskAtFirst(n, k);
  }

  /** Before the last mask, one std::prev_permutation step moves to the next mask of the list. */
  lemma {:induction false} PrevPermutationSteps(n: nat, k: nat, i: nat)
    requires i + 1 < Binom(n, k)
    ensures PrevPermutation(MaskAt(n, k, i)) == Step(true, MaskAt(n, k, i + 1))
    decreases n, 1
  {
    assert n > 0;
    BinomSplit(n, k);
    if i + 1 < Leading(n, k) {
      StepAmongLeadingOnes(n, k, i);
    } else if i + 1 == Leading(n, k) {
      StepAcrossBlocks(n, k, i);
    } else {
      StepAmongLeadingZeros(n, k, i);
    }
  }

  lemma {:induction false} StepAmongLeadingOnes(n: nat, k: nat, i: nat)
    requires n > 0 && i + 1 < Leading(n, k)
    ensures PrevPermutation(MaskAt(n, k, i)) == Step(true, MaskAt(n, k, i + 1))
    decreases n, 0
  {
    var a := MaskAt(n - 1, k - 1, i);
    var a' := MaskAt(n - 1, k - 1, i + 1);
    assert MaskAt(n, k, i) == [true] + a;
    assert MaskAt(n, k, i + 1) == [true] + a';
    PrevPermutationSteps(n - 1, k - 1, i);
    PrevPermutationInTail(true, a);
  }

  lemma {:induction false} StepAmongLeadingZeros(n: nat, k: nat, i: nat)
    requires n > 0 && Leading(n, k) <= i && i + 1 < Binom(n, k)
    ensures PrevPermutation(MaskAt(n, k, i)) == Step(true, MaskAt(n, k, i + 1))
    decreases n, 0
  {
    var l := Leading(n, k);
    BinomSplit(n, k);
    var b := MaskAt(n - 1, k, i - l);
    var b' := MaskAt(n - 1, k, i + 1 - l);
    assert MaskAt(n, k, i) == [false] + b;
    assert MaskAt(n, k, i + 1) == [false] + b';
    PrevPermutationSteps(n - 1, k, i - l);
    PrevPermutationInTail(false, b);
  }

  /** From the last mask that starts with a 1 to the first that starts with a 0. */
  lemma StepAcrossBlocks(n: nat, k: nat, i: nat)
    requires n > 0 && i + 1 == Leading(n, k) && i + 1 < Binom(n, k)
    ensures PrevPermutation(MaskAt(n, k, i)) == Step(true, MaskAt(n, k, i + 1))
  {
    BinomSplit(n, k);
    BinomPositive(n - 1, k);
    assert 0 < k < n && i + 1 == Binom(n - 1, k - 1);
    FirstWithLeadingZero(n, k);
    var a := MaskAt(n - 1, k - 1, i);
    assert MaskAt(n, k, i) == [true] + a;
    PrevPermutationWrapsAround(n - 1, k - 1);
    MaskAtShape(n - 1, k - 1, i);
    LowestTailMeetsFirst(a, n - 1, k);
  }

  /** Lowering the leading 1 of a lowest tail gives 0 followed by the first mask of the tail's length. */
  lemma LowestTailMeetsFirst(a: Mask, m: nat, k: nat)
    requires !PrevPermutation(a).more && |a| == m && Count(a) + 1 == k && k <= m
    ensures Binom(m, k) > 0 && PrevPermutation([true] + a) == Step(true, [false] + MaskAt(m, k, 0))
  {
    PrevPermutationAtHead(a);
    MaskAtFirst(m, k);
  }

  /** The first mask that starts with a 0 is a 0 followed by the first mask one shorter. */
  lemma FirstWithLeadingZero(n: nat, k: nat)
    requires k < n
    ensures Leading(n, k) < Binom(n, k) && Binom(n - 1, k) > 0
    ensures MaskAt(n, k, Leading(n, k)) == [false] + MaskAt(n - 1, k, 0)
  {
    BinomSplit(n, k);
    BinomPositive(n - 1, k);
  }

  /** No mask of the list lies strictly between two neighbours. */
  lemma NothingBetweenNeighbours(n: nat, k: nat, i: nat, j: nat)
    requires i + 1 < Binom(n, k) && j < Binom(n, k)
    ensures !(MaskLess(MaskAt(n, k, i + 1), MaskAt(n, k, j)) && MaskLess(MaskAt(n, k, j), MaskAt(n, k, i)))
  {
    if j > i + 1 {
      MaskAtDescending(n, k, i + 1, j);
      MaskLessAsymmetric(MaskAt(n, k, j), MaskAt(n, k, i + 1));
    } else if j >= i {
      MaskLessAsymmetric(MaskAt(n, k, j), MaskAt(n, k, j));
    } else {
      MaskAtDescending(n, k, j, i);
      MaskLessAsymmetric(MaskAt(n, k, j), MaskAt(n, k, i));
    }
  }

  /**
   * When std::prev_permutation returns true, it has moved to the largest
   * arrangement below the old one: nothing with the same ones lies strictly
   * between the two.
   */
  lemma PrevPermutationIsPredecessor(s: Mask, t: Mask)
    requires PrevPermutation(s).more
    requires |t| == |s| && Count(t) == Count(s)
    ensures !(MaskLess(PrevPermutation(s).mask, t) && MaskLess(t, s))
  {
    var n, k := |s|, Count(s);
    var i := MaskAtComplete(s);
    var j := MaskAtComplete(t);
    if i + 1 == Binom(n, k) {
      PrevPermutationWrapsAround(n, k);
      assert false;
    }
    PrevPermutationSteps(n, k, i);
    NothingBetweenNeighbours(n, k, i, j);
  }

  /** Strictly ascending. */
  predicate Increasing(c: seq<int>)
  {
    forall i, j :: 0 <= i < j < |c| ==> c[i] < c[j]
  }

  /** Every entry of c is an index into a sequence of length n. */
  predicate InRange(c: seq<int>, n: nat)
  {
    forall i :: 0 <= i < |c| ==> 0 <= c[i] < n
  }

  /** A combination of indices out of 0 .. n-1: strictly ascending, every entry in range. */
  predicate IsCombination(c: seq<int>, n: nat)
  {
    InRange(c, n) && Increasing(c)
  }

  lemma CountSnoc(s: Mask, b: bool)
    ensures Count(s + [b]) == Count(s) + (if b then 1 else 0)
  {
    if s != [] {
      assert (s + [b])[1..] == s[1..] + [b];
      CountSnoc(s[1..], b);
    }
  }

  /** The positions that hold a 1, in ascending order: the list `v` that `comb` builds. */
  function Positions(s: Mask): (c: seq<int>)
    ensures |c| == Count(s)
  {
    if s == [] then []
    else
      var init := s[..|s| - 1];
      CountSnoc(init, s[|s| - 1]);
      assert s == init + [s[|s| - 1]];
      Positions(init) + (if s[|s| - 1] then [|s| - 1] else [])
  }

  /** The list holds exactly the positions of the ones, in ascending order. */
  lemma {:induction false} PositionsOfOnes(s: Mask)
    ensures IsCombination(Positions(s), |s|)
    ensures forall x :: x in Positions(s) <==> 0 <= x < |s| && s[x]
  {
    if s != [] {
      var init := s[..|s| - 1];
      PositionsOfOnes(init);
    }
  }

  /** Every index moved up by one. */
  function Shift(c: seq<int>): seq<int>
  {
    seq(|c|, i requires 0 <= i < |c| => c[i] + 1)
  }

  lemma {:induction false} PositionsCons(x: bool, t: Mask)
    ensures Positions([x] + t) == (if x then [0] else []) + Shift(Positions(t))
    decreases |t|
  {
    if t != [] {
      var t', y := t[..|t| - 1], t[|t| - 1];
      assert ([x] + t)[..|t|] == [x] + t';
      PositionsCons(x, t');
      assert Shift(Positions(t)) == Shift(Positions(t')) + (if y then [|t|] else []);
    }
  }

  /** Lexicographic order on index lists, as std::vector<int> compares them. */
  predicate LexLess(a: seq<int>, b: seq<int>)
  {
    if a == [] then b != []
    else if b == [] then false
    else a[0] < b[0] || (a[0] == b[0] && LexLess(a[1..], b[1..]))
  }

  lemma {:induction false} LexLessIrreflexive(a: seq<int>)
    ensures !LexLess(a, a)
  {
    if a != [] {
      LexLessIrreflexive(a[1..]);
    }
  }

  lemma {:induction false} LexLessShift(a: seq<int>, b: seq<int>)
    requires LexLess(a, b)
    ensures LexLess(Shift(a), Shift(b))
  {
    if a != [] && b != [] && a[0] == b[0] {
      assert Shift(a)[1..] == Shift(a[1..]) && Shift(b)[1..] == Shift(b[1..]);
      LexLessShift(a[1..], b[1..]);
    }
  }

  lemma LexLessCons(x: int, a: seq<int>, b: seq<int>)
    requires LexLess(a, b)
    ensures LexLess([x] + a, [x] + b)
  {
    assert ([x] + a)[1..] == a && ([x] + b)[1..] == b;
  }

  /** Taking positions turns the descending order of masks into the ascending order of lists. */
  lemma {:induction false} PositionsReverseOrder(a: Mask, b: Mask)
    requires |a| == |b| && Count(a) == Count(b)
    requires MaskLess(b, a)
    ensures LexLess(Positions(a), Positions(b))
  {
    var x, a', y, b' := a[0], a[1..], b[0], b[1..];
    assert a == [x] + a' && b == [y] + b';
    MaskLessCons(y, b', x, a');
    CountCons(x, a');
    CountCons(y, b');
    PositionsCons(x, a');
    PositionsCons(y, b');
    if !y && x {
      PositionsOfOnes(b');
      assert Positions(b')[0] in Positions(b');
      assert Positions(a)[0] == 0 && Positions(b)[0] == Positions(b')[0] + 1;
    } else {
      PositionsReverseOrder(a', b');
      LexLessShift(Positions(a'), Positions(b'));
      if x {
        LexLessCons(0, Shift(Positions(a')), Shift(Positions(b')));
      } else {
        assert Positions(a) == Shift(Positions(a')) && Positions(b) == Shift(Positions(b'));
      }
    }
  }

  /** The list `comb` appends for the i-th mask of its walk. */
  function CombinationAt(n: nat, k: nat, i: nat): seq<int>
    requires i < Binom(n, k)
  {
    Positions(MaskAt(n, k, i))
  }

  /** Everything `comb(n, k, ·)` appends, in the order it appends it. */
  function Combinations(n: nat, k: nat): seq<seq<int>>
  {
    seq(Binom(n, k), i requires 0 <= i < Binom(n, k) => CombinationAt(n, k, i))
  }

  /** Each appended list picks k distinct indices out of 0 .. n-1, in ascending order. */
  lemma CombinationsValid(n: nat, k: nat, i: nat)
    requires i < |Combinations(n, k)|
    ensures |Combinations(n, k)[i]| == k && IsCombination(Combinations(n, k)[i], n)
  {
    MaskAtShape(n, k, i);
    PositionsOfOnes(MaskAt(n, k, i));
  }

  /** The lists come out in strictly ascending lexicographic order, so none comes twice. */
  lemma CombinationsAscending(n: nat, k: nat, i: nat, j: nat)
    requires i < j < |Combinations(n, k)|
    ensures LexLess(Combinations(n, k)[i], Combinations(n, k)[j])
    ensures Combinations(n, k)[i] != Combinations(n, k)[j]
  {
    MaskAtShape(n, k, i);
    MaskAtShape(n, k, j);
    MaskAtDescending(n, k, i, j);
    PositionsReverseOrder(MaskAt(n, k, i), MaskAt(n, k, j));
    LexLessIrreflexive(Combinations(n, k)[i]);
  }

  /** Two lists appended by one `comb(n, k, ·)` have the same size, and the earlier is lexicographically smaller. */
  lemma CombinationsOrdered(n: nat, k: nat, i: nat, j: nat)
    requires i < j < |Combinations(n, k)|
    ensures |Combinations(n, k)[i]| == |Combinations(n, k)[j]|
    ensures LexLess(Combinations(n, k)[i], Combinations(n, k)[j])
  {
    CombinationsAscending(n, k, i, j);
    CombinationsValid(n, k, i);
    CombinationsValid(n, k, j);
  }

  /** The mask of length n that marks the entries of c. */
  function Indicator(n: nat, c: seq<int>): Mask
  {
    seq(n, j => j in c)
  }

  /** Two ascending lists with the same entries are the same list. */
  lemma {:induction false} SameElementsSame(a: seq<int>, b: seq<int>)
    requires Increasing(a) && Increasing(b)
    requires forall x :: x in a <==> x in b
    ensures a == b
    decreases |a|
  {
    if a != [] {
      assert a[0] in a;
    }
    if b != [] {
      assert b[0] in b;
    }
    if a != [] && b != [] {
      assert a[0] in b && b[0] in a;
      var p :| 0 <= p < |b| && b[p] == a[0];
      var q :| 0 <= q < |a| && a[q] == b[0];
      assert b[0] <= a[0] && a[0] <= b[0];
      forall x
        ensures x in a[1..] <==> x in b[1..]
      {
        assert x in a[1..] <==> x in a && x != a[0];
        assert x in b[1..] <==> x in b && x != b[0];
      }
      SameElementsSame(a[1..], b[1..]);
      assert a == [a[0]] + a[1..] && b == [b[0]] + b[1..];
    }
  }

  /** Every ascending list of indices below n is appended by the walk of its own size. */
  lemma CombinationsComplete(n: nat, c: seq<int>) returns (i: nat)
    requires IsCombination(c, n)
    ensures |c| <= n && i < |Combinations(n, |c|)| && Combinations(n, |c|)[i] == c
  {
    var m := Indicator(n, c);
    PositionsOfOnes(m);
    SameElementsSame(Positions(m), c);
    i := MaskAtComplete(m);
  }

  /** A list is appended by the walk for size k exactly when it is an ascending list of k indices below n. */
  lemma CombinationsMembership(n: nat, k: nat, c: seq<int>)
    ensures c in Combinations(n, k) <==> IsCombination(c, n) && |c| == k
  {
    if c in Combinations(n, k) {
      var i :| 0 <= i < |Combinations(n, k)| && Combinations(n, k)[i] == c;
      CombinationsValid(n, k, i);
    }
    if IsCombination(c, n) && |c| == k {
      var i := CombinationsComplete(n, c);
    }
  }

  /**
   * The walk of `comb`: from the i-th mask std::prev_permutation returns true
   * exactly when a next mask is left, and then moves to it.
   */
  lemma PrevPermutationWalk(n: nat, k: nat, i: nat)
    requires i < Binom(n, k)
    ensures PrevPermutation(MaskAt(n, k, i)).more <==> i + 1 < Binom(n, k)
    ensures i + 1 < Binom(n, k) ==> PrevPermutation(MaskAt(n, k, i)).mask == MaskAt(n, k, i + 1)
  {
    if i + 1 < Binom(n, k) {
      PrevPermutationSteps(n, k, i);
    } else {
      BinomPositive(n, k);
      PrevPermutationWrapsAround(n, k);
    }
  }

  lemma CombinationsPrefix(n: nat, k: nat, i: nat)
    requires i < Binom(n, k)
    ensures Combinations(n, k)[..i + 1] == Combinations(n, k)[..i] + [Positions(MaskAt(n, k, i))]
  {
  }

  /** The inner loop of `comb`: the positions that hold a 1, from left to right. */
  method SetPositions(s: Mask) returns (v: seq<int>)
    ensures v == Positions(s)
  {
    v := [];
    for i := 0 to |s|
      invariant v == Positions(s[..i])
    {
      assert s[..i + 1][..i] == s[..i];
      if s[i] {
        v := v + [i];
      }
    }
    assert s[..|s|] == s;
  }

  /**
   * `comb(n, r, combList)`.  The string starts as r ones resized to length n
   * (cut when r > n, padded with zeros otherwise); the do-while loop appends
   * the positions of its ones and steps with std::prev_permutation until that
   * returns false.
   */
  method Comb(n: nat, r: nat, combList: seq<seq<int>>) returns (out: seq<seq<int>>)
    ensures out == combList + Combinations(n, if r <= n then r else n)
  {
    var s := Ones(r);
    s := if n <= |s| then s[..n] else s + Zeros(n - |s|);
    ghost var k := if r <= n then r else n;
    MaskAtFirst(n, k);
    assert s == Highest(k, n);
    ghost var i := 0;
    out := combList;
    while true
      invariant i < Binom(n, k) && s == MaskAt(n, k, i)
      invariant out == combList + Combinations(n, k)[..i]
      decreases Binom(n, k) - i
    {
      var v := SetPositions(s);
      CombinationsPrefix(n, k, i);
      out := out + [v];
      var step := PrevPermutation(s);
      PrevPermutationWalk(n, k, i);
      s := step.mask;
      if !step.more {
        assert Combinations(n, k)[..i + 1] == Combinations(n, k);
        break;
      }
      i := i + 1;
    }
  }

  /** The list pooled for n jets once `comb(n, r, ·)` has run for r = 1 .. m. */
  function Pool(n: nat, m: nat): seq<seq<int>>
    requires m <= n
  {
    if m == 0 then [] else Pool(n, m - 1) + Combinations(n, m)
  }

  /** The pooling loop of an event: `comb(n, r, combList)` for r = 1 .. n/2 into one list. */
  method PoolCombinations(n: nat) returns (combList: seq<seq<int>>)
    ensures combList == Pool(n, n / 2)
  {
    combList := [];
    for r := 1 to n / 2 + 1
      invariant combList == Pool(n, r - 1)
    {
      combList := Comb(n, r, combList);
    }
  }

  /** Every pooled entry is an ascending list of 1 .. m indices below n. */
  lemma {:induction false} PoolEntries(n: nat, m: nat, i: nat)
    requires m <= n && i < |Pool(n, m)|
    ensures IsCombination(Pool(n, m)[i], n) && 1 <= |Pool(n, m)[i]| <= m
  {
    var p := Pool(n, m - 1);
    if i < |p| {
      PoolEntries(n, m - 1, i);
    } else {
      CombinationsValid(n, m, i - |p|);
    }
  }

  /** Shorter lists first, lists of one size in ascending lexicographic order. */
  predicate PoolOrder(a: seq<int>, b: seq<int>)
  {
    |a| < |b| || (|a| == |b| && LexLess(a, b))
  }

  /** The pool runs strictly upwards in that order. */
  lemma {:induction false} PoolOrdered(n: nat, m: nat, i: nat, j: nat)
    requires m <= n && i < j < |Pool(n, m)|
    ensures PoolOrder(Pool(n, m)[i], Pool(n, m)[j])
  {
    var p := Pool(n, m - 1);
    if j < |p| {
      assert Pool(n, m) == p + Combinations(n, m);
      PoolOrdered(n, m - 1, i, j);
    } else if i < |p| {
      PoolAcrossSizes(n, m, i, j);
    } else {
      PoolWithinSize(n, m, i, j);
    }
  }

  /** An entry pooled before `comb(n, m, ·)` ran is shorter than one it appended. */
  lemma PoolAcrossSizes(n: nat, m: nat, i: nat, j: nat)
    requires 0 < m <= n && i < |Pool(n, m - 1)| <= j < |Pool(n, m)|
    ensures PoolOrder(Pool(n, m)[i], Pool(n, m)[j])
  {
    var p, q := Pool(n, m - 1), Combinations(n, m);
    PoolEntries(n, m - 1, i);
    CombinationsValid(n, m, j - |p|);
    AcrossBlocks(p, q, i, j);
    assert Pool(n, m) == p + q;
  }

  /** Two entries appended by `comb(n, m, ·)` have one size and follow lexicographic order. */
  lemma PoolWithinSize(n: nat, m: nat, i: nat, j: nat)
    requires 0 < m <= n && |Pool(n, m - 1)| <= i < j < |Pool(n, m)|
    ensures PoolOrder(Pool(n, m)[i], Pool(n, m)[j])
  {
    var p, q := Pool(n, m - 1), Combinations(n, m);
    CombinationsSorted(n, m);
    WithinBlock(p, q, i, j);
    assert Pool(n, m) == p + q;
  }

  /** Every pair of entries of q, in order, follows `PoolOrder`. */
  predicate PoolSorted(q: seq<seq<int>>)
  {
    forall i, j :: 0 <= i < j < |q| ==> PoolOrder(q[i], q[j])
  }

  /** The lists of one `comb(n, k, ·)` call are sorted by `PoolOrder`. */
  lemma CombinationsSorted(n: nat, k: nat)
    ensures PoolSorted(Combinations(n, k))
  {
    forall i, j | 0 <= i < j < |Combinations(n, k)|
      ensures PoolOrder(Combinations(n, k)[i], Combinations(n, k)[j])
    {
      CombinationsOrdered(n, k, i, j);
    }
  }

  /** Two entries of p + q that both lie in a sorted q are in order. */
  lemma WithinBlock(p: seq<seq<int>>, q: seq<seq<int>>, i: nat, j: nat)
    requires |p| <= i < j < |p| + |q| && PoolSorted(q)
    ensures PoolOrder((p + q)[i], (p + q)[j])
  {
    assert PoolOrder(q[i - |p|], q[j - |p|]);
  }

  /** An entry of p comes before a longer entry of q in p + q. */
  lemma AcrossBlocks(p: seq<seq<int>>, q: seq<seq<int>>, i: nat, j: nat)
    requires i < |p| <= j < |p| + |q| && |p[i]| < |q[j - |p|]|
    ensures PoolOrder((p + q)[i], (p + q)[j])
  {
  }

  /** No list is pooled twice. */
  lemma PoolDistinct(n: nat, m: nat, i: nat, j: nat)
    requires m <= n && i < j < |Pool(n, m)|
    ensures Pool(n, m)[i] != Pool(n, m)[j]
  {
    PoolOrdered(n, m, i, j);
    LexLessIrreflexive(Pool(n, m)[i]);
  }

  /** A list is pooled exactly when it is an ascending list of 1 .. m indices below n. */
  lemma {:induction false} PoolContents(n: nat, m: nat, c: seq<int>)
    requires m <= n
    ensures c in Pool(n, m) <==> IsCombination(c, n) && 1 <= |c| <= m
  {
    if m > 0 {
      PoolContents(n, m - 1, c);
      CombinationsMembership(n, m, c);
      assert c in Pool(n, m) <==> c in Pool(n, m - 1) || c in Combinations(n, m);
    }
  }
}
