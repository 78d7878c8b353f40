/**
 * `find_median`: the median of two sorted sequences by binary search on
 * the partition of the shorter one. The source's float infinities at the
 * array ends are the bounds `NegInf`/`PosInf`; the result is an exact real.
 */
module BinTricky {
  import opened Sorting

  datatype Bound = NegInf | Fin(v: int) | PosInf

  predicate LeB(x: Bound, y: Bound) {
    x.NegInf? || y.PosInf? || (x.Fin? && y.Fin? && x.v <= y.v)
  }

  function MaxB(x: Bound, y: Bound): Bound {
    if LeB(x, y) then y else x
  }

  function MinB(x: Bound, y: Bound): Bound {
    if LeB(x, y) then x else y
  }

  /** The reference median: the middle element of the merged order, or the mean of the two middle ones. */
  function Median(s: seq<int>): real
    requires |s| >= 1
  {
    MedianSorted(Sort(s))
  }

  function MedianSorted(t: seq<int>): real
    requires |t| >= 1
  {
    var n := |t|;
    if n % 2 == 1 then t[n / 2] as real else (t[n / 2 - 1] + t[n / 2]) as real / 2.0
  }

  /** The size of the left half: `(m + n + 1) // 2`. */
  function Half(a: seq<int>, b: seq<int>): int {
    (|a| + |b| + 1) / 2
  }

  function LeftOf(s: seq<int>, k: int): Bound
    requires 0 <= k <= |s|
  {
    if k == 0 then NegInf else Fin(s[k - 1])
  }

  function RightOf(s: seq<int>, k: int): Bound
    requires 0 <= k <= |s|
  {
    if k == |s| then PosInf else Fin(s[k])
  }

  predicate InHalf(a: seq<int>, b: seq<int>, i: int) {
    0 <= i <= |a| && 0 <= Half(a, b) - i <= |b|
  }

  /** `max_left_1 > min_right_2`: the partition of `a` is too far right. */
  predicate TooFarRight(a: seq<int>, b: seq<int>, i: int)
    requires InHalf(a, b, i)
  {
    !LeB(LeftOf(a, i), RightOf(b, Half(a, b) - i))
  }

  /** `max_left_2 > min_right_1`: the partition of `a` is too far left. */
  predicate TooFarLeft(a: seq<int>, b: seq<int>, i: int)
    requires InHalf(a, b, i)
  {
    !LeB(LeftOf(b, Half(a, b) - i), RightOf(a, i))
  }

  lemma HalfRange(a: seq<int>, b: seq<int>, i: int)
    requires |a| <= |b| && 0 <= i <= |a|
    ensures InHalf(a, b, i)
  {
  }

  lemma TooFarRightMonotone(a: seq<int>, b: seq<int>, i: int, k: int)
    requires Sorted(a) && Sorted(b) && |a| <= |b| && 0 <= i <= k <= |a|
    requires InHalf(a, b, i) && InHalf(a, b, k) && TooFarRight(a, b, i)
    ensures TooFarRight(a, b, k)
  {
    var h := Half(a, b);
    assert a[i - 1] <= a[k - 1] && b[h - k] <= b[h - i];
  }

  lemma TooFarLeftMonotone(a: seq<int>, b: seq<int>, i: int, k: int)
    requires Sorted(a) && Sorted(b) && |a| <= |b| && 0 <= i <= k <= |a|
    requires InHalf(a, b, i) && InHalf(a, b, k) && TooFarLeft(a, b, k)
    ensures TooFarLeft(a, b, i)
  {
    var h := Half(a, b);
    assert a[i] <= a[k] && b[h - k - 1] <= b[h - i - 1];
  }

  /** The first partition from `i` on that is not too far left. */
  ghost function FirstNotLeft(a: seq<int>, b: seq<int>, i: int): (g: int)
    requires |a| <= |b| && 0 <= i <= |a|
    ensures i <= g <= |a| && InHalf(a, b, g) && !TooFarLeft(a, b, g)
    ensures forall k :: i <= k < g ==> InHalf(a, b, k) && TooFarLeft(a, b, k)
    decreases |a| - i
  {
    HalfRange(a, b, i);
    if !TooFarLeft(a, b, i) then i else FirstNotLeft(a, b, i + 1)
  }

  /** The least partition that is not too far left is not too far right either. */
  lemma FirstIsGood(a: seq<int>, b: seq<int>)
    requires Sorted(a) && Sorted(b) && |a| <= |b|
    ensures !TooFarRight(a, b, FirstNotLeft(a, b, 0))
  {
    var g := FirstNotLeft(a, b, 0);
    var h := Half(a, b);
    if g > 0 {
      assert TooFarLeft(a, b, g - 1);
      assert b[h - g] > a[g - 1];
    }
  }

  lemma LastIsMax(s: seq<int>, x: int)
    requires Sorted(s) && x in multiset(s)
    ensures x <= s[|s| - 1]
  {
    var k :| 0 <= k < |s| && s[k] == x;
    assert k == |s| - 1 || s[k] <= s[|s| - 1];
  }

  lemma SortedConcat(x: seq<int>, y: seq<int>)
    requires Sorted(x) && Sorted(y)
    requires forall p, q :: 0 <= p < |x| && 0 <= q < |y| ==> x[p] <= y[q]
    ensures Sorted(x + y)
  {
  }

  /** The left half `a[:i] + b[:j]` and the right half `a[i:] + b[j:]` of a partition. */
  function LeftPart(a: seq<int>, b: seq<int>, i: int): seq<int>
    requires InHalf(a, b, i)
  {
    a[..i] + b[..Half(a, b) - i]
  }

  function RightPart(a: seq<int>, b: seq<int>, i: int): seq<int>
    requires InHalf(a, b, i)
  {
    a[i..] + b[Half(a, b) - i..]
  }

  predicate Good(a: seq<int>, b: seq<int>, i: int) {
    InHalf(a, b, i) && !TooFarRight(a, b, i) && !TooFarLeft(a, b, i)
  }

  /**
   * On a good partition the larger left neighbour is at most the smaller
   * right one (each absent neighbour counting as an infinity).
   */
  lemma MaxLeMin(a: seq<int>, b: seq<int>, i: int)
    requires Sorted(a) && Sorted(b) && Good(a, b, i)
    ensures LeB(MaxB(LeftOf(a, i), LeftOf(b, Half(a, b) - i)), MinB(RightOf(a, i), RightOf(b, Half(a, b) - i)))
  {
    var j := Half(a, b) - i;
    assert LeB(LeftOf(a, i), RightOf(a, i)) by {
      if 0 < i < |a| { assert a[i - 1] <= a[i]; }
    }
    assert LeB(LeftOf(b, j), RightOf(b, j)) by {
      if 0 < j < |b| { assert b[j - 1] <= b[j]; }
    }
  }

  /** `l` and `r` together hold the elements of `s`, none of `l` above `c` and none of `r` below it. */
  ghost predicate SplitAt(s: seq<int>, l: seq<int>, r: seq<int>, c: int) {
    multiset(s) == multiset(l) + multiset(r) &&
    (forall p :: 0 <= p < |l| ==> l[p] <= c) &&
    (forall q :: 0 <= q < |r| ==> c <= r[q])
  }

  /** `x` is an element of `l` and no element of `l` exceeds it. */
  ghost predicate IsMax(l: seq<int>, x: int) {
    x in multiset(l) && forall p :: 0 <= p < |l| ==> l[p] <= x
  }

  /** `y` is an element of `r` and no element of `r` is below it. */
  ghost predicate IsMin(r: seq<int>, y: int) {
    y in multiset(r) && forall q :: 0 <= q < |r| ==> y <= r[q]
  }

  /** The element of rank `k` (counting from 0) among the elements of `s`. */
  function RankValue(s: seq<int>, k: int): int
    requires 0 <= k < |s|
  {
    Sort(s)[k]
  }

  /** Splitting a sequence into a lower and an upper part splits its sorted order the same way. */
  lemma SortOfSplit(s: seq<int>, l: seq<int>, r: seq<int>, c: int)
    requires SplitAt(s, l, r, c)
    ensures Sort(s) == Sort(l) + Sort(r)
  {
    var sl, sr := Sort(l), Sort(r);
    forall p | 0 <= p < |sl| ensures sl[p] <= c {
      assert sl[p] in multiset(l);
      var p' :| 0 <= p' < |l| && l[p'] == sl[p];
    }
    forall q | 0 <= q < |sr| ensures c <= sr[q] {
      assert sr[q] in multiset(r);
      var q' :| 0 <= q' < |r| && r[q'] == sr[q];
    }
    SortedConcat(sl, sr);
    SortIsUnique(s, sl + sr);
  }

  /** A sorted rearrangement of `l` ends with its maximum `x`. */
  lemma LastOfSorted(l: seq<int>, sl: seq<int>, x: int)
    requires Sorted(sl) && multiset(sl) == multiset(l)
    requires IsMax(l, x)
    ensures |sl| >= 1 && sl[|sl| - 1] == x
  {
    LastIsMax(sl, x);
    var last := sl[|sl| - 1];
    assert last in multiset(l);
    var w :| 0 <= w < |l| && l[w] == last;
  }

  /** A sorted rearrangement of `r` starts with its minimum `x`. */
  lemma FirstOfSorted(r: seq<int>, sr: seq<int>, x: int)
    requires Sorted(sr) && multiset(sr) == multiset(r)
    requires IsMin(r, x)
    ensures |sr| >= 1 && sr[0] == x
  {
    HeadIsMin(sr, x);
    var first := sr[0];
    assert first in multiset(r);
    var w :| 0 <= w < |r| && r[w] == first;
  }

  /** The larger left neighbour is the maximum of the left half. */
  lemma LeftMax(a: seq<int>, b: seq<int>, i: int)
    requires Sorted(a) && Sorted(b) && InHalf(a, b, i) && Half(a, b) >= 1
    ensures MaxB(LeftOf(a, i), LeftOf(b, Half(a, b) - i)).Fin?
    ensures IsMax(LeftPart(a, b, i), MaxB(LeftOf(a, i), LeftOf(b, Half(a, b) - i)).v)
  {
    var j := Half(a, b) - i;
    var L := LeftPart(a, b, i);
    var lm := MaxB(LeftOf(a, i), LeftOf(b, j));
    assert lm.Fin? && lm.v in multiset(L) by {
      if i > 0 { assert L[i - 1] == a[i - 1]; }
      if j > 0 { assert L[i + j - 1] == b[j - 1]; }
    }
    forall p | 0 <= p < |L| ensures L[p] <= lm.v {
      if p < i { assert a[p] <= a[i - 1]; } else { assert L[p] == b[p - i]; assert b[p - i] <= b[j - 1]; }
    }
  }

  /** The smaller right neighbour is the minimum of the right half. */
  lemma RightMin(a: seq<int>, b: seq<int>, i: int)
    requires Sorted(a) && Sorted(b) && InHalf(a, b, i) && |a| + |b| > Half(a, b)
    ensures MinB(RightOf(a, i), RightOf(b, Half(a, b) - i)).Fin?
    ensures IsMin(RightPart(a, b, i), MinB(RightOf(a, i), RightOf(b, Half(a, b) - i)).v)
  {
    var j := Half(a, b) - i;
    var R := RightPart(a, b, i);
    var rm := MinB(RightOf(a, i), RightOf(b, j));
    assert rm.Fin? && rm.v in multiset(R) by {
      if i < |a| { assert R[0] == a[i]; }
      if j < |b| { assert R[|a| - i] == b[j]; }
    }
    forall q | 0 <= q < |R| ensures rm.v <= R[q] {
      if q < |a| - i { assert R[q] == a[i + q]; } else { assert R[q] == b[j + q - (|a| - i)]; }
    }
  }

  /** At a good partition no element of the right half is below the larger left neighbour. */
  lemma LeftBelowRight(a: seq<int>, b: seq<int>, i: int)
    requires Sorted(a) && Sorted(b) && Good(a, b, i) && Half(a, b) >= 1
    ensures MaxB(LeftOf(a, i), LeftOf(b, Half(a, b) - i)).Fin?
    ensures forall q :: 0 <= q < |RightPart(a, b, i)| ==>
      MaxB(LeftOf(a, i), LeftOf(b, Half(a, b) - i)).v <= RightPart(a, b, i)[q]
  {
    LeftMax(a, b, i);
    PartsMultiset(a, b, i);
    if |a| + |b| > Half(a, b) {
      RightMin(a, b, i);
      MaxLeMin(a, b, i);
    }
  }

  /** At a good partition no element of the left half is above the smaller right neighbour. */
  lemma RightAboveLeft(a: seq<int>, b: seq<int>, i: int)
    requires Sorted(a) && Sorted(b) && Good(a, b, i) && |a| + |b| > Half(a, b) >= 1
    ensures MinB(RightOf(a, i), RightOf(b, Half(a, b) - i)).Fin?
    ensures forall p :: 0 <= p < |LeftPart(a, b, i)| ==>
      LeftPart(a, b, i)[p] <= MinB(RightOf(a, i), RightOf(b, Half(a, b) - i)).v
  {
    RightMin(a, b, i);
    LeftMax(a, b, i);
    MaxLeMin(a, b, i);
  }

  /** The maximum of the lower part sits just before the split in the sorted order. */
  lemma SplitMiddleLeft(s: seq<int>, l: seq<int>, r: seq<int>, k: int, x: int)
    requires SplitAt(s, l, r, x) && x in multiset(l)
    requires k == |l| - 1
    ensures 0 <= k < |s| && RankValue(s, k) == x
  {
    SortOfSplit(s, l, r, x);
    LastOfSorted(l, Sort(l), x);
  }

  /** The minimum of the upper part sits just after the split in the sorted order. */
  lemma SplitMiddleRight(s: seq<int>, l: seq<int>, r: seq<int>, k: int, y: int)
    requires SplitAt(s, l, r, y) && y in multiset(r)
    requires k == |l|
    ensures 0 <= k < |s| && RankValue(s, k) == y
  {
    SortOfSplit(s, l, r, y);
    FirstOfSorted(r, Sort(r), y);
  }

  /** `SplitMiddleLeft` for the halves of a partition of `a + b`. */
  lemma PartitionMiddleLeft(a: seq<int>, b: seq<int>, i: int, x: int)
    requires InHalf(a, b, i) && SplitAt(a + b, LeftPart(a, b, i), RightPart(a, b, i), x)
    requires x in multiset(LeftPart(a, b, i)) && Half(a, b) == |LeftPart(a, b, i)|
    ensures 0 <= Half(a, b) - 1 < |a + b| && RankValue(a + b, Half(a, b) - 1) == x
  {
    SplitMiddleLeft(a + b, LeftPart(a, b, i), RightPart(a, b, i), Half(a, b) - 1, x);
  }

  /** `SplitMiddleRight` for the halves of a partition of `a + b`. */
  lemma PartitionMiddleRight(a: seq<int>, b: seq<int>, i: int, y: int)
    requires InHalf(a, b, i) && SplitAt(a + b, LeftPart(a, b, i), RightPart(a, b, i), y)
    requires y in multiset(RightPart(a, b, i)) && Half(a, b) == |LeftPart(a, b, i)|
    ensures 0 <= Half(a, b) < |a + b| && RankValue(a + b, Half(a, b)) == y
  {
    SplitMiddleRight(a + b, LeftPart(a, b, i), RightPart(a, b, i), Half(a, b), y);
  }

  /** The two halves of a partition together hold exactly the elements of both inputs. */
  lemma PartsMultiset(a: seq<int>, b: seq<int>, i: int)
    requires InHalf(a, b, i)
    ensures multiset(a + b) == multiset(LeftPart(a, b, i)) + multiset(RightPart(a, b, i))
    ensures |LeftPart(a, b, i)| == Half(a, b)
    ensures |RightPart(a, b, i)| == |a| + |b| - Half(a, b)
  {
    var j := Half(a, b) - i;
    assert a == a[..i] + a[i..] && b == b[..j] + b[j..];
  }

  /** At a good partition the larger left neighbour splits the merged elements at the left half. */
  lemma LeftFacts(a: seq<int>, b: seq<int>, i: int)
    requires Sorted(a) && Sorted(b) && Good(a, b, i) && |a| + |b| >= 1
    ensures MaxB(LeftOf(a, i), LeftOf(b, Half(a, b) - i)).Fin?
    ensures SplitAt(a + b, LeftPart(a, b, i), RightPart(a, b, i), MaxB(LeftOf(a, i), LeftOf(b, Half(a, b) - i)).v)
    ensures MaxB(LeftOf(a, i), LeftOf(b, Half(a, b) - i)).v in multiset(LeftPart(a, b, i))
    ensures Half(a, b) == |LeftPart(a, b, i)|
  {
    HalfPositive(|a| + |b|);
    PartsMultiset(a, b, i);
    LeftMax(a, b, i);
    LeftBelowRight(a, b, i);
  }

  /** At a good partition of an even total the smaller right neighbour splits the merged elements there too. */
  lemma RightFacts(a: seq<int>, b: seq<int>, i: int)
    requires Sorted(a) && Sorted(b) && Good(a, b, i) && |a| + |b| >= 1 && (|a| + |b|) % 2 == 0
    ensures MinB(RightOf(a, i), RightOf(b, Half(a, b) - i)).Fin?
    ensures SplitAt(a + b, LeftPart(a, b, i), RightPart(a, b, i), MinB(RightOf(a, i), RightOf(b, Half(a, b) - i)).v)
    ensures MinB(RightOf(a, i), RightOf(b, Half(a, b) - i)).v in multiset(RightPart(a, b, i))
    ensures Half(a, b) == |LeftPart(a, b, i)|
  {
    HalfEven(|a| + |b|);
    PartsMultiset(a, b, i);
    RightMin(a, b, i);
    RightAboveLeft(a, b, i);
  }

  /** At a good partition the larger left neighbour is the element at `h - 1` of the merged order. */
  lemma MiddleLeft(a: seq<int>, b: seq<int>, i: int)
    requires Sorted(a) && Sorted(b) && Good(a, b, i) && |a| + |b| >= 1
    ensures MaxB(LeftOf(a, i), LeftOf(b, Half(a, b) - i)).Fin?
    ensures 0 <= Half(a, b) - 1 < |a + b|
    ensures RankValue(a + b, Half(a, b) - 1) == MaxB(LeftOf(a, i), LeftOf(b, Half(a, b) - i)).v
  {
    LeftFacts(a, b, i);
    PartitionMiddleLeft(a, b, i, MaxB(LeftOf(a, i), LeftOf(b, Half(a, b) - i)).v);
  }

  /** At a good partition of an even total the smaller right neighbour is the element at `h`. */
  lemma MiddleRight(a: seq<int>, b: seq<int>, i: int)
    requires Sorted(a) && Sorted(b) && Good(a, b, i) && |a| + |b| >= 1 && (|a| + |b|) % 2 == 0
    ensures MinB(RightOf(a, i), RightOf(b, Half(a, b) - i)).Fin?
    ensures 0 <= Half(a, b) < |a + b|
    ensures RankValue(a + b, Half(a, b)) == MinB(RightOf(a, i), RightOf(b, Half(a, b) - i)).v
  {
    RightFacts(a, b, i);
    PartitionMiddleRight(a, b, i, MinB(RightOf(a, i), RightOf(b, Half(a, b) - i)).v);
  }

  /** At a good partition of an odd total the median is the larger left neighbour. */
  lemma GoodMedianOdd(a: seq<int>, b: seq<int>, i: int)
    requires Sorted(a) && Sorted(b) && |a| + |b| >= 1 && (|a| + |b|) % 2 == 1 && Good(a, b, i)
    ensures MaxB(LeftOf(a, i), LeftOf(b, Half(a, b) - i)).Fin?
    ensures Median(a + b) == MaxB(LeftOf(a, i), LeftOf(b, Half(a, b) - i)).v as real
  {
    MiddleLeft(a, b, i);
    MedianOdd(a, b, MaxB(LeftOf(a, i), LeftOf(b, Half(a, b) - i)).v);
  }

  /** At a good partition of an even total the median is the mean of the two neighbours across it. */
  lemma GoodMedianEven(a: seq<int>, b: seq<int>, i: int)
    requires Sorted(a) && Sorted(b) && |a| + |b| >= 1 && (|a| + |b|) % 2 == 0 && Good(a, b, i)
    ensures MaxB(LeftOf(a, i), LeftOf(b, Half(a, b) - i)).Fin?
    ensures MinB(RightOf(a, i), RightOf(b, Half(a, b) - i)).Fin?
    ensures Median(a + b) == (MaxB(LeftOf(a, i), LeftOf(b, Half(a, b) - i)).v
                              + MinB(RightOf(a, i), RightOf(b, Half(a, b) - i)).v) as real * 0.5
  {
    MiddleLeft(a, b, i);
    MiddleRight(a, b, i);
    MedianEven(a, b, MaxB(LeftOf(a, i), LeftOf(b, Half(a, b) - i)).v, MinB(RightOf(a, i), RightOf(b, Half(a, b) - i)).v);
  }

  /** With an odd total the median is the element of rank `h - 1`. */
  lemma MedianOdd(a: seq<int>, b: seq<int>, x: int)
    requires (|a| + |b|) % 2 == 1 && 0 <= Half(a, b) - 1 < |a + b|
    requires RankValue(a + b, Half(a, b) - 1) == x
    ensures Median(a + b) == x as real
  {
  }

  /** With an even total the median is the mean of the elements of rank `h - 1` and `h`. */
  lemma MedianEven(a: seq<int>, b: seq<int>, x: int, y: int)
    requires (|a| + |b|) % 2 == 0 && 1 <= Half(a, b) < |a + b|
    requires RankValue(a + b, Half(a, b) - 1) == x && RankValue(a + b, Half(a, b)) == y
    ensures Median(a + b) == (x + y) as real * 0.5
  {
  }

  lemma HalfPositive(n: int)
    requires n >= 1
    ensures (n + 1) / 2 >= 1
  {
  }

  lemma HalfEven(n: int)
    requires n >= 1 && n % 2 == 0
    ensures n > (n + 1) / 2
  {
  }

  lemma MedianSymmetric(a: seq<int>, b: seq<int>)
    requires |a| + |b| >= 1
    ensures Median(b + a) == Median(a + b)
  {
    assert multiset(b + a) == multiset(a + b);
    SortIsUnique(b + a, Sort(a + b));
    assert Sort(b + a) == Sort(a + b);
  }

  /** Two sorted inputs, the first no longer than the second, always have a good partition. */
  lemma GoodExists(a: seq<int>, b: seq<int>) returns (g: int)
    requires Sorted(a) && Sorted(b) && |a| <= |b|
    ensures 0 <= g <= |a| && Good(a, b, g)
  {
    g := FirstNotLeft(a, b, 0);
    FirstIsGood(a, b);
  }

  /**
   * One probe of the search: a partition too far right lies above the good
   * one `g`, a partition too far left (and not too far right) below it.
   */
  lemma Probe(a: seq<int>, b: seq<int>, g: int, p: int)
    requires Sorted(a) && Sorted(b) && |a| <= |b| && 0 <= g <= |a| && 0 <= p <= |a|
    requires InHalf(a, b, g) && InHalf(a, b, p) && Good(a, b, g)
    ensures TooFarRight(a, b, p) ==> g < p
    ensures !TooFarRight(a, b, p) && TooFarLeft(a, b, p) ==> p < g
  {
    if TooFarRight(a, b, p) && p <= g {
      TooFarRightMonotone(a, b, p, g);
    }
    if TooFarLeft(a, b, p) && g <= p {
      TooFarLeftMonotone(a, b, g, p);
    }
  }

  /** `find_median` of two sorted sequences, at least one of them non-empty. */
  method FindMedian(nums1: seq<int>, nums2: seq<int>) returns (r: real)
    requires Sorted(nums1) && Sorted(nums2) && |nums1| + |nums2| >= 1
    ensures r == Median(nums1 + nums2)
  {
    if |nums1| > |nums2| {
      r := SearchPartition(nums2, nums1);
      MedianSymmetric(nums1, nums2);
    } else {
      r := SearchPartition(nums1, nums2);
    }
  }

  /** The binary search of `find_median` once the first sequence is the shorter one. */
  method SearchPartition(a: seq<int>, b: seq<int>) returns (r: real)
    requires Sorted(a) && Sorted(b) && |a| <= |b| && |a| + |b| >= 1
    ensures r == Median(a + b)
  {
    var left := 0;
    var right := |a|;
    ghost var g := GoodExists(a, b);
    while left <= right
      invariant 0 <= left <= g <= right <= |a|
      decreases right - left
    {
      var pivot1 := (left + right) / 2;
      var pivot2 := (|a| + |b| + 1) / 2 - pivot1;
      HalfRange(a, b, pivot1);
      var maxLeft1 := if pivot1 == 0 then NegInf else Fin(a[pivot1 - 1]);
      var minRight1 := if pivot1 == |a| then PosInf else Fin(a[pivot1]);
      var maxLeft2 := if pivot2 == 0 then NegInf else Fin(b[pivot2 - 1]);
      var minRight2 := if pivot2 == |b| then PosInf else Fin(b[pivot2]);
      assert pivot2 == Half(a, b) - pivot1;
      assert maxLeft1 == LeftOf(a, pivot1) && minRight1 == RightOf(a, pivot1);
      assert maxLeft2 == LeftOf(b, pivot2) && minRight2 == RightOf(b, pivot2);
      Probe(a, b, g, pivot1);
      if LeB(maxLeft1, minRight2) && LeB(maxLeft2, minRight1) {
        if (|a| + |b|) % 2 == 0 {
          GoodMedianEven(a, b, pivot1);
          return (MaxB(maxLeft1, maxLeft2).v + MinB(minRight1, minRight2).v) as real * 0.5;
        } else {
          GoodMedianOdd(a, b, pivot1);
          return MaxB(maxLeft1, maxLeft2).v as real;
        }
      } else if !LeB(maxLeft1, minRight2) {
        right := pivot1;
      } else {
        left := pivot1 + 1;
      }
    }
    assert false;
  }
}
