/** `merge_iterative` and `merge_sorted`: merging two sorted lists. */
module MergeLists {
  import opened Sorting

  /** The merge the loop performs: on a tie the element of `b` goes first. */
  function Merge(a: seq<int>, b: seq<int>): (r: seq<int>)
    ensures |r| == |a| + |b|
    decreases |a| + |b|
  {
    if a == [] then b
    else if b == [] then a
    else if a[0] < b[0] then [a[0]] + Merge(a[1..], b)
    else [b[0]] + Merge(a, b[1..])
  }

  /** The merge is a permutation of the concatenated inputs. */
  lemma {:induction false} MergePermutation(a: seq<int>, b: seq<int>)
    ensures multiset(Merge(a, b)) == multiset(a) + multiset(b)
    decreases |a| + |b|
  {
    if a != [] && b != [] {
      if a[0] < b[0] {
        MergePermutation(a[1..], b);
        assert a == [a[0]] + a[1..];
      } else {
        MergePermutation(a, b[1..]);
        assert b == [b[0]] + b[1..];
      }
    }
  }

  lemma LowerBoundFromMultiset(s: seq<int>, t: seq<int>, lo: int)
    requires AllAtLeast(t, lo) && multiset(s) == multiset(t)
    ensures AllAtLeast(s, lo)
  {
    forall k | 0 <= k < |s| ensures lo <= s[k] {
      assert s[k] in multiset(t);
    }
  }

  /** Merging two sorted lists gives a sorted list. */
  lemma {:induction false} MergeSorted(a: seq<int>, b: seq<int>)
    requires Sorted(a) && Sorted(b)
    ensures Sorted(Merge(a, b))
    decreases |a| + |b|
  {
    if a != [] && b != [] {
      if a[0] < b[0] {
        MergeSorted(a[1..], b);
        MergePermutation(a[1..], b);
        var rest := a[1..] + b;
        assert AllAtLeast(rest, a[0]) by {
          forall k | 0 <= k < |rest| ensures a[0] <= rest[k] {
            if k < |a| - 1 { assert rest[k] == a[k + 1]; } else { assert rest[k] == b[k - |a| + 1]; }
          }
        }
        LowerBoundFromMultiset(Merge(a[1..], b), rest, a[0]);
        PrependSorted(a[0], Merge(a[1..], b));
      } else {
        MergeSorted(a, b[1..]);
        MergePermutation(a, b[1..]);
        var rest := a + b[1..];
        assert AllAtLeast(rest, b[0]) by {
          forall k | 0 <= k < |rest| ensures b[0] <= rest[k] {
            if k < |a| { assert rest[k] == a[k]; } else { assert rest[k] == b[k - |a| + 1]; }
          }
        }
        LowerBoundFromMultiset(Merge(a, b[1..]), rest, b[0]);
        PrependSorted(b[0], Merge(a, b[1..]));
      }
    }
  }

  /** On sorted inputs the merge is exactly `sorted(lst_a + lst_b)`. */
  lemma MergeIsSort(a: seq<int>, b: seq<int>)
    requires Sorted(a) && Sorted(b)
    ensures Merge(a, b) == MergeSortedLists(a, b)
  {
    MergeSorted(a, b);
    MergePermutation(a, b);
    SortIsUnique(a + b, Merge(a, b));
  }

  /** `merge_sorted`: `sorted(lst_a + lst_b)`. */
  function MergeSortedLists(a: seq<int>, b: seq<int>): (r: seq<int>)
    ensures Sorted(r) && multiset(r) == multiset(a) + multiset(b)
  {
    Sort(a + b)
  }

  /** One comparison of the loop takes the smaller head, the head of `b` on a tie. */
  lemma MergeStep(a: seq<int>, b: seq<int>, ia: int, ib: int, done: seq<int>)
    requires 0 <= ia < |a| && 0 <= ib < |b| && done + Merge(a[ia..], b[ib..]) == Merge(a, b)
    ensures a[ia] < b[ib] ==> (done + [a[ia]]) + Merge(a[ia + 1..], b[ib..]) == Merge(a, b)
    ensures b[ib] <= a[ia] ==> (done + [b[ib]]) + Merge(a[ia..], b[ib + 1..]) == Merge(a, b)
  {
    assert a[ia..][1..] == a[ia + 1..] && b[ib..][1..] == b[ib + 1..];
    if a[ia] < b[ib] {
      assert Merge(a[ia..], b[ib..]) == [a[ia]] + Merge(a[ia + 1..], b[ib..]);
      assert (done + [a[ia]]) + Merge(a[ia + 1..], b[ib..]) == done + ([a[ia]] + Merge(a[ia + 1..], b[ib..]));
    } else {
      assert Merge(a[ia..], b[ib..]) == [b[ib]] + Merge(a[ia..], b[ib + 1..]);
      assert (done + [b[ib]]) + Merge(a[ia..], b[ib + 1..]) == done + ([b[ib]] + Merge(a[ia..], b[ib + 1..]));
    }
  }

  /** Once one list is used up, the merge is the rest of the other. */
  lemma MergeTail(a: seq<int>, b: seq<int>, ia: int, ib: int, done: seq<int>)
    requires 0 <= ia <= |a| && 0 <= ib <= |b| && (ia == |a| || ib == |b|)
    requires done + Merge(a[ia..], b[ib..]) == Merge(a, b)
    ensures done + (if ia == |a| then b[ib..] else a[ia..]) == Merge(a, b)
  {
  }

  /** `merge_iterative`: the two-index loop followed by extending with the rest. */
  method MergeIterative(a: seq<int>, b: seq<int>) returns (result: seq<int>)
    ensures result == Merge(a, b)
    ensures multiset(result) == multiset(a) + multiset(b)
    ensures Sorted(a) && Sorted(b) ==> Sorted(result) && result == MergeSortedLists(a, b)
  {
    var ia, ib := 0, 0;
    result := [];
    while ia != |a| && ib != |b|
      invariant 0 <= ia <= |a| && 0 <= ib <= |b|
      invariant result + Merge(a[ia..], b[ib..]) == Merge(a, b)
      decreases |a| - ia + |b| - ib
    {
      MergeStep(a, b, ia, ib, result);
      if a[ia] < b[ib] {
        result := result + [a[ia]];
        ia := ia + 1;
      } else {
        result := result + [b[ib]];
        ib := ib + 1;
      }
    }
    MergeTail(a, b, ia, ib, result);
    if ia == |a| {
      result := result + b[ib..];
    } else {
      result := result + a[ia..];
    }
    MergePermutation(a, b);
    if Sorted(a) && Sorted(b) {
      MergeIsSort(a, b);
    }
  }
}
