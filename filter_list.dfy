/** `filter_list_by_list`: the elements of one sorted list that are absent from another. */
module FilterList {
  import opened Sorting

  /** The filter the loop performs, following its three branches. */
  function Filter(a: seq<int>, b: seq<int>): seq<int>
    decreases |a| + |b|
  {
    if a == [] then []
    else if b == [] then a
    else if a[0] > b[0] then Filter(a, b[1..])
    else if a[0] == b[0] then Filter(a[1..], b)
    else [a[0]] + Filter(a[1..], b)
  }

  /** Reference definition: `[x for x in lst_a if x not in lst_b]`. */
  function Without(a: seq<int>, b: seq<int>): (r: seq<int>)
    ensures forall x :: x in r <==> x in a && x !in b
    ensures |r| <= |a|
  {
    if a == [] then []
    else if a[0] in b then Without(a[1..], b)
    else [a[0]] + Without(a[1..], b)
  }

  /** Dropping from `b` a value below every element of `a` does not change the filter. */
  lemma {:induction false} WithoutDropSmaller(a: seq<int>, b: seq<int>)
    requires b != [] && AllAtLeast(a, b[0] + 1)
    ensures Without(a, b) == Without(a, b[1..])
  {
    if a != [] {
      assert a[0] in b <==> a[0] in b[1..] by {
        assert b == [b[0]] + b[1..];
      }
      WithoutDropSmaller(a[1..], b);
    }
  }

  lemma {:induction false} WithoutNothing(a: seq<int>)
    ensures Without(a, []) == a
  {
    if a != [] {
      WithoutNothing(a[1..]);
    }
  }

  /** On sorted inputs the loop keeps exactly the elements of `a` that do not occur in `b`, in order. */
  lemma {:induction false} FilterIsWithout(a: seq<int>, b: seq<int>)
    requires Sorted(a) && Sorted(b)
    ensures Filter(a, b) == Without(a, b)
    decreases |a| + |b|
  {
    if a != [] && b == [] {
      WithoutNothing(a);
    } else if a != [] && b != [] {
      if a[0] > b[0] {
        assert AllAtLeast(a, b[0] + 1) by {
          forall k | 0 <= k < |a| ensures b[0] + 1 <= a[k] { assert k == 0 || a[0] <= a[k]; }
        }
        WithoutDropSmaller(a, b);
        FilterIsWithout(a, b[1..]);
      } else if a[0] == b[0] {
        FilterIsWithout(a[1..], b);
      } else {
        assert a[0] !in b by {
          forall k | 0 <= k < |b| ensures b[k] != a[0] { assert k == 0 || b[0] <= b[k]; }
        }
        FilterIsWithout(a[1..], b);
      }
    }
  }

  /** The filtered list of a sorted list is sorted. */
  lemma {:induction false} WithoutSorted(a: seq<int>, b: seq<int>)
    requires Sorted(a)
    ensures Sorted(Without(a, b))
  {
    if a != [] {
      WithoutSorted(a[1..], b);
      if a[0] !in b {
        var rest := Without(a[1..], b);
        assert AllAtLeast(rest, a[0]) by {
          forall k | 0 <= k < |rest| ensures a[0] <= rest[k] {
            assert rest[k] in a[1..];
          }
        }
        PrependSorted(a[0], rest);
      }
    }
  }

  /** `filter_list_by_list`. */
  method FilterListByList(a: seq<int>, b: seq<int>) returns (result: seq<int>)
    ensures result == Filter(a, b)
    ensures Sorted(a) && Sorted(b) ==>
      result == Without(a, b) && Sorted(result) && forall x :: x in result <==> x in a && x !in b
  {
    var ia, ib := 0, 0;
    result := [];
    while ia != |a| && ib != |b|
      invariant 0 <= ia <= |a| && 0 <= ib <= |b|
      invariant result + Filter(a[ia..], b[ib..]) == Filter(a, b)
      decreases |a| - ia + |b| - ib
    {
      assert a[ia..][1..] == a[ia + 1..] && b[ib..][1..] == b[ib + 1..];
      if a[ia] > b[ib] {
        ib := ib + 1;
      } else if a[ia] == b[ib] {
        ia := ia + 1;
      } else {
        result := result + [a[ia]];
        ia := ia + 1;
      }
    }
    if ia != |a| {
      assert Filter(a[ia..], b[ib..]) == a[ia..];
      result := result + a[ia..];
    } else {
      assert Filter(a[ia..], b[ib..]) == [];
    }
    if Sorted(a) && Sorted(b) {
      FilterIsWithout(a, b);
      WithoutSorted(a, b);
    }
  }
}
