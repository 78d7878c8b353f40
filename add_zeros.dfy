/** `add_zeros`: a zero between every pair of neighbouring elements. */
module AddZeros {

  /** `np.insert(x, np.arange(1, len(x)), 0)` on a one-dimensional integer array. */
  function AddZeros(x: seq<int>): (r: seq<int>)
    ensures |r| == if |x| == 0 then 0 else 2 * |x| - 1
    ensures forall i :: 0 <= i < |x| ==> r[2 * i] == x[i]
    ensures forall k :: 0 <= k < |r| && k % 2 == 1 ==> r[k] == 0
  {
    if |x| <= 1 then x
    else
      var t := AddZeros(x[1..]);
      assert forall k :: 2 <= k < 2 + |t| ==> ([x[0], 0] + t)[k] == t[k - 2];
      [x[0], 0] + t
  }

  /** The elements at even positions. */
  function Evens(r: seq<int>): (e: seq<int>)
    ensures |e| == (|r| + 1) / 2
  {
    seq((|r| + 1) / 2, i requires 0 <= i < (|r| + 1) / 2 => r[2 * i])
  }

  /** Taking the even positions recovers the input. */
  lemma EvensRecover(x: seq<int>)
    ensures Evens(AddZeros(x)) == x
  {
  }
}
