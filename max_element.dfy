/** `max_element`: the greatest element that follows a zero. */
module MaxElement {
  import opened Wrappers

  /** `array[1:][array[:-1] == 0]`: every element whose predecessor is 0, in order. */
  function Candidates(a: seq<int>): (r: seq<int>)
    ensures forall v :: v in r <==> exists i :: 0 <= i < |a| - 1 && a[i] == 0 && a[i + 1] == v
    ensures |r| == 0 <==> forall i :: 0 <= i < |a| - 1 ==> a[i] != 0
  {
    if |a| < 2 then []
    else
      var rest := Candidates(a[1..]);
      (if a[0] == 0 then [a[1]] else []) + rest
  }

  /** `np.max` of a non-empty sequence. */
  function Max(x: seq<int>): (m: int)
    requires |x| > 0
    ensures m in x
    ensures forall v :: v in x ==> v <= m
  {
    if |x| == 1 then x[0]
    else
      var t := Max(x[1..]);
      assert forall v :: v in x ==> v == x[0] || v in x[1..];
      if x[0] >= t then x[0] else t
  }

  function MaxElement(values: seq<int>): (r: Option<int>)
    ensures r == None <==> forall i :: 0 <= i < |values| - 1 ==> values[i] != 0
    ensures r.Some? ==> exists i :: 0 <= i < |values| - 1 && values[i] == 0 && values[i + 1] == r.value
    ensures r.Some? ==> forall i :: 0 <= i < |values| - 1 && values[i] == 0 ==> values[i + 1] <= r.value
  {
    if |values| < 2 then None
    else
      var x := Candidates(values);
      if |x| == 0 then
        None
      else
        assert x[0] in x;
        var m := Max(x);
        assert forall i :: 0 <= i < |values| - 1 && values[i] == 0 ==> values[i + 1] in x;
        Some(m)
  }
}
