/** The median of three integers (`get_middle_value`). */
module MiddleValueOfTriple {

  function Min3(a: int, b: int, c: int): int {
    if a <= b && a <= c then a else if b <= c then b else c
  }

  function Max3(a: int, b: int, c: int): int {
    if a >= b && a >= c then a else if b >= c then b else c
  }

  /**
   * `get_middle_value`: the branch order of the source. The result is one of
   * the arguments and is the middle of the sorted triple, i.e. what remains
   * after taking away the least and the greatest.
   */
  function GetMiddleValue(a: int, b: int, c: int): (r: int)
    ensures r == a || r == b || r == c
    ensures r == a + b + c - Min3(a, b, c) - Max3(a, b, c)
    ensures Min3(a, b, c) <= r <= Max3(a, b, c)
  {
    if (a >= b || c >= b) && (b >= c || b >= a) then b
    else if (a >= c || b >= c) && (c >= b || c >= a) then c
    else a
  }

  /** The result does not depend on the order of the arguments. */
  lemma PermutationInvariant(a: int, b: int, c: int)
    ensures GetMiddleValue(a, b, c) == GetMiddleValue(b, a, c)
    ensures GetMiddleValue(a, b, c) == GetMiddleValue(a, c, b)
    ensures GetMiddleValue(a, b, c) == GetMiddleValue(c, b, a)
  {
  }

  /** Three equal arguments give that value. */
  lemma AllEqual(a: int)
    ensures GetMiddleValue(a, a, a) == a
  {
  }
}
