/** `nonzero_product`: the product of the nonzero diagonal entries of a matrix. */
module NonzeroProduct {
  import opened Wrappers

  /** A two-dimensional array: every row has the same length. */
  predicate IsMatrix(m: seq<seq<int>>) {
    forall i, j :: 0 <= i < j < |m| ==> |m[i]| == |m[j]|
  }

  function Cols(m: seq<seq<int>>): nat {
    if |m| == 0 then 0 else |m[0]|
  }

  /** `np.diagonal(matrix)`. */
  function Diagonal(m: seq<seq<int>>): (d: seq<int>)
    requires IsMatrix(m)
    ensures |d| == if |m| < Cols(m) then |m| else Cols(m)
    ensures forall i :: 0 <= i < |d| ==> i < |m| && i < |m[i]| && d[i] == m[i][i]
  {
    var n := if |m| < Cols(m) then |m| else Cols(m);
    seq(n, i requires 0 <= i < n && i < |m| && i < |m[i]| => m[i][i])
  }

  /** `diag[np.nonzero(diag)]`: the nonzero entries, in order. */
  function NonZero(d: seq<int>): (r: seq<int>)
    ensures forall k :: 0 <= k < |r| ==> r[k] != 0
    ensures forall v :: v in r <==> v in d && v != 0
    ensures |r| == 0 <==> forall k :: 0 <= k < |d| ==> d[k] == 0
  {
    if |d| == 0 then []
    else (if d[0] != 0 then [d[0]] else []) + NonZero(d[1..])
  }

  /** `np.prod` over unbounded integers: a product of nonzero factors is nonzero. */
  function Product(s: seq<int>): (p: int)
    ensures (forall k :: 0 <= k < |s| ==> s[k] != 0) ==> p != 0
  {
    if |s| == 0 then 1
    else
      var t := Product(s[1..]);
      assert (forall k :: 0 <= k < |s| ==> s[k] != 0) ==> s[0] != 0 && t != 0;
      NonzeroMul(s[0], t);
      s[0] * t
  }

  lemma NonzeroMul(a: int, b: int)
    ensures a != 0 && b != 0 ==> a * b != 0
  {
    if a != 0 && b != 0 {
      if a > 0 && b > 0 { assert a * b > 0; }
      else if a > 0 { assert a * (-b) > 0; }
      else if b > 0 { assert (-a) * b > 0; }
      else { assert (-a) * (-b) > 0; }
    }
  }

  function NonzeroProduct(matrix: seq<seq<int>>): (r: Option<int>)
    requires IsMatrix(matrix)
    ensures r == None <==> forall i :: 0 <= i < |Diagonal(matrix)| ==> matrix[i][i] == 0
    ensures r.Some? ==> r.value == Product(NonZero(Diagonal(matrix))) && r.value != 0
  {
    var nz := NonZero(Diagonal(matrix));
    if |nz| == 0 then None else Some(Product(nz))
  }
}
