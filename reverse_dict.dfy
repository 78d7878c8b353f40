/**
 * `revert`: inverting a dictionary {key: value} into {value: [keys]}.
 * The input dictionary is its sequence of items in iteration order.
 */
module ReverseDict {
  type Item = (string, string)

  predicate HasValue(d: seq<Item>, v: string) {
    exists i :: 0 <= i < |d| && d[i].1 == v
  }

  predicate DistinctKeys(d: seq<Item>) {
    forall i, j :: 0 <= i < j < |d| ==> d[i].0 != d[j].0
  }

  predicate Distinct(s: seq<string>) {
    forall i, j :: 0 <= i < j < |s| ==> s[i] != s[j]
  }

  lemma HasValueSnoc(d: seq<Item>, x: Item, v: string)
    ensures HasValue(d + [x], v) <==> HasValue(d, v) || x.1 == v
  {
    var e := d + [x];
    if HasValue(d, v) {
      var i :| 0 <= i < |d| && d[i].1 == v;
      assert e[i] == d[i];
    }
    if x.1 == v {
      assert e[|d|] == x;
    }
    if HasValue(e, v) {
      var i :| 0 <= i < |e| && e[i].1 == v;
      if i < |d| { assert d[i] == e[i]; }
    }
  }

  /** Reference definition: the keys whose value is `v`, in item order. */
  function KeysWith(d: seq<Item>, v: string): (r: seq<string>)
    ensures forall k :: k in r <==> (k, v) in d
    ensures r == [] <==> !HasValue(d, v)
  {
    if d == [] then []
    else
      var init := d[..|d| - 1];
      var last := d[|d| - 1];
      assert d == init + [last];
      HasValueSnoc(init, last, v);
      KeysWith(init, v) + (if last.1 == v then [last.0] else [])
  }

  /** The distinct values in order of first occurrence. */
  function ValuesOf(d: seq<Item>): (r: seq<string>)
    ensures forall v :: v in r <==> HasValue(d, v)
    ensures Distinct(r)
  {
    if d == [] then []
    else
      var init := d[..|d| - 1];
      var last := d[|d| - 1];
      assert d == init + [last];
      forall v ensures HasValue(d, v) <==> HasValue(init, v) || last.1 == v {
        HasValueSnoc(init, last, v);
      }
      if last.1 in ValuesOf(init) then ValuesOf(init) else ValuesOf(init) + [last.1]
  }

  /** With distinct keys, no key is listed twice for a value. */
  lemma {:induction false} KeysWithDistinct(d: seq<Item>, v: string)
    requires DistinctKeys(d)
    ensures Distinct(KeysWith(d, v))
  {
    if d != [] {
      var init := d[..|d| - 1];
      var last := d[|d| - 1];
      KeysWithDistinct(init, v);
      if last.1 == v {
        forall i | 0 <= i < |init| ensures init[i] != (last.0, v) {
          assert init[i] == d[i];
        }
        assert last.0 !in KeysWith(init, v);
      }
    }
  }

  /** The total length of the key lists of the values `vs`. */
  function Total(d: seq<Item>, vs: seq<string>): nat {
    if vs == [] then 0 else Total(d, vs[..|vs| - 1]) + |KeysWith(d, vs[|vs| - 1])|
  }

  lemma {:induction false} TotalSnoc(d: seq<Item>, x: Item, vs: seq<string>)
    requires Distinct(vs)
    ensures Total(d + [x], vs) == Total(d, vs) + (if x.1 in vs then 1 else 0)
  {
    var e := d + [x];
    assert e[..|e| - 1] == d && e[|e| - 1] == x;
    if vs != [] {
      var init := vs[..|vs| - 1];
      TotalSnoc(d, x, init);
      assert x.1 in vs <==> x.1 in init || x.1 == vs[|vs| - 1] by {
        assert vs == init + [vs[|vs| - 1]];
      }
      assert x.1 == vs[|vs| - 1] ==> x.1 !in init;
    }
  }

  /** Every item lands in exactly one list: the lists together are as long as the dictionary. */
  lemma {:induction false} TotalLength(d: seq<Item>)
    ensures Total(d, ValuesOf(d)) == |d|
  {
    if d != [] {
      var init := d[..|d| - 1];
      var last := d[|d| - 1];
      assert d == init + [last];
      TotalLength(init);
      var vs := ValuesOf(init);
      TotalSnoc(init, last, vs);
      if last.1 !in vs {
        assert ValuesOf(d) == vs + [last.1];
        assert (vs + [last.1])[..|vs|] == vs;
        assert KeysWith(init, last.1) == [];
      }
    }
  }

  /** `sum(len(m[v]) for v in vs)`. */
  function ListsLength(m: map<string, seq<string>>, vs: seq<string>): nat
    requires forall v :: v in vs ==> v in m
  {
    if vs == [] then 0 else ListsLength(m, vs[..|vs| - 1]) + |m[vs[|vs| - 1]]|
  }

  lemma {:induction false} ListsLengthIsTotal(m: map<string, seq<string>>, d: seq<Item>, vs: seq<string>)
    requires forall v :: v in vs ==> v in m && m[v] == KeysWith(d, v)
    ensures ListsLength(m, vs) == Total(d, vs)
  {
    if vs != [] {
      ListsLengthIsTotal(m, d, vs[..|vs| - 1]);
    }
  }

  /** `revert`: the loop over `dct.items()` that appends each key to the list of its value. */
  method Revert(dct: seq<Item>) returns (result: map<string, seq<string>>)
    ensures forall v :: v in result <==> HasValue(dct, v)
    ensures forall v :: v in result ==> result[v] == KeysWith(dct, v)
    ensures forall v, k :: v in result ==> (k in result[v] <==> (k, v) in dct)
    ensures DistinctKeys(dct) ==> forall v :: v in result ==> Distinct(result[v])
    ensures ListsLength(result, ValuesOf(dct)) == |dct|
  {
    result := map[];
    var i := 0;
    while i < |dct|
      invariant 0 <= i <= |dct|
      invariant forall v :: v in result <==> HasValue(dct[..i], v)
      invariant forall v :: v in result ==> result[v] == KeysWith(dct[..i], v)
    {
      var (k, v) := dct[i];
      assert dct[..i + 1] == dct[..i] + [dct[i]];
      assert dct[..i + 1][..i] == dct[..i];
      forall u ensures HasValue(dct[..i + 1], u) <==> HasValue(dct[..i], u) || dct[i].1 == u {
        HasValueSnoc(dct[..i], dct[i], u);
      }
      if v in result {
        result := result[v := result[v] + [k]];
      } else {
        result := result[v := [k]];
      }
      i := i + 1;
    }
    assert dct[..|dct|] == dct;
    if DistinctKeys(dct) {
      forall v | v in result ensures Distinct(result[v]) {
        KeysWithDistinct(dct, v);
      }
    }
    TotalLength(dct);
    ListsLengthIsTotal(result, dct, ValuesOf(dct));
  }
}
