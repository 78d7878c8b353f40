// The `cache(max_size)` decorator: results of a function are kept for the
// `max_size` most recently used argument keys in an ordered dictionary, which
// is modelled by the order of its keys (least recent first) beside a map from
// key to stored result.

module LruCache {

  // ---------------------------------------------------------------- string order

  /** Python's `<` on `str`: lexicographic by character code, a proper prefix first. */
  predicate Below(a: string, b: string)
    decreases |a|
  {
    if a == [] then b != []
    else b != [] && (a[0] < b[0] || (a[0] == b[0] && Below(a[1..], b[1..])))
  }

  lemma {:induction false} BelowIrreflexive(a: string)
    ensures !Below(a, a)
    decreases |a|
  {
    if a != [] {
      BelowIrreflexive(a[1..]);
    }
  }

  lemma {:induction false} BelowAsymmetric(a: string, b: string)
    ensures Below(a, b) ==> !Below(b, a)
    decreases |a|
  {
    if a != [] && b != [] && a[0] == b[0] {
      BelowAsymmetric(a[1..], b[1..]);
    }
  }

  lemma {:induction false} BelowTransitive(a: string, b: string, c: string)
    requires Below(a, b) && Below(b, c)
    ensures Below(a, c)
    decreases |a|
  {
    if a != [] && a[0] == b[0] && b[0] == c[0] {
      BelowTransitive(a[1..], b[1..], c[1..]);
    }
  }

  lemma {:induction false} BelowTotal(a: string, b: string)
    requires a != b
    ensures Below(a, b) || Below(b, a)
    decreases |a|
  {
    if a != [] && b != [] && a[0] == b[0] {
      assert a == [a[0]] + a[1..] && b == [b[0]] + b[1..];
      BelowTotal(a[1..], b[1..]);
    }
  }

  // ---------------------------------------------------------------- keyword items

  /** The keyword arguments of one call, in call order: Python never repeats a name. */
  predicate DistinctNames<V>(kw: seq<(string, V)>) {
    forall i, j :: 0 <= i < j < |kw| ==> kw[i].0 != kw[j].0
  }

  /** Names strictly increase from each item to the next. */
  predicate NamesIncreasing<V>(s: seq<(string, V)>) {
    forall i :: 0 <= i < |s| - 1 ==> Below(s[i].0, s[i + 1].0)
  }

  /** Inserts `p` before the first item whose name is above its own. */
  function Insert<V>(p: (string, V), s: seq<(string, V)>): (r: seq<(string, V)>)
    ensures multiset(r) == multiset(s) + multiset{p}
    ensures s == [] ==> r == [p]
    ensures s != [] ==> r[0] == p || r[0] == s[0]
  {
    if s == [] then [p]
    else if Below(p.0, s[0].0) then [p] + s
    else
      assert s == [s[0]] + s[1..];
      [s[0]] + Insert(p, s[1..])
  }

  /** `sorted(kwargs.items())`, by insertion. */
  function SortByName<V>(kw: seq<(string, V)>): (r: seq<(string, V)>)
    ensures multiset(r) == multiset(kw)
  {
    if kw == [] then []
    else
      assert kw == [kw[0]] + kw[1..];
      Insert(kw[0], SortByName(kw[1..]))
  }

  lemma {:induction false} InsertIncreasing<V>(p: (string, V), s: seq<(string, V)>)
    requires NamesIncreasing(s) && forall q :: q in s ==> q.0 != p.0
    ensures NamesIncreasing(Insert(p, s))
  {
    if s != [] && !Below(p.0, s[0].0) {
      BelowTotal(p.0, s[0].0);
      assert s[1..] == s[1..] && forall q :: q in s[1..] ==> q in s;
      InsertIncreasing(p, s[1..]);
      var r := Insert(p, s);
      var tail := Insert(p, s[1..]);
      assert r == [s[0]] + tail;
      assert tail[0] == p || tail[0] == s[1];
    }
  }

  /** With distinct names the sorted items have strictly increasing names. */
  lemma {:induction false} SortIncreasing<V>(kw: seq<(string, V)>)
    requires DistinctNames(kw)
    ensures NamesIncreasing(SortByName(kw))
  {
    if kw != [] {
      var rest := kw[1..];
      assert DistinctNames(rest) by {
        forall i, j | 0 <= i < j < |rest| ensures rest[i].0 != rest[j].0 {
          assert rest[i] == kw[i + 1] && rest[j] == kw[j + 1];
        }
      }
      SortIncreasing(rest);
      forall q | q in SortByName(rest) ensures q.0 != kw[0].0 {
        assert q in multiset(SortByName(rest));
        assert q in rest;
        var j :| 0 <= j < |rest| && rest[j] == q;
        assert kw[j + 1] == q;
      }
      InsertIncreasing(kw[0], SortByName(rest));
    }
  }

  /** The first item of an increasing sequence is below every later one. */
  lemma {:induction false} HeadLeast<V>(s: seq<(string, V)>, i: int)
    requires NamesIncreasing(s) && 0 < i < |s|
    ensures Below(s[0].0, s[i].0)
  {
    if i > 1 {
      HeadLeast(s, i - 1);
      BelowTransitive(s[0].0, s[i - 1].0, s[i].0);
    }
  }

  lemma DropHead<V>(s: seq<(string, V)>)
    requires NamesIncreasing(s) && s != []
    ensures NamesIncreasing(s[1..])
    ensures multiset(s[1..]) == multiset(s) - multiset{s[0]}
  {
    assert s == [s[0]] + s[1..];
    forall i | 0 <= i < |s[1..]| - 1 ensures Below(s[1..][i].0, s[1..][i + 1].0) {
      assert s[1..][i] == s[i + 1] && s[1..][i + 1] == s[i + 2];
    }
  }

  /** Two increasing sequences holding the same items are equal. */
  lemma {:induction false} IncreasingUnique<V>(s: seq<(string, V)>, t: seq<(string, V)>)
    requires NamesIncreasing(s) && NamesIncreasing(t) && multiset(s) == multiset(t)
    ensures s == t
  {
    if s == [] {
      assert |t| == |multiset(t)| == 0;
    } else {
      assert s[0] in multiset(t);
      assert t != [];
      assert t[0] in multiset(s);
      if s[0] != t[0] {
        var j :| 0 <= j < |t| && t[j] == s[0];
        var i :| 0 <= i < |s| && s[i] == t[0];
        HeadLeast(t, j);
        HeadLeast(s, i);
        BelowAsymmetric(s[0].0, t[0].0);
        assert false;
      }
      DropHead(s);
      DropHead(t);
      IncreasingUnique(s[1..], t[1..]);
    }
  }

  // ---------------------------------------------------------------- keys

  /**
   * The cache key of a call: the positional tuple alone when there are no
   * keyword arguments, otherwise the tuple beside the keyword items sorted by
   * name (as an immutable tuple).
   */
  datatype Key<V> = Positional(args: seq<V>) | Keyword(args: seq<V>, items: seq<(string, V)>)

  function MakeKey<V>(args: seq<V>, kwargs: seq<(string, V)>): Key<V> {
    if kwargs == [] then Positional(args) else Keyword(args, SortByName(kwargs))
  }

  /** The keyword arguments a key stands for, as a bag of (name, value) items. */
  function KeyBag<V(==)>(k: Key<V>): multiset<(string, V)> {
    match k
    case Positional(_) => multiset{}
    case Keyword(_, items) => multiset(items)
  }

  /** A key records the positional arguments and the keyword arguments of its call. */
  lemma MakeKeyRecordsCall<V>(args: seq<V>, kwargs: seq<(string, V)>)
    ensures MakeKey(args, kwargs).args == args
    ensures KeyBag(MakeKey(args, kwargs)) == multiset(kwargs)
  {
    if kwargs == [] {
      assert multiset(kwargs) == multiset{};
    }
  }

  /** Two calls get the same key exactly when they pass the same positionals and the same keywords in any order. */
  lemma SameKey<V>(args: seq<V>, kw: seq<(string, V)>, args': seq<V>, kw': seq<(string, V)>)
    requires DistinctNames(kw) && DistinctNames(kw')
    ensures MakeKey(args, kw) == MakeKey(args', kw') <==> args == args' && multiset(kw) == multiset(kw')
  {
    MakeKeyRecordsCall(args, kw);
    MakeKeyRecordsCall(args', kw');
    if args == args' && multiset(kw) == multiset(kw') {
      if kw == [] {
        assert |kw'| == |multiset(kw')| == 0;
      } else {
        assert |kw'| == |multiset(kw')| > 0;
        SortIncreasing(kw);
        SortIncreasing(kw');
        IncreasingUnique(SortByName(kw), SortByName(kw'));
      }
    }
  }

  // ---------------------------------------------------------------- the store

  predicate Distinct<K(==)>(s: seq<K>) {
    forall i, j :: 0 <= i < j < |s| ==> s[i] != s[j]
  }

  /** `s` without `x`. */
  function Remove<K(==,!new)>(s: seq<K>, x: K): (r: seq<K>)
    ensures forall y :: y in r <==> y in s && y != x
    ensures Distinct(s) ==> Distinct(r)
    ensures Distinct(s) && x in s ==> |r| == |s| - 1
    ensures x !in s ==> r == s
  {
    if s == [] then []
    else
      var rest := Remove(s[1..], x);
      assert forall y :: y in s[1..] ==> y in s;
      assert Distinct(s) ==> Distinct(s[1..]) && s[0] !in s[1..];
      if s[0] == x then rest else
        assert s == [s[0]] + s[1..];
        [s[0]] + rest
  }

  function MaxInt(a: int, b: int): int { if a < b then b else a }

  /** A hit keeps the same keys and moves the key to the most recent end. */
  lemma MoveToEnd<K(!new)>(order: seq<K>, key: K)
    requires Distinct(order) && key in order
    ensures var r := Remove(order, key) + [key];
      Distinct(r) && |r| == |order| && r[|r| - 1] == key && forall y :: y in r <==> y in order
  {
  }

  /** Dropping the least recent key of a duplicate-free order drops that key alone. */
  lemma DropOldest<K(!new)>(order: seq<K>)
    requires Distinct(order) && order != []
    ensures Distinct(order[1..]) && order[0] !in order[1..]
    ensures forall y :: y in order[1..] <==> y in order && y != order[0]
  {
    forall y | y in order && y != order[0] ensures y in order[1..] {
      var i :| 0 <= i < |order| && order[i] == y;
      assert order[1..][i - 1] == y;
    }
  }

  /** A miss appends the new key and, past capacity, drops the least recent one: at most `max_size` keys stay, and only the oldest leaves. */
  lemma AdmitBound<K(!new)>(order: seq<K>, key: K, maxSize: int)
    requires Distinct(order) && key !in order && |order| <= MaxInt(maxSize, 0)
    ensures var grown := order + [key];
      var r := if |grown| > maxSize then grown[1..] else grown;
      && Distinct(r) && |r| <= MaxInt(maxSize, 0) && (key in r <==> maxSize > 0)
      && (forall y :: y in r <==> y in grown && (|grown| <= maxSize || y != grown[0]))
  {
    var grown := order + [key];
    assert Distinct(grown);
    DropOldest(grown);
  }

  class Cache<V(==,!new)> {
    const maxSize: int
    /** The wrapped function, over the positional arguments and the bag of keyword items. */
    const func: (seq<V>, multiset<(string, V)>) -> V
    /** The keys of `cached_results_dict`, least recently used first. */
    var order: seq<Key<V>>
    var store: map<Key<V>, V>

    /** The keys are those of the store, each once; at most `max_size` of them; every stored value is what `func` returns for its key. */
    ghost predicate Valid()
      reads this
    {
      && (forall k :: k in store <==> k in order)
      && Distinct(order)
      && |order| <= MaxInt(maxSize, 0)
      && (forall k :: k in store ==> store[k] == func(k.args, KeyBag(k)))
    }

    /** `cache(max_size)(func)`: an empty store. */
    constructor (maxSize: int, func: (seq<V>, multiset<(string, V)>) -> V)
      ensures Valid() && this.maxSize == maxSize && this.func == func
      ensures order == [] && store == map[]
    {
      this.maxSize := maxSize;
      this.func := func;
      order := [];
      store := map[];
    }

    /**
     * `wrapper(*args, **kwargs)`. A call with keyword arguments is looked up
     * under the hashable key `MakeKey`, the corrected form of the source's
     * key; the key as written raises `TypeError` (`KeywordCallRaises`).
     */
    method Call(args: seq<V>, kwargs: seq<(string, V)>) returns (r: V)
      requires Valid() && DistinctNames(kwargs)
      modifies this
      ensures Valid()
      ensures r == func(args, multiset(kwargs))
      ensures var key := MakeKey(args, kwargs);
        if key in old(store) then
          r == old(store)[key] && store == old(store) && order == Remove(old(order), key) + [key]
        else
          var grown := old(order) + [key];
          if |grown| > maxSize then
            order == grown[1..] && store == old(store)[key := r] - {grown[0]}
          else
            order == grown && store == old(store)[key := r]
    {
      var key := MakeKey(args, kwargs);
      MakeKeyRecordsCall(args, kwargs);
      if key in store {
        MoveToEnd(order, key);
        order := Remove(order, key) + [key];
        r := store[key];
        return;
      }
      r := func(args, multiset(kwargs));
      store := store[key := r];
      order := order + [key];
      assert Distinct(order);
      if |order| > maxSize {
        DropOldest(order);
        store := store - {order[0]};
        order := order[1..];
      }
    }
  }

  // ---------------------------------------------------------------- the key as written

  /**
   * The key `_make_key` builds: the positional tuple, or a tuple holding the
   * positional tuple and a `list` of the sorted keyword items.
   */
  datatype RawKey<V> = ArgsTuple(args: seq<V>) | ArgsAndList(args: seq<V>, items: seq<(string, V)>)

  function MakeKeyAsWritten<V>(args: seq<V>, kwargs: seq<(string, V)>): RawKey<V> {
    if kwargs == [] then ArgsTuple(args) else ArgsAndList(args, SortByName(kwargs))
  }

  /**
   * A key's hashability, given that of the argument values: the positional
   * tuple is hashable when every argument is; a `list` never is.
   */
  predicate Hashable<V>(k: RawKey<V>, hashable: V -> bool) {
    k.ArgsTuple? && forall i :: 0 <= i < |k.args| ==> hashable(k.args[i])
  }

  datatype Lookup = Found(present: bool) | TypeError

  /** `key in cached_results_dict`: raises `TypeError` for an unhashable key. */
  function ContainsAsWritten<V(==)>(keys: set<RawKey<V>>, key: RawKey<V>, hashable: V -> bool): (r: Lookup)
    ensures r == TypeError <==> !Hashable(key, hashable)
    ensures r.Found? ==> (r.present <==> key in keys)
  {
    if Hashable(key, hashable) then Found(key in keys) else TypeError
  }

  /**
   * Every call that passes a keyword argument fails at the first lookup,
   * before `func` runs, whatever the argument values are.
   */
  lemma KeywordCallRaises<V>(keys: set<RawKey<V>>, args: seq<V>, kwargs: seq<(string, V)>, hashable: V -> bool)
    requires kwargs != []
    ensures ContainsAsWritten(keys, MakeKeyAsWritten(args, kwargs), hashable) == TypeError
  {
  }

  /**
   * A positional call raises at the same lookup exactly when some argument
   * is unhashable, as `f([1, 2])` does.
   */
  lemma PositionalCallRaises<V>(keys: set<RawKey<V>>, args: seq<V>, hashable: V -> bool)
    ensures ContainsAsWritten(keys, MakeKeyAsWritten(args, []), hashable) == TypeError
      <==> exists i :: 0 <= i < |args| && !hashable(args[i])
  {
  }

  /** For instance `f(1, x=2)` on an empty cache. */
  lemma KeywordCallExample()
    ensures ContainsAsWritten({}, MakeKeyAsWritten([1], [("x", 2)]), (v: int) => true) == TypeError
  {
  }
}
