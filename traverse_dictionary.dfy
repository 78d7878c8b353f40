/**
 * `traverse_dictionary_*`: flattening a nested dictionary into
 * (dotted key path, value) pairs. A dictionary is its sequence of entries
 * in iteration order; a value is an integer leaf or another dictionary.
 */
module TraverseDictionary {
  datatype Node = Leaf(n: int) | Dict(entries: seq<Entry>)
  datatype Entry = Entry(key: string, value: Node)

  type Pair = (string, int)

  /** `f"{prefix}.{k}" if prefix != "" else k`. */
  function NewPrefix(prefix: string, k: string): string {
    if prefix != "" then prefix + "." + k else k
  }

  /** The pairs in depth-first, insertion order: the reference order of the recursive versions. */
  function Flatten(items: seq<Entry>, prefix: string): seq<Pair>
    decreases items
  {
    if items == [] then [] else FlattenEntry(items[0], prefix) + Flatten(items[1..], prefix)
  }

  function FlattenEntry(e: Entry, prefix: string): seq<Pair>
    decreases e
  {
    match e.value
    case Leaf(n) => [(NewPrefix(prefix, e.key), n)]
    case Dict(sub) => Flatten(sub, NewPrefix(prefix, e.key))
  }

  /** The number of integer leaves; an empty dictionary has none. */
  function LeafCount(items: seq<Entry>): nat
    decreases items
  {
    if items == [] then 0 else EntryLeafCount(items[0]) + LeafCount(items[1..])
  }

  function EntryLeafCount(e: Entry): nat
    decreases e
  {
    match e.value
    case Leaf(_) => 1
    case Dict(sub) => LeafCount(sub)
  }

  /** Independent reference: each leaf with its key path as a list of keys. */
  function Leaves(items: seq<Entry>): (r: seq<(seq<string>, int)>)
    ensures forall i :: 0 <= i < |r| ==> |r[i].0| > 0
    decreases items
  {
    if items == [] then [] else EntryLeaves(items[0]) + Leaves(items[1..])
  }

  function EntryLeaves(e: Entry): (r: seq<(seq<string>, int)>)
    ensures forall i :: 0 <= i < |r| ==> |r[i].0| > 0
    decreases e
  {
    match e.value
    case Leaf(n) => [([e.key], n)]
    case Dict(sub) => PrependKey(e.key, Leaves(sub))
  }

  function PrependKey(k: string, ls: seq<(seq<string>, int)>): seq<(seq<string>, int)> {
    seq(|ls|, i requires 0 <= i < |ls| => ([k] + ls[i].0, ls[i].1))
  }

  /** A key path joined with dots after `prefix`. */
  function Dotted(prefix: string, path: seq<string>): string
    decreases |path|
  {
    if path == [] then prefix else Dotted(NewPrefix(prefix, path[0]), path[1..])
  }

  function Render(prefix: string, ls: seq<(seq<string>, int)>): seq<Pair> {
    seq(|ls|, i requires 0 <= i < |ls| => (Dotted(prefix, ls[i].0), ls[i].1))
  }

  lemma RenderAppend(prefix: string, a: seq<(seq<string>, int)>, b: seq<(seq<string>, int)>)
    ensures Render(prefix, a + b) == Render(prefix, a) + Render(prefix, b)
  {
    assert |Render(prefix, a + b)| == |Render(prefix, a) + Render(prefix, b)|;
    forall i | 0 <= i < |a + b| ensures Render(prefix, a + b)[i] == (Render(prefix, a) + Render(prefix, b))[i] {
      if i < |a| { assert (a + b)[i] == a[i]; } else { assert (a + b)[i] == b[i - |a|]; }
    }
  }

  lemma RenderPrepend(prefix: string, k: string, ls: seq<(seq<string>, int)>)
    ensures Render(prefix, PrependKey(k, ls)) == Render(NewPrefix(prefix, k), ls)
  {
    forall i | 0 <= i < |ls| ensures Render(prefix, PrependKey(k, ls))[i] == Render(NewPrefix(prefix, k), ls)[i] {
      assert ([k] + ls[i].0)[1..] == ls[i].0;
    }
  }

  /** Each reported pair is the dot-joined key path of a leaf with its value, in depth-first order. */
  lemma {:induction false} FlattenIsLeaves(items: seq<Entry>, prefix: string)
    ensures Flatten(items, prefix) == Render(prefix, Leaves(items))
    decreases items
  {
    if items != [] {
      EntryIsLeaves(items[0], prefix);
      FlattenIsLeaves(items[1..], prefix);
      RenderAppend(prefix, EntryLeaves(items[0]), Leaves(items[1..]));
    }
  }

  lemma {:induction false} EntryIsLeaves(e: Entry, prefix: string)
    ensures FlattenEntry(e, prefix) == Render(prefix, EntryLeaves(e))
    decreases e
  {
    match e.value
    case Leaf(n) =>
      assert Render(prefix, EntryLeaves(e))[0].0 == Dotted(prefix, [e.key]);
    case Dict(sub) =>
      FlattenIsLeaves(sub, NewPrefix(prefix, e.key));
      RenderPrepend(prefix, e.key, Leaves(sub));
  }

  lemma {:induction false} DottedExtends(prefix: string, path: seq<string>)
    requires prefix != ""
    ensures |Dotted(prefix, path)| >= |prefix| && Dotted(prefix, path)[..|prefix|] == prefix
    ensures path != [] ==> |Dotted(prefix, path)| > |prefix| && Dotted(prefix, path)[|prefix|] == '.'
    decreases |path|
  {
    if path != [] {
      var q := NewPrefix(prefix, path[0]);
      DottedExtends(q, path[1..]);
      assert q[..|prefix|] == prefix && q[|prefix|] == '.';
      assert Dotted(prefix, path)[..|q|] == q;
    }
  }

  /**
   * From the empty prefix a path starts with its first key, so no leading
   * dot is added; under a non-empty prefix it starts with the prefix and a dot.
   */
  lemma DottedLead(prefix: string, path: seq<string>)
    requires path != [] && path[0] != ""
    ensures prefix == "" ==> |Dotted(prefix, path)| > 0 && Dotted(prefix, path)[0] == path[0][0]
    ensures prefix != "" ==>
      |Dotted(prefix, path)| > |prefix| && Dotted(prefix, path)[..|prefix| + 1] == prefix + "."
  {
    if prefix == "" {
      DottedExtends(path[0], path[1..]);
      assert Dotted(path[0], path[1..])[..|path[0]|][0] == path[0][0];
    } else {
      DottedExtends(prefix, path);
      var d := Dotted(prefix, path);
      assert d[..|prefix| + 1] == d[..|prefix|] + [d[|prefix|]];
    }
  }

  /** Exactly one pair per integer leaf: empty nested dictionaries contribute nothing. */
  lemma {:induction false} FlattenLength(items: seq<Entry>, prefix: string)
    ensures |Flatten(items, prefix)| == LeafCount(items)
    decreases items
  {
    if items != [] {
      EntryLength(items[0], prefix);
      FlattenLength(items[1..], prefix);
    }
  }

  lemma {:induction false} EntryLength(e: Entry, prefix: string)
    ensures |FlattenEntry(e, prefix)| == EntryLeafCount(e)
    decreases e
  {
    match e.value
    case Leaf(_) =>
    case Dict(sub) => FlattenLength(sub, NewPrefix(prefix, e.key));
  }

  /** The number of entries at every depth, used as a termination measure. */
  function Size(items: seq<Entry>): nat
    decreases items
  {
    if items == [] then 0 else 1 + EntrySize(items[0]) + Size(items[1..])
  }

  function EntrySize(e: Entry): nat
    decreases e
  {
    match e.value
    case Leaf(_) => 0
    case Dict(sub) => Size(sub)
  }

  lemma {:induction false} SizeOfEntry(items: seq<Entry>, i: int)
    requires 0 <= i < |items|
    ensures EntrySize(items[i]) < Size(items)
    decreases i
  {
    if i > 0 {
      SizeOfEntry(items[1..], i - 1);
    }
  }

  /** The list the traversal appends to. */
  class PairList {
    var pairs: seq<Pair>

    constructor()
      ensures pairs == []
    {
      pairs := [];
    }
  }

  /** `traverse_dictionary_mutable`: appends the pairs to `result`, keeping what it held before. */
  method TraverseMutable(dct: seq<Entry>, result: PairList, prefix: string)
    modifies result
    ensures result.pairs == old(result.pairs) + Flatten(dct, prefix)
    decreases Size(dct)
  {
    for i := 0 to |dct|
      invariant old(result.pairs) + Flatten(dct, prefix) == result.pairs + Flatten(dct[i..], prefix)
    {
      assert dct[i..][1..] == dct[i + 1..];
      var k, v := dct[i].key, dct[i].value;
      var newPrefix := if prefix != "" then prefix + "." + k else k;
      if v.Dict? {
        SizeOfEntry(dct, i);
        TraverseMutable(v.entries, result, newPrefix);
      } else {
        result.pairs := result.pairs + [(newPrefix, v.n)];
      }
    }
    assert dct[|dct|..] == [];
  }

  /** `traverse_dictionary_immutable`: the inner `dfs` is the mutable traversal on a fresh list. */
  method TraverseImmutable(dct: seq<Entry>, prefix: string) returns (result: seq<Pair>)
    ensures result == Flatten(dct, prefix)
    ensures |result| == LeafCount(dct)
  {
    var acc := new PairList();
    TraverseMutable(dct, acc, prefix);
    result := acc.pairs;
    FlattenLength(dct, prefix);
  }

  /** The pairs still owed by the dictionaries waiting on the stack. */
  function Pending(stack: seq<(seq<Entry>, string)>): multiset<Pair> {
    if stack == [] then multiset{}
    else Pending(stack[..|stack| - 1]) + multiset(Flatten(stack[|stack| - 1].0, stack[|stack| - 1].1))
  }

  function StackSize(stack: seq<(seq<Entry>, string)>): nat {
    if stack == [] then 0 else StackSize(stack[..|stack| - 1]) + 1 + Size(stack[|stack| - 1].0)
  }

  lemma FlattenStep(items: seq<Entry>, j: int, prefix: string)
    requires 0 <= j < |items|
    ensures Flatten(items[j..], prefix) == FlattenEntry(items[j], prefix) + Flatten(items[j + 1..], prefix)
    ensures Size(items[j..]) == 1 + EntrySize(items[j]) + Size(items[j + 1..])
  {
    assert items[j..][1..] == items[j + 1..];
  }

  /** Handling entry `j` moves its pairs either onto the stack or into the result. */
  lemma ProcessEntry(done: multiset<Pair>, stack: seq<(seq<Entry>, string)>, cur: seq<Entry>, j: int, prefix: string,
                     total: multiset<Pair>)
    requires 0 <= j < |cur| && done + Pending(stack) + multiset(Flatten(cur[j..], prefix)) == total
    ensures Size(cur[j..]) == 1 + EntrySize(cur[j]) + Size(cur[j + 1..])
    ensures cur[j].value.Dict? ==>
      done + Pending(stack + [(cur[j].value.entries, NewPrefix(prefix, cur[j].key))])
        + multiset(Flatten(cur[j + 1..], prefix)) == total
    ensures cur[j].value.Leaf? ==>
      done + multiset{(NewPrefix(prefix, cur[j].key), cur[j].value.n)} + Pending(stack)
        + multiset(Flatten(cur[j + 1..], prefix)) == total
  {
    FlattenStep(cur, j, prefix);
    var here := multiset(FlattenEntry(cur[j], prefix));
    var later := multiset(Flatten(cur[j + 1..], prefix));
    assert multiset(Flatten(cur[j..], prefix)) == here + later;
    if cur[j].value.Dict? {
      var pushed := stack + [(cur[j].value.entries, NewPrefix(prefix, cur[j].key))];
      assert pushed[..|pushed| - 1] == stack;
      assert Pending(pushed) == Pending(stack) + here;
    }
  }

  /**
   * `traverse_dictionary_iterative`: a stack of (dictionary, prefix); the
   * pairs are the same as the recursive versions', possibly in another order.
   */
  method TraverseIterative(dct: seq<Entry>) returns (result: seq<Pair>)
    ensures multiset(result) == multiset(Flatten(dct, ""))
    ensures |result| == LeafCount(dct)
  {
    result := [];
    var stack: seq<(seq<Entry>, string)> := [(dct, "")];
    assert stack[..0] == [];
    while stack != []
      invariant multiset(result) + Pending(stack) == multiset(Flatten(dct, ""))
      decreases StackSize(stack)
    {
      var top := stack[|stack| - 1];
      var cur, curPrefix := top.0, top.1;
      ghost var before := StackSize(stack);
      stack := stack[..|stack| - 1];
      for j := 0 to |cur|
        invariant multiset(result) + Pending(stack) + multiset(Flatten(cur[j..], curPrefix)) == multiset(Flatten(dct, ""))
        invariant StackSize(stack) + Size(cur[j..]) < before
      {
        ProcessEntry(multiset(result), stack, cur, j, curPrefix, multiset(Flatten(dct, "")));
        var k, v := cur[j].key, cur[j].value;
        var newPrefix := if curPrefix != "" then curPrefix + "." + k else k;
        if v.Dict? {
          var pushed := stack + [(v.entries, newPrefix)];
          assert pushed[..|pushed| - 1] == stack;
          stack := pushed;
        } else {
          result := result + [(newPrefix, v.n)];
        }
      }
    }
    FlattenLength(dct, "");
    assert |multiset(result)| == |multiset(Flatten(dct, ""))|;
  }
}
