// Recovering an alphabet from a list of words sorted in that alphabet: every
// adjacent pair of words orders the two characters at their first difference,
// giving a graph on the characters; `extract_alphabet` orders its vertices by a
// depth-first search with an explicit stack and reports a cycle as an error.

module Alphabet {
  import opened Wrappers

  predicate Distinct<T(==)>(s: seq<T>) {
    forall i, j :: 0 <= i < j < |s| ==> s[i] != s[j]
  }

  /** A `dict[str, set[str]]`: the keys in insertion order, and the successor set of each key. */
  datatype Graph = Graph(order: seq<char>, succ: map<char, set<char>>)

  /** The keys appear once each, and every successor is itself a key. */
  ghost predicate GraphOk(g: Graph) {
    && Distinct(g.order)
    && (forall x :: x in g.order <==> x in g.succ)
    && (forall x :: x in g.succ ==> forall y :: y in g.succ[x] ==> y in g.succ)
  }

  // ---------------------------------------------------------------- build_graph

  /** All the characters of the words, word after word. */
  function Flatten(words: seq<string>): seq<char> {
    if words == [] then [] else Flatten(words[..|words| - 1]) + words[|words| - 1]
  }

  /** The first occurrence of each element, in order. */
  function Dedup(s: seq<char>): (r: seq<char>)
    ensures Distinct(r) && forall x :: x in r <==> x in s
  {
    if s == [] then [] else
      var d := Dedup(s[..|s| - 1]);
      assert forall x :: x in s <==> x in s[..|s| - 1] || x == s[|s| - 1] by {
        assert s == s[..|s| - 1] + [s[|s| - 1]];
      }
      if s[|s| - 1] in d then d else d + [s[|s| - 1]]
  }

  /** The characters at the first position where two words differ; none when one is a prefix of the other. */
  function FirstDiff(w1: string, w2: string): Option<(char, char)> {
    if w1 == [] || w2 == [] then None
    else if w1[0] != w2[0] then Some((w1[0], w2[0]))
    else FirstDiff(w1[1..], w2[1..])
  }

  /** At the first difference the words agree before it and differ at it. */
  lemma {:induction false} FirstDiffMeaning(w1: string, w2: string)
    ensures FirstDiff(w1, w2).Some? ==>
      exists j :: 0 <= j < |w1| && j < |w2| && w1[..j] == w2[..j] && FirstDiff(w1, w2).value == (w1[j], w2[j]) && w1[j] != w2[j]
    ensures FirstDiff(w1, w2).None? ==> (|w1| <= |w2| && w1 == w2[..|w1|]) || (|w2| <= |w1| && w2 == w1[..|w2|])
  {
    if w1 != [] && w2 != [] {
      if w1[0] != w2[0] {
        assert w1[..0] == w2[..0];
      } else {
        FirstDiffMeaning(w1[1..], w2[1..]);
        if FirstDiff(w1[1..], w2[1..]).Some? {
          var j :| 0 <= j < |w1[1..]| && j < |w2[1..]| && w1[1..][..j] == w2[1..][..j]
            && FirstDiff(w1[1..], w2[1..]).value == (w1[1..][j], w2[1..][j]) && w1[1..][j] != w2[1..][j];
          assert w1[..j + 1] == [w1[0]] + w1[1..][..j];
          assert w2[..j + 1] == [w2[0]] + w2[1..][..j];
        } else {
          assert w1 == [w1[0]] + w1[1..] && w2 == [w2[0]] + w2[1..];
        }
      }
    }
  }

  /** The successors of `c` given by the word pairs before `n`. */
  function Succs(words: seq<string>, n: int, c: char): set<char>
    requires 0 <= n < |words| || n == 0
  {
    if n == 0 then {} else Succs(words, n - 1, c) + EdgeFrom(words[n - 1], words[n], c)
  }

  /** The successor of `c` that one word pair contributes. */
  function EdgeFrom(w1: string, w2: string, c: char): set<char> {
    match FirstDiff(w1, w2)
    case Some(e) => if e.0 == c then {e.1} else {}
    case None => {}
  }

  /** The graph `build_graph` returns: every character of the words, each with the characters ordered after it. */
  ghost function GraphOf(words: seq<string>): Graph {
    var keys := Dedup(Flatten(words));
    Graph(keys, map c | c in keys :: Succs(words, if words == [] then 0 else |words| - 1, c))
  }

  /** Every character ordered by a word pair occurs in the words. */
  lemma {:induction false} SuccsInWords(words: seq<string>, n: int, c: char)
    requires 0 <= n < |words| || n == 0
    ensures forall d :: d in Succs(words, n, c) ==> d in Flatten(words) && c in Flatten(words)
  {
    if n > 0 {
      SuccsInWords(words, n - 1, c);
      match FirstDiff(words[n - 1], words[n])
      case Some(e) =>
        if e.0 == c {
          FirstDiffMeaning(words[n - 1], words[n]);
          InFlatten(words, n - 1);
          InFlatten(words, n);
        }
      case None =>
    }
  }

  lemma {:induction false} InFlatten(words: seq<string>, i: int)
    requires 0 <= i < |words|
    ensures forall c :: c in words[i] ==> c in Flatten(words)
  {
    if i < |words| - 1 {
      assert words[..|words| - 1][i] == words[i];
      InFlatten(words[..|words| - 1], i);
    }
  }

  /** `d` follows `c` after the first `n` word pairs exactly when one of those pairs first differs at (c, d). */
  lemma {:induction false} SuccsMeaning(words: seq<string>, n: int, c: char, d: char)
    requires 0 <= n < |words| || n == 0
    ensures d in Succs(words, n, c) <==> exists i :: 0 <= i < n && FirstDiff(words[i], words[i + 1]) == Some((c, d))
  {
    if n > 0 {
      SuccsMeaning(words, n - 1, c, d);
      if FirstDiff(words[n - 1], words[n]) == Some((c, d)) {
        assert d in Succs(words, n, c);
      }
    }
  }

  lemma {:induction false} FlattenMeaning(words: seq<string>, c: char)
    ensures c in Flatten(words) <==> exists i :: 0 <= i < |words| && c in words[i]
  {
    if words != [] {
      var init := words[..|words| - 1];
      FlattenMeaning(init, c);
      if c in Flatten(init) {
        var i :| 0 <= i < |init| && c in init[i];
        assert words[i] == init[i];
      }
      if exists i :: 0 <= i < |words| && c in words[i] {
        var i :| 0 <= i < |words| && c in words[i];
        if i < |init| {
          assert init[i] == words[i];
        }
      }
    }
  }

  /** The vertices are the characters of the words. */
  lemma GraphVertices(words: seq<string>, c: char)
    ensures c in GraphOf(words).succ <==> exists i :: 0 <= i < |words| && c in words[i]
    ensures c in GraphOf(words).order <==> c in GraphOf(words).succ
  {
    FlattenMeaning(words, c);
  }

  /** An edge c -> d exists exactly when some adjacent pair of words first differs at (c, d). */
  lemma GraphEdges(words: seq<string>, c: char, d: char)
    ensures (c in GraphOf(words).succ && d in GraphOf(words).succ[c]) <==>
      exists i :: 0 <= i < |words| - 1 && FirstDiff(words[i], words[i + 1]) == Some((c, d))
  {
    var n := if words == [] then 0 else |words| - 1;
    SuccsMeaning(words, n, c, d);
    if exists i :: 0 <= i < |words| - 1 && FirstDiff(words[i], words[i + 1]) == Some((c, d)) {
      var i :| 0 <= i < |words| - 1 && FirstDiff(words[i], words[i + 1]) == Some((c, d));
      FirstDiffMeaning(words[i], words[i + 1]);
      InFlatten(words, i);
    }
  }

  /** The graph built from any words is well formed. */
  lemma GraphOfOk(words: seq<string>)
    ensures GraphOk(GraphOf(words))
  {
    var g := GraphOf(words);
    forall x | x in g.succ ensures forall y :: y in g.succ[x] ==> y in g.succ {
      SuccsInWords(words, if words == [] then 0 else |words| - 1, x);
    }
  }

  /** `build_graph`: the characters, in order of first occurrence, then one edge per adjacent word pair. */
  method BuildGraph(words: seq<string>) returns (g: Graph)
    ensures g == GraphOf(words)
  {
    var order, succ := AddVertices(words);
    succ := AddEdges(words, order, succ);
    g := Graph(order, succ);
  }

  /** The first loops of `build_graph`: a key with no successors for each new character. */
  method AddVertices(words: seq<string>) returns (order: seq<char>, succ: map<char, set<char>>)
    ensures order == Dedup(Flatten(words))
    ensures forall c :: c in succ <==> c in order
    ensures forall c :: c in succ ==> succ[c] == {}
  {
    order, succ := [], map[];
    for i := 0 to |words|
      invariant order == Dedup(Flatten(words[..i]))
      invariant forall c :: c in succ <==> c in order
      invariant forall c :: c in succ ==> succ[c] == {}
    {
      assert words[..i + 1][..i] == words[..i];
      order, succ := AddChars(Flatten(words[..i]), words[i], order, succ);
    }
    assert words[..|words|] == words;
  }

  /** The `for char in word` loop: a key for each character not seen before. */
  method AddChars(ghost before: seq<char>, word: string, order0: seq<char>, succ0: map<char, set<char>>)
    returns (order: seq<char>, succ: map<char, set<char>>)
    requires order0 == Dedup(before)
    requires forall c :: c in succ0 <==> c in order0
    requires forall c :: c in succ0 ==> succ0[c] == {}
    ensures order == Dedup(before + word)
    ensures forall c :: c in succ <==> c in order
    ensures forall c :: c in succ ==> succ[c] == {}
  {
    order, succ := order0, succ0;
    ghost var seen := before;
    assert before + word[..0] == before;
    for j := 0 to |word|
      invariant seen == before + word[..j] && order == Dedup(seen)
      invariant forall c :: c in succ <==> c in order
      invariant forall c :: c in succ ==> succ[c] == {}
    {
      DedupSnoc(seen, word[j]);
      if word[j] !in succ {
        succ := succ[word[j] := {}];
        order := order + [word[j]];
      }
      PrefixSnoc(before, word, j);
      seen := seen + [word[j]];
    }
    assert word[..|word|] == word;
  }

  lemma PrefixSnoc(before: seq<char>, word: string, j: int)
    requires 0 <= j < |word|
    ensures before + word[..j + 1] == (before + word[..j]) + [word[j]]
  {
    assert word[..j + 1] == word[..j] + [word[j]];
  }

  lemma DedupSnoc(s: seq<char>, x: char)
    ensures Dedup(s + [x]) == if x in Dedup(s) then Dedup(s) else Dedup(s) + [x]
  {
    assert (s + [x])[..|s|] == s;
  }

  /** The pair loop of `build_graph`: for each adjacent pair, an edge at the first differing position. */
  method AddEdges(words: seq<string>, order: seq<char>, succ0: map<char, set<char>>) returns (succ: map<char, set<char>>)
    requires order == Dedup(Flatten(words))
    requires forall c :: c in succ0 <==> c in order
    requires forall c :: c in succ0 ==> succ0[c] == {}
    ensures succ == GraphOf(words).succ
  {
    var last := if words == [] then 0 else |words| - 1;
    succ := AddPairs(words, last, succ0);
    SuccsAll(words, order, succ, last);
  }

  method AddPairs(words: seq<string>, last: int, succ0: map<char, set<char>>) returns (succ: map<char, set<char>>)
    requires last == if words == [] then 0 else |words| - 1
    requires forall c :: c in Flatten(words) ==> c in succ0
    requires forall c :: c in succ0 ==> succ0[c] == {}
    ensures forall c :: c in succ <==> c in succ0
    ensures forall c :: c in succ ==> succ[c] == Succs(words, last, c)
  {
    succ := succ0;
    for i := 0 to last
      invariant forall c :: c in succ <==> c in succ0
      invariant forall c :: c in succ ==> succ[c] == Succs(words, i, c)
    {
      ghost var succ1 := succ;
      WordKeys(words, i, succ0, succ);
      succ := AddPairEdge(words[i], words[i + 1], succ);
      EdgesStep(words, i, succ1, succ);
    }
  }

  lemma WordKeys(words: seq<string>, i: int, succ0: map<char, set<char>>, succ: map<char, set<char>>)
    requires 0 <= i < |words| && (forall c :: c in Flatten(words) ==> c in succ0) && forall c :: c in succ <==> c in succ0
    ensures forall c :: c in words[i] ==> c in succ
  {
    InFlatten(words, i);
  }

  lemma SuccsAll(words: seq<string>, order: seq<char>, succ: map<char, set<char>>, last: int)
    requires order == Dedup(Flatten(words)) && last == if words == [] then 0 else |words| - 1
    requires forall c :: c in succ <==> c in order
    requires forall c :: c in succ ==> succ[c] == Succs(words, last, c)
    ensures succ == GraphOf(words).succ
  {
  }

  lemma EdgesStep(words: seq<string>, i: int, succ1: map<char, set<char>>, succ: map<char, set<char>>)
    requires 0 <= i < |words| - 1
    requires forall c :: c in succ1 ==> succ1[c] == Succs(words, i, c)
    requires forall c :: c in succ <==> c in succ1
    requires forall c :: c in succ ==> succ[c] == succ1[c] + EdgeFrom(words[i], words[i + 1], c)
    ensures forall c :: c in succ ==> succ[c] == Succs(words, i + 1, c)
  {
  }

  /** The `for c1, c2 in zip(w1, w2)` loop: one edge at the first differing position, then `break`. */
  method AddPairEdge(w1: string, w2: string, succ0: map<char, set<char>>) returns (succ: map<char, set<char>>)
    requires forall c :: c in w1 ==> c in succ0
    ensures forall c :: c in succ <==> c in succ0
    ensures forall c :: c in succ ==> succ[c] == succ0[c] + EdgeFrom(w1, w2, c)
  {
    succ := succ0;
    var j := 0;
    while j < |w1| && j < |w2|
      invariant 0 <= j <= |w1| && j <= |w2|
      invariant FirstDiff(w1, w2) == FirstDiff(w1[j..], w2[j..])
    {
      if w1[j] != w2[j] {
        assert FirstDiff(w1, w2) == Some((w1[j], w2[j]));
        succ := succ[w1[j] := succ[w1[j]] + {w2[j]}];
        return;
      }
      assert w1[j..][1..] == w1[j + 1..] && w2[j..][1..] == w2[j + 1..];
      j := j + 1;
    }
  }

  // ---------------------------------------------------------------- orders and cycles

  /** A closed walk along edges of `g`. */
  ghost predicate IsCycle(g: Graph, c: seq<char>) {
    |c| >= 1 && Walk(g, c) && c[0] in g.succ[c[|c| - 1]]
  }

  ghost predicate HasCycle(g: Graph) {
    exists c :: IsCycle(g, c)
  }

  /** Every edge goes from an earlier to a later element of `r`. */
  ghost predicate Topological(g: Graph, r: seq<char>) {
    forall i, j :: 0 <= i < |r| && 0 <= j < |r| && r[i] in g.succ && r[j] in g.succ[r[i]] ==> i < j
  }

  ghost function IndexIn(r: seq<char>, x: char): (i: int)
    requires x in r
    ensures 0 <= i < |r| && r[i] == x
  {
    var i :| 0 <= i < |r| && r[i] == x; i
  }

  /** Along a walk the positions in a topological order increase. */
  lemma {:induction false} WalkRises(g: Graph, r: seq<char>, c: seq<char>, k: int)
    requires Distinct(r) && Topological(g, r) && (forall x :: x in g.succ ==> x in r)
    requires IsCycle(g, c) && 0 < k < |c|
    ensures IndexIn(r, c[0]) < IndexIn(r, c[k])
  {
    if k > 1 {
      WalkRises(g, r, c, k - 1);
    }
    var i, j := IndexIn(r, c[k - 1]), IndexIn(r, c[k]);
    assert r[i] in g.succ && r[j] in g.succ[r[i]];
  }

  /** A topological order of all vertices leaves no room for a cycle. */
  lemma TopologicalAcyclic(g: Graph, r: seq<char>)
    requires Distinct(r) && Topological(g, r) && (forall x :: x in g.succ ==> x in r)
    ensures !HasCycle(g)
  {
    if c :| IsCycle(g, c) {
      var last := |c| - 1;
      var i, j := IndexIn(r, c[last]), IndexIn(r, c[0]);
      assert r[i] in g.succ && r[j] in g.succ[r[i]];
      if last > 0 {
        WalkRises(g, r, c, last);
      }
    }
  }

  function Reverse(s: seq<char>): (r: seq<char>)
    ensures |r| == |s| && forall i :: 0 <= i < |s| ==> r[i] == s[|s| - 1 - i]
  {
    if s == [] then [] else [s[|s| - 1]] + Reverse(s[..|s| - 1])
  }

  /** Each listed vertex comes after all of its successors. */
  ghost predicate SuccsBefore(g: Graph, alphabet: seq<char>, i: int)
    requires 0 <= i < |alphabet|
  {
    alphabet[i] in g.succ && forall y :: y in g.succ[alphabet[i]] ==> y in alphabet[..i]
  }

  ghost predicate FinishOrder(g: Graph, alphabet: seq<char>) {
    forall i :: 0 <= i < |alphabet| ==> SuccsBefore(g, alphabet, i)
  }

  /** Reversing an order in which every vertex follows its successors gives a topological order. */
  lemma ReverseTopological(g: Graph, alphabet: seq<char>)
    requires Distinct(alphabet) && FinishOrder(g, alphabet)
    ensures Distinct(Reverse(alphabet)) && Topological(g, Reverse(alphabet))
  {
    var r, n := Reverse(alphabet), |alphabet|;
    forall i, j | 0 <= i < n && 0 <= j < n && r[i] in g.succ && r[j] in g.succ[r[i]] ensures i < j {
      assert SuccsBefore(g, alphabet, n - 1 - i);
      var m :| 0 <= m < n - 1 - i && alphabet[..n - 1 - i][m] == r[j];
      assert alphabet[m] == alphabet[n - 1 - j];
    }
  }

  // ---------------------------------------------------------------- extract_alphabet

  datatype Status = New | Extracted | Finished

  function Rank(s: Status): int {
    match s
    case New => 0
    case Extracted => 1
    case Finished => 2
  }

  /** `extract_alphabet` either returns the alphabet or raises `ValueError("There is a cycle in graph")`. */
  datatype Outcome = Ok(alphabet: seq<char>) | CycleError

  /** Statuses only move forward, New to Extracted to Finished. */
  ghost predicate Advanced(s0: map<char, Status>, s1: map<char, Status>) {
    forall x :: x in s0 ==> x in s1 && Rank(s0[x]) <= Rank(s1[x])
  }

  ghost predicate NoneExtracted(status: map<char, Status>) {
    forall x :: x in status ==> status[x] != Extracted
  }

  /** `alphabet` lists the finished vertices, each once. */
  ghost predicate Listed(status: map<char, Status>, alphabet: seq<char>) {
    Distinct(alphabet) && forall x :: x in alphabet <==> x in status && status[x] == Finished
  }

  /**
   * The extracted vertices form the current depth-first path: a walk along
   * edges, in the order they were extracted.
   */
  ghost predicate PathOk(g: Graph, status: map<char, Status>, path: seq<char>) {
    && Distinct(path) && Walk(g, path)
    && (forall x :: x in status && status[x] == Extracted <==> x in path)
  }

  /** Consecutive elements of `p` are joined by edges. */
  ghost predicate Walk(g: Graph, p: seq<char>) {
    && (forall k :: 0 <= k < |p| ==> p[k] in g.succ)
    && (forall k :: 0 <= k < |p| - 1 ==> p[k + 1] in g.succ[p[k]])
  }

  /**
   * `pend[k]` holds the stack entries pushed when `path[k]` was extracted and
   * not yet popped: successors of `path[k]`, extracted only if they lie
   * further along the path; each successor of `path[k]` is finished, pending
   * or further along the path.
   */
  ghost predicate LevelOk(g: Graph, status: map<char, Status>, path: seq<char>, pend: seq<seq<char>>, k: int)
    requires 0 <= k < |path| == |pend|
  {
    && path[k] in g.succ
    && (forall e :: e in pend[k] ==> e in g.succ[path[k]])
    && (forall e :: e in pend[k] && e in status && status[e] == Extracted ==> e in path[k + 1..])
    && (forall y :: y in g.succ[path[k]] ==> (y in status && status[y] == Finished) || y in pend[k] || y in path[k + 1..])
  }

  ghost predicate PendOk(g: Graph, status: map<char, Status>, path: seq<char>, pend: seq<seq<char>>) {
    |pend| == |path| && forall k :: 0 <= k < |path| ==> LevelOk(g, status, path, pend, k)
  }

  /** The stack: each path vertex, then the entries it pushed that are still waiting. */
  function Layout(path: seq<char>, pend: seq<seq<char>>): seq<char>
    requires |path| == |pend|
  {
    if path == [] then [] else Layout(path[..|path| - 1], pend[..|pend| - 1]) + [path[|path| - 1]] + pend[|pend| - 1]
  }

  /** Before the first pop the stack is `[v]`; afterwards it is laid out by the path. */
  ghost predicate StackOk(v: char, status: map<char, Status>, path: seq<char>, pend: seq<seq<char>>, stack: seq<char>) {
    && |pend| == |path| && v in status
    && ((path == [] && stack == [v] && status[v] == New) || (stack == Layout(path, pend) && status[v] != New))
  }

  /** The last level without its last entry. */
  function Pop(pend: seq<seq<char>>): seq<seq<char>> {
    if pend == [] || pend[|pend| - 1] == [] then pend
    else pend[|pend| - 1 := pend[|pend| - 1][..|pend[|pend| - 1]| - 1]]
  }

  lemma LayoutSnoc(path: seq<char>, pend: seq<seq<char>>, x: char, q: seq<char>)
    requires |path| == |pend|
    ensures Layout(path + [x], pend + [q]) == Layout(path, pend) + [x] + q
  {
    assert (path + [x])[..|path|] == path && (pend + [q])[..|pend|] == pend;
  }

  lemma LayoutPop(path: seq<char>, pend: seq<seq<char>>)
    requires |path| == |pend| && path != [] && pend[|pend| - 1] != []
    ensures var st, top := Layout(path, pend), pend[|pend| - 1];
      st != [] && st[|st| - 1] == top[|top| - 1] && st[..|st| - 1] == Layout(path, Pop(pend))
  {
    var n := |path|;
    assert Pop(pend)[..n - 1] == pend[..n - 1];
  }

  /** While the top level still has pending entries, the stack ends with them. */
  lemma TopPending(g: Graph, v: char, status: map<char, Status>, path: seq<char>, pend: seq<seq<char>>, stack: seq<char>)
    requires StackOk(v, status, path, pend, stack) && path != []
    requires LevelOk(g, status, path, pend, |path| - 1) && pend[|pend| - 1] != []
    ensures stack != []
    ensures var to := stack[|stack| - 1];
      && to in pend[|pend| - 1] && to in g.succ[path[|path| - 1]]
      && (to in status ==> status[to] != Extracted)
      && stack[..|stack| - 1] == Layout(path, Pop(pend))
  {
    TopPendingStack(v, status, path, pend, stack);
    assert path[|path|..] == [];
  }

  lemma TopPendingStack(v: char, status: map<char, Status>, path: seq<char>, pend: seq<seq<char>>, stack: seq<char>)
    requires StackOk(v, status, path, pend, stack) && path != [] && pend[|pend| - 1] != []
    ensures stack != [] && stack[|stack| - 1] in pend[|pend| - 1]
    ensures stack[..|stack| - 1] == Layout(path, Pop(pend))
  {
    var top := pend[|pend| - 1];
    assert stack == Layout(path, pend);
    LayoutPop(path, pend);
    assert stack[|stack| - 1] == top[|top| - 1];
  }

  /** Once the top level has no pending entries, the stack ends with the last path vertex. */
  lemma TopReturn(v: char, status: map<char, Status>, path: seq<char>, pend: seq<seq<char>>, stack: seq<char>)
    requires StackOk(v, status, path, pend, stack)
    requires path != [] && pend[|pend| - 1] == []
    ensures stack != [] && stack[|stack| - 1] == path[|path| - 1]
    ensures stack[..|stack| - 1] == Layout(path[..|path| - 1], pend[..|pend| - 1])
  {
    var n := |path|;
    assert stack == Layout(path[..n - 1], pend[..n - 1]) + [path[n - 1]] + [];
  }

  // ---------------------------------------------------------------- steps of the depth-first search

  /** An edge from the end of a walk back into it closes a cycle. */
  lemma CycleFound(g: Graph, p: seq<char>, ch: char)
    requires Walk(g, p) && ch in p && p != [] && ch in g.succ[p[|p| - 1]]
    ensures HasCycle(g)
  {
    var k :| 0 <= k < |p| && p[k] == ch;
    var c := p[k..];
    assert c[|c| - 1] == p[|p| - 1];
    assert IsCycle(g, c);
  }

  /** Extracting a vertex reached along an edge from the end of the path extends the path. */
  lemma ExpandPath(g: Graph, status1: map<char, Status>, path1: seq<char>, to: char,
                   status: map<char, Status>, path: seq<char>)
    requires PathOk(g, status1, path1) && to in status1 && status1[to] == New && to in g.succ
    requires path1 != [] ==> to in g.succ[path1[|path1| - 1]]
    requires status == status1[to := Extracted] && path == path1 + [to]
    ensures PathOk(g, status, path) && Walk(g, path)
  {
  }

  /** A level below the new top keeps its meaning when `to` leaves it for the path. */
  lemma ExpandLevel(g: Graph, status1: map<char, Status>, path1: seq<char>, pend1: seq<seq<char>>, to: char,
                    status: map<char, Status>, path: seq<char>, pend: seq<seq<char>>, k: int)
    requires |path1| == |pend1| && 0 <= k < |path1| && LevelOk(g, status1, path1, pend1, k)
    requires pend1[|pend1| - 1] != [] && pend1[|pend1| - 1][|pend1[|pend1| - 1]| - 1] == to
    requires status == status1[to := Extracted] && path == path1 + [to] && |pend| == |path|
    requires pend[..|pend1|] == Pop(pend1)
    ensures LevelOk(g, status, path, pend, k)
  {
    assert path[k + 1..] == path1[k + 1..] + [to];
    assert pend[k] == Pop(pend1)[k];
    if k == |path1| - 1 {
      var top := pend1[k];
      assert top == pend[k] + [to];
    }
  }

  /** The vertex just extracted, with its New successors pending. */
  lemma ExpandTop(g: Graph, status: map<char, Status>, path: seq<char>, pend: seq<seq<char>>, to: char, pushed: seq<char>)
    requires |path| == |pend| && path != [] && path[|path| - 1] == to && pend[|pend| - 1] == pushed
    requires to in g.succ && to in status && status[to] == Extracted
    requires forall e :: e in pushed ==> e in g.succ[to] && e in status && status[e] == New
    requires forall y :: y in g.succ[to] ==> y in status && status[y] != Extracted && (status[y] == New ==> y in pushed)
    ensures LevelOk(g, status, path, pend, |path| - 1)
  {
  }

  /** Popping a New vertex `to`, extracting it and pushing its New successors keeps the search invariants. */
  lemma ExpandStep(g: Graph, v: char, status1: map<char, Status>, path1: seq<char>, pend1: seq<seq<char>>, stack1: seq<char>,
                   to: char, pushed: seq<char>,
                   status: map<char, Status>, path: seq<char>, pend: seq<seq<char>>, stack: seq<char>)
    requires status1.Keys == g.succ.Keys
    requires PathOk(g, status1, path1) && PendOk(g, status1, path1, pend1) && StackOk(v, status1, path1, pend1, stack1)
    requires stack1 != [] && to == stack1[|stack1| - 1] && to in status1 && status1[to] == New
    requires status == status1[to := Extracted]
    requires forall e :: e in pushed ==> e in g.succ[to] && e in status && status[e] == New
    requires forall y :: y in g.succ[to] ==> y in status && status[y] != Extracted && (status[y] == New ==> y in pushed)
    requires path == path1 + [to] && pend == Pop(pend1) + [pushed] && stack == stack1[..|stack1| - 1] + [to] + pushed
    ensures PathOk(g, status, path) && PendOk(g, status, path, pend) && StackOk(v, status, path, pend, stack)
  {
    var n := |path1|;
    if n > 0 {
      assert LevelOk(g, status1, path1, pend1, n - 1);
      if pend1[n - 1] == [] {
        TopReturn(v, status1, path1, pend1, stack1);
        assert false;
      }
      TopPending(g, v, status1, path1, pend1, stack1);
      forall k | 0 <= k < n
        ensures LevelOk(g, status, path, pend, k)
      {
        assert LevelOk(g, status1, path1, pend1, k);
        assert pend[..n] == Pop(pend1);
        ExpandLevel(g, status1, path1, pend1, to, status, path, pend, k);
      }
    }
    ExpandPath(g, status1, path1, to, status, path);
    ExpandTop(g, status, path, pend, to, pushed);
    LayoutSnoc(path1, Pop(pend1), to, pushed);
  }

  /** A level below the finished vertex keeps its meaning once that vertex leaves the path. */
  lemma FinishLevel(g: Graph, status1: map<char, Status>, path1: seq<char>, pend1: seq<seq<char>>, to: char,
                    status: map<char, Status>, path: seq<char>, pend: seq<seq<char>>, k: int)
    requires |path1| == |pend1| && 0 <= k < |path1| - 1 && LevelOk(g, status1, path1, pend1, k)
    requires Distinct(path1) && path1[|path1| - 1] == to
    requires status == status1[to := Finished] && path == path1[..|path1| - 1] && pend == pend1[..|pend1| - 1]
    ensures LevelOk(g, status, path, pend, k)
  {
    assert path1[k + 1..] == path[k + 1..] + [to];
  }

  /** The finished vertex's successors are all listed before it. */
  lemma FinishListed(g: Graph, status1: map<char, Status>, alphabet1: seq<char>, path1: seq<char>, pend1: seq<seq<char>>,
                     to: char, status: map<char, Status>, alphabet: seq<char>)
    requires |path1| == |pend1| && path1 != [] && LevelOk(g, status1, path1, pend1, |path1| - 1)
    requires pend1[|pend1| - 1] == [] && path1[|path1| - 1] == to
    requires to in status1 && status1[to] == Extracted
    requires Listed(status1, alphabet1) && FinishOrder(g, alphabet1)
    requires status == status1[to := Finished] && alphabet == alphabet1 + [to]
    ensures Listed(status, alphabet) && FinishOrder(g, alphabet)
  {
    var n := |alphabet1|;
    assert path1[|path1|..] == [];
    forall i | 0 <= i <= n
      ensures SuccsBefore(g, alphabet, i)
    {
      if i < n {
        assert SuccsBefore(g, alphabet1, i);
        assert alphabet[..i] == alphabet1[..i];
      } else {
        assert alphabet[..n] == alphabet1;
      }
    }
  }

  /** Popping the Extracted vertex at the end of the path finishes it and lists it. */
  lemma FinishStep(g: Graph, v: char, status1: map<char, Status>, alphabet1: seq<char>,
                   path1: seq<char>, pend1: seq<seq<char>>, stack1: seq<char>, to: char,
                   status: map<char, Status>, alphabet: seq<char>, path: seq<char>, pend: seq<seq<char>>, stack: seq<char>)
    requires PathOk(g, status1, path1) && PendOk(g, status1, path1, pend1) && StackOk(v, status1, path1, pend1, stack1)
    requires Listed(status1, alphabet1) && FinishOrder(g, alphabet1)
    requires stack1 != [] && to == stack1[|stack1| - 1] && to in status1 && status1[to] == Extracted
    requires status == status1[to := Finished] && alphabet == alphabet1 + [to] && stack == stack1[..|stack1| - 1]
    requires path1 != [] && path == path1[..|path1| - 1] && pend == pend1[..|pend1| - 1]
    ensures PathOk(g, status, path) && PendOk(g, status, path, pend) && StackOk(v, status, path, pend, stack)
    ensures Listed(status, alphabet) && FinishOrder(g, alphabet)
  {
    var n := |path1|;
    assert LevelOk(g, status1, path1, pend1, n - 1);
    if pend1[n - 1] != [] {
      TopPending(g, v, status1, path1, pend1, stack1);
      assert false;
    }
    TopReturn(v, status1, path1, pend1, stack1);
    FinishListed(g, status1, alphabet1, path1, pend1, to, status, alphabet);
    forall k | 0 <= k < n - 1
      ensures LevelOk(g, status, path, pend, k)
    {
      assert LevelOk(g, status1, path1, pend1, k);
      FinishLevel(g, status1, path1, pend1, to, status, path, pend, k);
    }
    assert path1 == path + [to];
  }

  /** Popping an entry that was finished meanwhile only shortens the top level. */
  lemma StaleStep(g: Graph, v: char, status: map<char, Status>, path: seq<char>, pend1: seq<seq<char>>, stack1: seq<char>,
                  to: char, pend: seq<seq<char>>, stack: seq<char>)
    requires PathOk(g, status, path) && PendOk(g, status, path, pend1) && StackOk(v, status, path, pend1, stack1)
    requires stack1 != [] && to == stack1[|stack1| - 1] && to in status && status[to] == Finished
    requires path != [] && pend == Pop(pend1) && stack == stack1[..|stack1| - 1]
    ensures PendOk(g, status, path, pend) && StackOk(v, status, path, pend, stack)
  {
    var n := |path|;
    assert LevelOk(g, status, path, pend1, n - 1);
    if pend1[n - 1] == [] {
      TopReturn(v, status, path, pend1, stack1);
      assert false;
    }
    TopPending(g, v, status, path, pend1, stack1);
    var top := pend1[n - 1];
    assert top == pend[n - 1] + [to];
    forall k | 0 <= k < n
      ensures LevelOk(g, status, path, pend, k)
    {
      assert LevelOk(g, status, path, pend1, k);
    }
  }

  /** An Extracted successor of the vertex being extracted lies on the path: a cycle. */
  lemma CycleStep(g: Graph, v: char, status1: map<char, Status>, path1: seq<char>, pend1: seq<seq<char>>, stack1: seq<char>,
                  to: char, status: map<char, Status>, ch: char)
    requires status1.Keys == g.succ.Keys
    requires PathOk(g, status1, path1) && PendOk(g, status1, path1, pend1) && StackOk(v, status1, path1, pend1, stack1)
    requires stack1 != [] && to == stack1[|stack1| - 1] && to in status1 && status1[to] == New
    requires status == status1[to := Extracted] && ch in g.succ[to] && ch in status && status[ch] == Extracted
    ensures HasCycle(g)
  {
    var n := |path1|;
    if n > 0 {
      assert LevelOk(g, status1, path1, pend1, n - 1);
      if pend1[n - 1] == [] {
        TopReturn(v, status1, path1, pend1, stack1);
        assert false;
      }
      TopPending(g, v, status1, path1, pend1, stack1);
    }
    ExpandPath(g, status1, path1, to, status, path1 + [to]);
    CycleFound(g, path1 + [to], ch);
  }

  // ---------------------------------------------------------------- the search itself

  /**
   * The `for ch in graph[to]` loop: pushes the New successors of `to` and
   * reports whether some successor is Extracted, where the source raises.
   */
  method Expand(g: Graph, to: char, status: map<char, Status>, stack0: seq<char>)
    returns (stack: seq<char>, found: bool, ghost pushed: seq<char>)
    requires GraphOk(g) && to in g.succ && status.Keys == g.succ.Keys
    ensures found ==> exists ch :: ch in g.succ[to] && status[ch] == Extracted
    ensures !found ==> stack == stack0 + pushed
    ensures !found ==> forall e :: e in pushed ==> e in g.succ[to] && status[e] == New
    ensures !found ==> forall y :: y in g.succ[to] ==> status[y] != Extracted && (status[y] == New ==> y in pushed)
  {
    stack, found, pushed := stack0, false, [];
    var rest := g.succ[to];
    while rest != {}
      invariant rest <= g.succ[to] && stack == stack0 + pushed
      invariant forall e :: e in pushed ==> e in g.succ[to] && status[e] == New
      invariant forall y :: y in g.succ[to] && y !in rest ==> status[y] != Extracted && (status[y] == New ==> y in pushed)
      decreases |rest|
    {
      var ch :| ch in rest;
      rest := rest - {ch};
      if status[ch] == New {
        stack, pushed := stack + [ch], pushed + [ch];
      } else if status[ch] == Extracted {
        found := true;
        return;
      }
    }
  }

  /** The invariant of the `while stack` loop of a search started from `v`. */
  ghost predicate Searching(g: Graph, v: char, status0: map<char, Status>, status: map<char, Status>, alphabet: seq<char>,
                            path: seq<char>, pend: seq<seq<char>>, stack: seq<char>, news: set<char>) {
    && status.Keys == g.succ.Keys && Advanced(status0, status)
    && Listed(status, alphabet) && FinishOrder(g, alphabet)
    && PathOk(g, status, path) && PendOk(g, status, path, pend) && StackOk(v, status, path, pend, stack)
    && (forall i :: 0 <= i < |stack| ==> stack[i] in g.succ)
    && (forall x :: x in news <==> x in status && status[x] == New)
  }

  /** The extracting branch keeps the loop invariant. */
  lemma ExpandSearch(g: Graph, v: char, status0: map<char, Status>, status1: map<char, Status>, alphabet: seq<char>,
                     path1: seq<char>, pend1: seq<seq<char>>, stack1: seq<char>, news1: set<char>,
                     to: char, pushed: seq<char>,
                     status: map<char, Status>, path: seq<char>, pend: seq<seq<char>>, stack: seq<char>, news: set<char>)
    requires GraphOk(g) && Searching(g, v, status0, status1, alphabet, path1, pend1, stack1, news1)
    requires stack1 != [] && to == stack1[|stack1| - 1] && to in status1 && status1[to] == New
    requires status == status1[to := Extracted]
    requires forall e :: e in pushed ==> e in g.succ[to] && e in status && status[e] == New
    requires forall y :: y in g.succ[to] ==> y in status && status[y] != Extracted && (status[y] == New ==> y in pushed)
    requires path == path1 + [to] && pend == Pop(pend1) + [pushed] && stack == stack1[..|stack1| - 1] + [to] + pushed
    requires news == news1 - {to}
    ensures Searching(g, v, status0, status, alphabet, path, pend, stack, news)
    ensures |news| < |news1|
  {
    ExpandStep(g, v, status1, path1, pend1, stack1, to, pushed, status, path, pend, stack);
    ExtractKeeps(status0, status1, alphabet, news1, to, status, news);
    PushedInGraph(g, to, stack1, pushed, stack);
  }

  /** Extracting a New vertex keeps the list, the progress and the New set in step. */
  lemma ExtractKeeps(status0: map<char, Status>, status1: map<char, Status>, alphabet: seq<char>, news1: set<char>, to: char,
                     status: map<char, Status>, news: set<char>)
    requires Advanced(status0, status1) && Listed(status1, alphabet)
    requires forall x :: x in news1 <==> x in status1 && status1[x] == New
    requires to in status1 && status1[to] == New && status == status1[to := Extracted] && news == news1 - {to}
    ensures Advanced(status0, status) && Listed(status, alphabet) && |news| < |news1|
    ensures forall x :: x in news <==> x in status && status[x] == New
  {
  }

  /** Entries pushed for `to` are vertices of a closed graph. */
  lemma PushedInGraph(g: Graph, to: char, base: seq<char>, pushed: seq<char>, stack: seq<char>)
    requires GraphOk(g) && to in g.succ && (forall i :: 0 <= i < |base| ==> base[i] in g.succ)
    requires base != [] && to == base[|base| - 1]
    requires (forall e :: e in pushed ==> e in g.succ[to]) && stack == base[..|base| - 1] + [to] + pushed
    ensures forall i :: 0 <= i < |stack| ==> stack[i] in g.succ
  {
    assert base[..|base| - 1] + [to] == base;
    forall i | 0 <= i < |stack| ensures stack[i] in g.succ {
      if i >= |base| {
        assert stack[i] in pushed;
      }
    }
  }

  /** The finishing branch keeps the loop invariant. */
  lemma FinishSearch(g: Graph, v: char, status0: map<char, Status>, status1: map<char, Status>, alphabet1: seq<char>,
                     path1: seq<char>, pend1: seq<seq<char>>, stack1: seq<char>, news: set<char>, to: char,
                     status: map<char, Status>, alphabet: seq<char>, path: seq<char>, pend: seq<seq<char>>, stack: seq<char>)
    requires Searching(g, v, status0, status1, alphabet1, path1, pend1, stack1, news)
    requires stack1 != [] && to == stack1[|stack1| - 1] && to in status1 && status1[to] == Extracted
    requires status == status1[to := Finished] && alphabet == alphabet1 + [to] && stack == stack1[..|stack1| - 1]
    requires path1 != [] && path == path1[..|path1| - 1] && pend == pend1[..|pend1| - 1]
    ensures Searching(g, v, status0, status, alphabet, path, pend, stack, news)
  {
    FinishStep(g, v, status1, alphabet1, path1, pend1, stack1, to, status, alphabet, path, pend, stack);
  }

  /** The branch that drops an already finished entry keeps the loop invariant. */
  lemma StaleSearch(g: Graph, v: char, status0: map<char, Status>, status: map<char, Status>, alphabet: seq<char>,
                    path: seq<char>, pend1: seq<seq<char>>, stack1: seq<char>, news: set<char>, to: char,
                    pend: seq<seq<char>>, stack: seq<char>)
    requires Searching(g, v, status0, status, alphabet, path, pend1, stack1, news)
    requires stack1 != [] && to == stack1[|stack1| - 1] && to in status && status[to] == Finished
    requires pend == Pop(pend1) && stack == stack1[..|stack1| - 1]
    ensures path != [] && Searching(g, v, status0, status, alphabet, path, pend, stack, news)
  {
    StaleStep(g, v, status, path, pend1, stack1, to, pend, stack);
  }

  /** One iteration: pop `to` and extract it, finish it, or drop it when it is already finished. */
  method PopOne(g: Graph, v: char, ghost status0: map<char, Status>, status1: map<char, Status>, alphabet1: seq<char>,
                stack1: seq<char>, ghost path1: seq<char>, ghost pend1: seq<seq<char>>, ghost news1: set<char>)
    returns (status: map<char, Status>, alphabet: seq<char>, stack: seq<char>, cycle: bool,
             ghost path: seq<char>, ghost pend: seq<seq<char>>, ghost news: set<char>)
    requires GraphOk(g) && stack1 != [] && Searching(g, v, status0, status1, alphabet1, path1, pend1, stack1, news1)
    ensures cycle ==> HasCycle(g)
    ensures !cycle ==> Searching(g, v, status0, status, alphabet, path, pend, stack, news)
    ensures !cycle ==> 2 * |news| + |path| < 2 * |news1| + |path1| || (news == news1 && path == path1 && |stack| < |stack1|)
    ensures alphabet1 <= alphabet
  {
    status, alphabet, stack, cycle, path, pend, news := status1, alphabet1, stack1, false, path1, pend1, news1;
    var to := stack[|stack| - 1];
    stack := stack[..|stack| - 1];
    if status[to] == New {
      status := status[to := Extracted];
      stack := stack + [to];
      var found: bool;
      ghost var pushed: seq<char>;
      stack, found, pushed := Expand(g, to, status, stack);
      if found {
        var ch :| ch in g.succ[to] && status[ch] == Extracted;
        CycleStep(g, v, status1, path1, pend1, stack1, to, status, ch);
        cycle := true;
        return;
      }
      path, pend, news := path + [to], Pop(pend) + [pushed], news - {to};
      ExpandSearch(g, v, status0, status1, alphabet, path1, pend1, stack1, news1, to, pushed, status, path, pend, stack, news);
    } else if status[to] == Extracted {
      status := status[to := Finished];
      alphabet := alphabet + [to];
      path, pend := path[..|path| - 1], pend[..|pend| - 1];
      FinishSearch(g, v, status0, status1, alphabet1, path1, pend1, stack1, news, to, status, alphabet, path, pend, stack);
    } else {
      pend := Pop(pend);
      StaleSearch(g, v, status0, status, alphabet, path, pend1, stack1, news, to, pend, stack);
    }
  }

  /**
   * The `while stack` loop started from `v`: either it finds a cycle, or it
   * finishes `v` and everything reachable from it, listing each vertex after
   * its successors.
   */
  method Visit(g: Graph, v: char, status0: map<char, Status>, alphabet0: seq<char>)
    returns (status: map<char, Status>, alphabet: seq<char>, cycle: bool)
    requires GraphOk(g) && v in g.succ && status0.Keys == g.succ.Keys
    requires status0[v] == New && NoneExtracted(status0)
    requires Listed(status0, alphabet0) && FinishOrder(g, alphabet0)
    ensures cycle ==> HasCycle(g)
    ensures !cycle ==> status.Keys == g.succ.Keys && NoneExtracted(status) && status[v] == Finished
    ensures !cycle ==> Listed(status, alphabet) && FinishOrder(g, alphabet) && Advanced(status0, status)
    ensures alphabet0 <= alphabet
  {
    status, alphabet, cycle := status0, alphabet0, false;
    var stack := [v];
    ghost var path: seq<char> := [];
    ghost var pend: seq<seq<char>> := [];
    ghost var news := set x | x in status && status[x] == New;
    while stack != []
      invariant Searching(g, v, status0, status, alphabet, path, pend, stack, news)
      invariant alphabet0 <= alphabet
      decreases 2 * |news| + |path|, |stack|
    {
      status, alphabet, stack, cycle, path, pend, news := PopOne(g, v, status0, status, alphabet, stack, path, pend, news);
      if cycle {
        return;
      }
    }
    assert path == [];
  }

  /**
   * `extract_alphabet`: a depth-first search from each vertex in turn; the
   * alphabet is the reversed finishing order, and reaching an Extracted
   * vertex again is reported as a cycle.
   */
  method ExtractAlphabet(g: Graph) returns (r: Outcome)
    requires GraphOk(g)
    ensures r.CycleError? <==> HasCycle(g)
    ensures r.Ok? ==> Distinct(r.alphabet) && (forall x :: x in r.alphabet <==> x in g.succ) && Topological(g, r.alphabet)
  {
    var alphabet: seq<char> := [];
    var status := map v | v in g.succ :: New;
    for i := 0 to |g.order|
      invariant status.Keys == g.succ.Keys && NoneExtracted(status)
      invariant Listed(status, alphabet) && FinishOrder(g, alphabet)
      invariant forall j :: 0 <= j < i ==> status[g.order[j]] == Finished
    {
      var v := g.order[i];
      if status[v] == Finished {
        continue;
      }
      var cycle: bool;
      status, alphabet, cycle := Visit(g, v, status, alphabet);
      if cycle {
        return CycleError;
      }
    }
    r := Ok(Reverse(alphabet));
    ReverseTopological(g, alphabet);
    ReverseMembers(alphabet);
    TopologicalAcyclic(g, r.alphabet);
  }

  lemma ReverseMembers(s: seq<char>)
    ensures forall x :: x in Reverse(s) <==> x in s
  {
    var r := Reverse(s);
    forall x | x in s ensures x in r {
      var i :| 0 <= i < |s| && s[i] == x;
      assert r[|s| - 1 - i] == x;
    }
  }

  /** `a` comes before `b` in `r`. */
  ghost predicate Before(r: seq<char>, a: char, b: char) {
    exists p, q :: 0 <= p < q < |r| && r[p] == a && r[q] == b
  }

  /** In a topological order of the graph of the words, each adjacent pair's first difference is respected. */
  lemma WordsOrdered(words: seq<string>, r: seq<char>, i: int)
    requires Topological(GraphOf(words), r) && (forall x :: x in GraphOf(words).succ ==> x in r)
    requires 0 <= i < |words| - 1 && FirstDiff(words[i], words[i + 1]).Some?
    ensures Before(r, FirstDiff(words[i], words[i + 1]).value.0, FirstDiff(words[i], words[i + 1]).value.1)
  {
    var g, e := GraphOf(words), FirstDiff(words[i], words[i + 1]).value;
    GraphEdges(words, e.0, e.1);
    GraphOfOk(words);
    var p, q := IndexIn(r, e.0), IndexIn(r, e.1);
    assert r[p] in g.succ && r[q] in g.succ[r[p]];
  }

  /**
   * `get_alphabet`: the characters of the words ordered so that every
   * adjacent pair of words respects it, or a cycle error when no such order
   * exists.
   */
  method GetAlphabet(words: seq<string>) returns (r: Outcome)
    ensures r.CycleError? <==> HasCycle(GraphOf(words))
    ensures r.Ok? ==> Distinct(r.alphabet) && forall c :: c in r.alphabet <==> exists i :: 0 <= i < |words| && c in words[i]
    ensures r.Ok? ==> forall i :: 0 <= i < |words| - 1 && FirstDiff(words[i], words[i + 1]).Some? ==>
      Before(r.alphabet, FirstDiff(words[i], words[i + 1]).value.0, FirstDiff(words[i], words[i + 1]).value.1)
  {
    var g := BuildGraph(words);
    GraphOfOk(words);
    r := ExtractAlphabet(g);
    if r.Ok? {
      forall c ensures c in r.alphabet <==> exists i :: 0 <= i < |words| && c in words[i] {
        GraphVertices(words, c);
      }
      forall i | 0 <= i < |words| - 1 && FirstDiff(words[i], words[i + 1]).Some?
        ensures Before(r.alphabet, FirstDiff(words[i], words[i + 1]).value.0, FirstDiff(words[i], words[i + 1]).value.1)
      {
        WordsOrdered(words, r.alphabet, i);
      }
    }
  }
}
