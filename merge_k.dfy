/**
 * `merge` of merge_lists_2: a k-way merge driven by a min-heap of
 * (value, input index, position) entries. The heap is modelled by its
 * entries; `heappop` removes a least entry in tuple order.
 */
module MergeK {
  import opened Sorting

  type HeapEntry = (int, int, int)

  /** Python's tuple order on heap entries. */
  predicate Le(a: HeapEntry, b: HeapEntry) {
    a.0 < b.0 || (a.0 == b.0 && (a.1 < b.1 || (a.1 == b.1 && a.2 <= b.2)))
  }

  /** `heapq.heappop`: removes and returns a least entry. */
  method HeapPop(heap: seq<HeapEntry>) returns (m: HeapEntry, rest: seq<HeapEntry>)
    requires heap != []
    ensures m in heap
    ensures forall k :: 0 <= k < |heap| ==> Le(m, heap[k])
    ensures exists j :: 0 <= j < |heap| && m == heap[j] && rest == heap[..j] + heap[j + 1..]
  {
    var best := 0;
    for i := 1 to |heap|
      invariant 0 <= best < |heap|
      invariant forall k :: 0 <= k < i ==> Le(heap[best], heap[k])
    {
      if !Le(heap[best], heap[i]) {
        best := i;
      }
    }
    m := heap[best];
    rest := heap[..best] + heap[best + 1..];
  }

  /** The inputs concatenated in order. */
  function Concat(seqs: seq<seq<int>>): seq<int> {
    if seqs == [] then [] else Concat(seqs[..|seqs| - 1]) + seqs[|seqs| - 1]
  }

  /** `sum(len(s) for s in seq)`. */
  function TotalLen(seqs: seq<seq<int>>): (r: nat)
    ensures r == |Concat(seqs)|
  {
    if seqs == [] then 0 else TotalLen(seqs[..|seqs| - 1]) + |seqs[|seqs| - 1]|
  }

  predicate AllSorted(seqs: seq<seq<int>>) {
    forall s :: 0 <= s < |seqs| ==> Sorted(seqs[s])
  }

  /** The initial heap: one entry for the head of every non-empty input. */
  function InitialHeap(seqs: seq<seq<int>>): (r: seq<HeapEntry>)
    ensures HeadsOf(seqs, r)
  {
    if seqs == [] then []
    else
      var n := |seqs| - 1;
      var init := InitialHeap(seqs[..n]);
      var r := if |seqs[n]| > 0 then init + [(seqs[n][0], n, 0)] else init;
      HeadsExtend(seqs, init, r);
      r
  }

  /** `r` lists, by increasing input, the entry (seqs[s][0], s, 0) of every non-empty input `s`. */
  ghost predicate HeadsOf(seqs: seq<seq<int>>, r: seq<HeapEntry>) {
    && (forall k :: 0 <= k < |r| ==> 0 <= r[k].1 < |seqs| && |seqs[r[k].1]| > 0 && r[k] == (seqs[r[k].1][0], r[k].1, 0))
    && (forall s :: 0 <= s < |seqs| && |seqs[s]| > 0 ==> HasEntry(r, s))
    && (forall i, j :: 0 <= i < j < |r| ==> r[i].1 < r[j].1)
  }

  lemma HeadsExtend(seqs: seq<seq<int>>, init: seq<HeapEntry>, r: seq<HeapEntry>)
    requires seqs != [] && HeadsOf(seqs[..|seqs| - 1], init)
    requires r == if |seqs[|seqs| - 1]| > 0 then init + [(seqs[|seqs| - 1][0], |seqs| - 1, 0)] else init
    ensures HeadsOf(seqs, r)
  {
    var n := |seqs| - 1;
    forall k | 0 <= k < |init|
      ensures r[k] == init[k] && init[k].1 < n && seqs[..n][init[k].1] == seqs[init[k].1]
    {
    }
    forall k | 0 <= k < |r|
      ensures 0 <= r[k].1 < |seqs| && |seqs[r[k].1]| > 0 && r[k] == (seqs[r[k].1][0], r[k].1, 0)
    {
    }
    forall s | 0 <= s < |seqs| && |seqs[s]| > 0
      ensures HasEntry(r, s)
    {
      if s == n {
        assert r[|init|].1 == n;
      } else {
        assert seqs[..n][s] == seqs[s];
        assert HasEntry(init, s);
        var k :| 0 <= k < |init| && init[k].1 == s;
        assert r[k].1 == s;
      }
    }
    forall i, j | 0 <= i < j < |r|
      ensures r[i].1 < r[j].1
    {
    }
  }

  function Zeros(n: nat): (r: seq<int>)
    ensures |r| == n && forall i :: 0 <= i < n ==> r[i] == 0
  {
    if n == 0 then [] else Zeros(n - 1) + [0]
  }

  // Ghost bookkeeping: `pos[s]` is the next unconsumed index of input `s`.

  function SumPos(pos: seq<int>, n: int): int
    requires 0 <= n <= |pos|
  {
    if n == 0 then 0 else SumPos(pos, n - 1) + pos[n - 1]
  }

  /** `t[:k]` for an index within range. */
  function Take(t: seq<int>, k: int): seq<int> {
    if 0 <= k <= |t| then t[..k] else t
  }

  function Consumed(seqs: seq<seq<int>>, pos: seq<int>, n: int): multiset<int>
    requires 0 <= n <= |seqs| && n <= |pos|
  {
    if n == 0 then multiset{} else Consumed(seqs, pos, n - 1) + multiset(Take(seqs[n - 1], pos[n - 1]))
  }

  predicate InRange(seqs: seq<seq<int>>, pos: seq<int>) {
    |pos| == |seqs| && forall s :: 0 <= s < |seqs| ==> 0 <= pos[s] <= |seqs[s]|
  }

  lemma {:induction false} AdvanceSum(pos: seq<int>, s0: int, v: int, n: int)
    requires 0 <= s0 < |pos| && 0 <= n <= |pos|
    ensures SumPos(pos[s0 := v], n) == SumPos(pos, n) + (if s0 < n then v - pos[s0] else 0)
  {
    if n > 0 {
      AdvanceSum(pos, s0, v, n - 1);
    }
  }

  /** Consuming one more element of input `s0` adds that element to what was consumed. */
  lemma {:induction false} AdvanceConsumed(seqs: seq<seq<int>>, pos: seq<int>, pos': seq<int>, s0: int, n: int)
    requires |pos| == |pos'| == |seqs| && 0 <= s0 < n <= |seqs| && 0 <= pos[s0] < |seqs[s0]|
    requires pos'[s0] == pos[s0] + 1 && forall i :: 0 <= i < |pos| && i != s0 ==> pos'[i] == pos[i]
    ensures Consumed(seqs, pos', n) == Consumed(seqs, pos, n) + multiset{seqs[s0][pos[s0]]}
  {
    var x := seqs[s0][pos[s0]];
    var before, last := Consumed(seqs, pos, n - 1), multiset(Take(seqs[n - 1], pos[n - 1]));
    var before', last' := Consumed(seqs, pos', n - 1), multiset(Take(seqs[n - 1], pos'[n - 1]));
    if s0 == n - 1 {
      ConsumedFrame(seqs, pos, pos', s0, n - 1);
      TakeNext(seqs[s0], pos[s0]);
      GrowLast(Consumed(seqs, pos', n), Consumed(seqs, pos, n), before, last, last', x);
    } else {
      AdvanceConsumed(seqs, pos, pos', s0, n - 1);
      GrowEarlier(Consumed(seqs, pos', n), Consumed(seqs, pos, n), before, before', last, x);
    }
  }

  lemma GrowLast(c': multiset<int>, c: multiset<int>, b: multiset<int>, l: multiset<int>, l': multiset<int>, x: int)
    requires c' == b + l' && c == b + l && l' == l + multiset{x}
    ensures c' == c + multiset{x}
  {
  }

  lemma GrowEarlier(c': multiset<int>, c: multiset<int>, b: multiset<int>, b': multiset<int>, l: multiset<int>, x: int)
    requires c' == b' + l && c == b + l && b' == b + multiset{x}
    ensures c' == c + multiset{x}
  {
  }

  /** Inputs at or past `n` do not count towards `Consumed(seqs, pos, n)`. */
  lemma {:induction false} ConsumedFrame(seqs: seq<seq<int>>, pos: seq<int>, pos': seq<int>, s0: int, n: int)
    requires |pos| == |pos'| == |seqs| && 0 <= n <= s0 < |seqs|
    requires forall i :: 0 <= i < |pos| && i != s0 ==> pos'[i] == pos[i]
    ensures Consumed(seqs, pos', n) == Consumed(seqs, pos, n)
  {
    if n > 0 {
      ConsumedFrame(seqs, pos, pos', s0, n - 1);
    }
  }

  /** Taking one more element of `t` adds `t[k]`. */
  lemma TakeNext(t: seq<int>, k: int)
    requires 0 <= k < |t|
    ensures multiset(Take(t, k + 1)) == multiset(Take(t, k)) + multiset{t[k]}
  {
    assert t[..k + 1] == t[..k] + [t[k]];
  }

  lemma {:induction false} SumPosBound(seqs: seq<seq<int>>, pos: seq<int>, n: int)
    requires InRange(seqs, pos) && 0 <= n <= |seqs|
    ensures SumPos(pos, n) <= TotalLen(seqs[..n])
    ensures SumPos(pos, n) == TotalLen(seqs[..n]) ==> forall s :: 0 <= s < n ==> pos[s] == |seqs[s]|
    ensures SumPos(pos, n) < TotalLen(seqs[..n]) ==> exists s :: 0 <= s < n && pos[s] < |seqs[s]|
  {
    if n > 0 {
      assert seqs[..n][..n - 1] == seqs[..n - 1];
      SumPosBound(seqs, pos, n - 1);
    }
  }

  lemma {:induction false} ConsumedAll(seqs: seq<seq<int>>, pos: seq<int>, n: int)
    requires InRange(seqs, pos) && 0 <= n <= |seqs|
    requires forall s :: 0 <= s < n ==> pos[s] == |seqs[s]|
    ensures Consumed(seqs, pos, n) == multiset(Concat(seqs[..n]))
  {
    if n > 0 {
      assert seqs[..n][..n - 1] == seqs[..n - 1];
      ConsumedAll(seqs, pos, n - 1);
      assert Take(seqs[n - 1], pos[n - 1]) == seqs[n - 1];
    }
  }

  lemma ZeroConsumed(seqs: seq<seq<int>>, n: int)
    requires 0 <= n <= |seqs|
    ensures InRange(seqs, Zeros(|seqs|))
    ensures SumPos(Zeros(|seqs|), n) == 0 && Consumed(seqs, Zeros(|seqs|), n) == multiset{}
  {
    if n > 0 {
      ZeroConsumed(seqs, n - 1);
    }
  }

  /** `e` is the entry (seqs[s][pos[s]], s, pos[s]) of an input `s` not yet used up. */
  ghost predicate EntryOk(seqs: seq<seq<int>>, pos: seq<int>, e: HeapEntry) {
    0 <= e.1 < |seqs| == |pos| && pos[e.1] == e.2 && 0 <= e.2 < |seqs[e.1]| && e.0 == seqs[e.1][e.2]
  }

  ghost predicate HasEntry(heap: seq<HeapEntry>, s: int) {
    exists k :: 0 <= k < |heap| && heap[k].1 == s
  }

  predicate DistinctInputs(heap: seq<HeapEntry>) {
    forall i, j :: 0 <= i < j < |heap| ==> heap[i].1 != heap[j].1
  }

  /** The heap holds exactly one entry (seqs[s][pos[s]], s, pos[s]) for each input not yet used up. */
  ghost predicate HeapMatches(seqs: seq<seq<int>>, pos: seq<int>, heap: seq<HeapEntry>)
    requires InRange(seqs, pos)
  {
    && (forall k :: 0 <= k < |heap| ==> EntryOk(seqs, pos, heap[k]))
    && (forall s :: 0 <= s < |seqs| && pos[s] < |seqs[s]| ==> HasEntry(heap, s))
    && DistinctInputs(heap)
  }

  /** Every element still to be consumed is at least `lo`. */
  ghost predicate RemainingAtLeast(seqs: seq<seq<int>>, pos: seq<int>, lo: int)
    requires InRange(seqs, pos)
  {
    forall s, j :: 0 <= s < |seqs| && pos[s] <= j < |seqs[s]| ==> lo <= seqs[s][j]
  }

  /** The heap after the pushes that follow a pop of `m`. */
  function Refill(seqs: seq<seq<int>>, m: HeapEntry, rest: seq<HeapEntry>): seq<HeapEntry>
    requires 0 <= m.1 < |seqs|
  {
    if 0 <= m.2 + 1 < |seqs[m.1]| then rest + [(seqs[m.1][m.2 + 1], m.1, m.2 + 1)] else rest
  }

  /** Popping the entry of input `m.1` and pushing its successor keeps the heap in step with `pos`. */
  lemma PopKeepsHeap(seqs: seq<seq<int>>, pos: seq<int>, heap: seq<HeapEntry>, j: int)
    requires InRange(seqs, pos) && HeapMatches(seqs, pos, heap) && 0 <= j < |heap|
    ensures InRange(seqs, pos[heap[j].1 := heap[j].2 + 1])
    ensures HeapMatches(seqs, pos[heap[j].1 := heap[j].2 + 1], Refill(seqs, heap[j], heap[..j] + heap[j + 1..]))
  {
    var m := heap[j];
    assert EntryOk(seqs, pos, m);
    var rest := heap[..j] + heap[j + 1..];
    var pos' := pos[m.1 := m.2 + 1];
    var h := Refill(seqs, m, rest);
    assert |rest| == |heap| - 1;
    forall k | 0 <= k < |rest| ensures rest[k] == heap[if k < j then k else k + 1] && rest[k].1 != m.1 {
    }
    forall k | 0 <= k < |h| ensures EntryOk(seqs, pos', h[k]) {
      if k < |rest| {
        assert h[k] == rest[k];
        assert EntryOk(seqs, pos, heap[if k < j then k else k + 1]);
      }
    }
    forall s | 0 <= s < |seqs| && pos'[s] < |seqs[s]| ensures HasEntry(h, s) {
      if s != m.1 {
        assert HasEntry(heap, s);
        var k :| 0 <= k < |heap| && heap[k].1 == s;
        var k' := if k < j then k else k - 1;
        assert h[k'] == rest[k'] == heap[k];
      } else {
        assert h[|rest|].1 == s;
      }
    }
    forall a, b | 0 <= a < b < |h| ensures h[a].1 != h[b].1 {
      if b < |rest| {
        assert rest[a] == heap[if a < j then a else a + 1];
        assert rest[b] == heap[if b < j then b else b + 1];
      }
    }
  }

  /** With sorted inputs, the popped least head is at least the previous output and at most what remains. */
  lemma PopKeepsOrder(seqs: seq<seq<int>>, pos: seq<int>, heap: seq<HeapEntry>, j: int, result: seq<int>)
    requires AllSorted(seqs) && InRange(seqs, pos) && HeapMatches(seqs, pos, heap)
    requires 0 <= j < |heap| && forall k :: 0 <= k < |heap| ==> Le(heap[j], heap[k])
    requires Sorted(result) && (result != [] ==> RemainingAtLeast(seqs, pos, result[|result| - 1]))
    ensures InRange(seqs, pos[heap[j].1 := heap[j].2 + 1])
    ensures Sorted(result + [heap[j].0]) && RemainingAtLeast(seqs, pos[heap[j].1 := heap[j].2 + 1], heap[j].0)
  {
    var m := heap[j];
    assert EntryOk(seqs, pos, m);
    forall s, i | 0 <= s < |seqs| && pos[s] <= i < |seqs[s]| ensures m.0 <= seqs[s][i] {
      assert HasEntry(heap, s);
      var k :| 0 <= k < |heap| && heap[k].1 == s;
      assert EntryOk(seqs, pos, heap[k]);
      assert Le(m, heap[k]);
      assert seqs[s][pos[s]] <= seqs[s][i];
    }
    if result != [] {
      assert result[|result| - 1] <= m.0;
    }
    PushSorted(result, m.0);
  }

  lemma InitialMatches(seqs: seq<seq<int>>)
    requires InRange(seqs, Zeros(|seqs|))
    ensures HeapMatches(seqs, Zeros(|seqs|), InitialHeap(seqs))
  {
    var pos: seq<int> := Zeros(|seqs|);
    var h := InitialHeap(seqs);
    assert HeadsOf(seqs, h);
    forall k | 0 <= k < |h|
      ensures EntryOk(seqs, pos, h[k])
    {
      var e := h[k];
      assert 0 <= e.1 < |seqs| && |seqs[e.1]| > 0 && e == (seqs[e.1][0], e.1, 0);
      assert pos[e.1] == 0;
    }
    forall s | 0 <= s < |seqs| && pos[s] < |seqs[s]|
      ensures HasEntry(h, s)
    {
      assert pos[s] == 0;
    }
    assert DistinctInputs(h);
  }

  /** The loop invariant of `merge`. */
  ghost predicate MergeInv(seqs: seq<seq<int>>, pos: seq<int>, heap: seq<HeapEntry>, result: seq<int>) {
    && InRange(seqs, pos)
    && HeapMatches(seqs, pos, heap)
    && |result| == SumPos(pos, |seqs|)
    && multiset(result) == Consumed(seqs, pos, |seqs|)
    && (AllSorted(seqs) ==> Sorted(result))
    && (AllSorted(seqs) && result != [] ==> RemainingAtLeast(seqs, pos, result[|result| - 1]))
  }

  /** Appending the popped head advances the counts of input `m.1` by one. */
  lemma StepCounts(seqs: seq<seq<int>>, pos: seq<int>, m: HeapEntry, result: seq<int>)
    requires InRange(seqs, pos) && 0 <= m.1 < |seqs| && pos[m.1] == m.2 < |seqs[m.1]| && m.0 == seqs[m.1][m.2]
    requires |result| == SumPos(pos, |seqs|) && multiset(result) == Consumed(seqs, pos, |seqs|)
    ensures |result + [m.0]| == SumPos(pos[m.1 := m.2 + 1], |seqs|)
    ensures multiset(result + [m.0]) == Consumed(seqs, pos[m.1 := m.2 + 1], |seqs|)
  {
    AdvanceSum(pos, m.1, m.2 + 1, |seqs|);
    AdvanceConsumed(seqs, pos, pos[m.1 := m.2 + 1], m.1, |seqs|);
  }

  /** One iteration of the loop keeps the invariant. */
  lemma MergeStep(seqs: seq<seq<int>>, pos: seq<int>, heap: seq<HeapEntry>, result: seq<int>, j: int,
                  m: HeapEntry, rest: seq<HeapEntry>)
    requires MergeInv(seqs, pos, heap, result) && 0 <= j < |heap|
    requires forall k :: 0 <= k < |heap| ==> Le(heap[j], heap[k])
    requires m == heap[j] && rest == heap[..j] + heap[j + 1..]
    ensures 0 <= m.1 < |seqs|
    ensures MergeInv(seqs, pos[m.1 := m.2 + 1], Refill(seqs, m, rest), result + [m.0])
  {
    assert EntryOk(seqs, pos, m);
    PopKeepsHeap(seqs, pos, heap, j);
    StepCounts(seqs, pos, m, result);
    if AllSorted(seqs) {
      PopKeepsOrder(seqs, pos, heap, j, result);
    }
  }

  /** While input remains, the heap is not empty. */
  lemma HeapNonEmpty(seqs: seq<seq<int>>, pos: seq<int>, heap: seq<HeapEntry>, result: seq<int>)
    requires MergeInv(seqs, pos, heap, result) && |result| < TotalLen(seqs)
    ensures heap != []
  {
    assert seqs[..|seqs|] == seqs;
    SumPosBound(seqs, pos, |seqs|);
    var s0 :| 0 <= s0 < |seqs| && pos[s0] < |seqs[s0]|;
    assert HasEntry(heap, s0);
  }

  /** When the count is reached, everything has been consumed. */
  lemma MergeDone(seqs: seq<seq<int>>, pos: seq<int>, heap: seq<HeapEntry>, result: seq<int>)
    requires MergeInv(seqs, pos, heap, result) && |result| == TotalLen(seqs)
    ensures multiset(result) == multiset(Concat(seqs))
    ensures AllSorted(seqs) ==> Sorted(result) && result == Sort(Concat(seqs))
  {
    assert seqs[..|seqs|] == seqs;
    SumPosBound(seqs, pos, |seqs|);
    ConsumedAll(seqs, pos, |seqs|);
    if AllSorted(seqs) {
      SortIsUnique(Concat(seqs), result);
    }
  }

  /** `merge`: pops the least head, appends it, and pushes the next element of its input. */
  method Merge(seqs: seq<seq<int>>) returns (result: seq<int>)
    ensures |result| == TotalLen(seqs)
    ensures multiset(result) == multiset(Concat(seqs))
    ensures AllSorted(seqs) ==> Sorted(result) && result == Sort(Concat(seqs))
  {
    var totalLen := TotalLen(seqs);
    var heap := InitialHeap(seqs);
    result := [];
    ghost var pos: seq<int> := Zeros(|seqs|);
    ZeroConsumed(seqs, |seqs|);
    InitialMatches(seqs);
    for i := 0 to totalLen
      invariant |result| == i
      invariant MergeInv(seqs, pos, heap, result)
    {
      heap, result, pos := MergeRound(seqs, heap, result, pos);
    }
    MergeDone(seqs, pos, heap, result);
  }

  /** One pass of the loop of `merge`: pop the least entry, emit its value, push its successor. */
  method MergeRound(seqs: seq<seq<int>>, heap: seq<HeapEntry>, result: seq<int>, ghost pos: seq<int>)
    returns (heap': seq<HeapEntry>, result': seq<int>, ghost pos': seq<int>)
    requires MergeInv(seqs, pos, heap, result) && |result| < TotalLen(seqs)
    ensures |result'| == |result| + 1
    ensures MergeInv(seqs, pos', heap', result')
  {
    HeapNonEmpty(seqs, pos, heap, result);
    var m, rest := HeapPop(heap);
    ghost var j :| 0 <= j < |heap| && m == heap[j] && rest == heap[..j] + heap[j + 1..];
    MergeStep(seqs, pos, heap, result, j, m, rest);
    var currMin, currSeqIdx, currIdx := m.0, m.1, m.2;
    result' := result + [currMin];
    pos' := pos[m.1 := m.2 + 1];
    if currIdx + 1 < |seqs[currSeqIdx]| {
      heap' := rest + [(seqs[currSeqIdx][currIdx + 1], currSeqIdx, currIdx + 1)];
    } else {
      heap' := rest;
    }
    assert heap' == Refill(seqs, m, rest);
  }

  lemma PushSorted(s: seq<int>, x: int)
    requires Sorted(s) && (s != [] ==> s[|s| - 1] <= x)
    ensures Sorted(s + [x])
  {
  }
}
