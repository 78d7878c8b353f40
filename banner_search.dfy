/**
 * banner_search_system: normalising banner texts, an inverted index from
 * words to banner ids, and a query that intersects the posting lists of
 * the query words with a k-way heap merge. The heap is modelled by its
 * entries (posting value, word position, list position); `heappop`
 * removes a least entry in tuple order.
 */
module BannerSearch {
  import opened Wrappers
  import opened Text
  import opened MergeK

  // ---------------------------------------------------------------- text

  /** The characters of `string.digits + string.punctuation`. */
  predicate Deleted(c: char) {
    (33 <= c as int <= 64) || (91 <= c as int <= 96) || (123 <= c as int <= 126)
  }

  /** `normalize`: drops digits and punctuation and lower-cases what is left. */
  function Normalize(text: string): (r: string)
    ensures |r| <= |text|
    ensures forall k :: 0 <= k < |r| ==> !Deleted(r[k]) && !('A' <= r[k] <= 'Z')
    decreases |text|
  {
    if text == [] then ""
    else (if Deleted(text[0]) then "" else [LowerChar(text[0])]) + Normalize(text[1..])
  }

  /** Normalising a normalised text changes nothing. */
  lemma {:induction false} NormalizeIdempotent(text: string)
    ensures Normalize(Normalize(text)) == Normalize(text)
    decreases |text|
  {
    if text != [] {
      NormalizeIdempotent(text[1..]);
      NormalizeAppend(if Deleted(text[0]) then "" else [LowerChar(text[0])], Normalize(text[1..]));
    }
  }

  /** One character is dropped when it is a digit or punctuation, and lower-cased otherwise. */
  lemma NormalizeChar(c: char)
    ensures Normalize([c]) == if Deleted(c) then "" else [LowerChar(c)]
  {
    assert [c][1..] == "";
  }

  /** Normalising works character by character, so it distributes over concatenation. */
  lemma {:induction false} NormalizeAppend(a: string, b: string)
    ensures Normalize(a + b) == Normalize(a) + Normalize(b)
    decreases |a|
  {
    if a != [] {
      assert (a + b)[1..] == a[1..] + b;
      NormalizeAppend(a[1..], b);
    } else {
      assert a + b == b;
    }
  }

  /** The tokens of `ws` longer than 3 characters, in order. */
  function LongWords(ws: seq<string>): (r: seq<string>)
    ensures |r| <= |ws|
    ensures forall k :: 0 <= k < |r| ==> |r[k]| > 3
  {
    if ws == [] then []
    else (if |ws[0]| > 3 then [ws[0]] else []) + LongWords(ws[1..])
  }

  /** A token is kept exactly when it is long enough. */
  lemma {:induction false} LongWordsMember(ws: seq<string>, w: string)
    ensures w in LongWords(ws) <==> w in ws && |w| > 3
  {
    if ws != [] {
      LongWordsMember(ws[1..], w);
      assert ws == [ws[0]] + ws[1..];
    }
  }

  /** `get_words`: the whitespace-separated tokens longer than 3 characters. */
  function GetWords(query: string): seq<string> {
    LongWords(SplitWs(query))
  }

  /** The words a banner is indexed under. */
  function Words(banner: string): seq<string> {
    GetWords(Normalize(banner))
  }

  // ---------------------------------------------------------------- index

  predicate Increasing(s: seq<int>) {
    forall i, j :: 0 <= i < j < |s| ==> s[i] < s[j]
  }

  /** Every posting list is non-empty and strictly increasing. */
  ghost predicate PostingsValid(index: map<string, seq<int>>) {
    forall w :: w in index ==> index[w] != [] && Increasing(index[w])
  }

  /** Every id in `list` is a banner before `n` with `w` among its words. */
  ghost predicate ListedUnder(banners: seq<string>, w: string, list: seq<int>, n: int)
    requires n <= |banners|
  {
    forall i :: i in list ==> 0 <= i < n && w in Words(banners[i])
  }

  /** Banner `i` is listed under each of its words. */
  ghost predicate Indexed(banners: seq<string>, index: map<string, seq<int>>, i: int)
    requires 0 <= i < |banners|
  {
    forall w :: w in Words(banners[i]) ==> w in index && i in index[w]
  }

  /** The index after the banners before `n`: their words, each with the ids below `n` that hold it. */
  ghost predicate IndexUpTo(banners: seq<string>, index: map<string, seq<int>>, n: int) {
    && 0 <= n <= |banners|
    && PostingsValid(index)
    && (forall w :: w in index ==> ListedUnder(banners, w, index[w], n))
    && (forall i :: 0 <= i < n ==> Indexed(banners, index, i))
  }

  /** `index` lists, for each word, exactly the banners whose words contain it. */
  ghost predicate IndexOf(banners: seq<string>, index: map<string, seq<int>>) {
    IndexUpTo(banners, index, |banners|)
  }

  /** The list of `w` in `index`, empty when absent (the `defaultdict(list)` lookup). */
  function ListOf(index: map<string, seq<int>>, w: string): seq<int> {
    if w in index then index[w] else []
  }

  /** `[n]` when `w` is one of the banner's words, `[]` otherwise. */
  function Mark(seen: set<string>, w: string, n: int): seq<int> {
    if w in seen then [n] else []
  }

  /** `build_index`: appends each banner id once to the list of every word of that banner. */
  method BuildIndex(banners: seq<string>) returns (index: map<string, seq<int>>)
    ensures IndexOf(banners, index)
  {
    index := map[];
    for idx := 0 to |banners|
      invariant IndexUpTo(banners, index, idx)
    {
      ghost var before := index;
      var seen;
      index, seen := AddBanner(index, Words(banners[idx]), idx);
      IndexStep(banners, before, index, idx, seen);
    }
  }

  /** The body of `build_index`'s outer loop: appends `idx` once under each distinct word of `words`. */
  method AddBanner(before: map<string, seq<int>>, words: seq<string>, idx: int)
    returns (index: map<string, seq<int>>, wordsInBanner: set<string>)
    ensures forall w :: w in wordsInBanner <==> w in words
    ensures forall w :: w in index <==> w in before || w in wordsInBanner
    ensures forall w :: w in index ==> index[w] == ListOf(before, w) + Mark(wordsInBanner, w, idx)
  {
    index := before;
    wordsInBanner := {};
    for k := 0 to |words|
      invariant forall w :: w in wordsInBanner <==> w in words[..k]
      invariant forall w :: w in index <==> w in before || w in wordsInBanner
      invariant forall w :: w in index ==> index[w] == ListOf(before, w) + Mark(wordsInBanner, w, idx)
    {
      var w := words[k];
      assert words[..k + 1] == words[..k] + [w];
      if w !in wordsInBanner {
        var list := if w in index then index[w] else [];
        index := index[w := list + [idx]];
        wordsInBanner := wordsInBanner + {w};
      }
    }
    assert words[..|words|] == words;
  }

  /** Appending an id above every listed one keeps a posting list increasing. */
  lemma AppendAbove(list: seq<int>, n: int)
    requires Increasing(list) && forall i :: i in list ==> i < n
    ensures Increasing(list + [n])
  {
    var r := list + [n];
    forall i, j | 0 <= i < j < |r| ensures r[i] < r[j] {
      assert r[i] == list[i];
      if j < |list| {
        assert r[j] == list[j];
      } else {
        assert list[i] in list;
      }
    }
  }

  /** The posting lists stay non-empty and increasing when banner `n` is added. */
  lemma PostingsStep(before: map<string, seq<int>>, index: map<string, seq<int>>, n: int, seen: set<string>)
    requires PostingsValid(before)
    requires forall w :: w in before ==> forall i :: i in before[w] ==> i < n
    requires forall w :: w in index <==> w in before || w in seen
    requires forall w :: w in index ==> index[w] == ListOf(before, w) + Mark(seen, w, n)
    ensures PostingsValid(index)
  {
    forall w | w in index ensures index[w] != [] && Increasing(index[w]) {
      if w in before && w in seen {
        AppendAbove(before[w], n);
      }
    }
  }

  /** Every listed id still names a banner holding the word once banner `n` is added. */
  lemma ListedStep(banners: seq<string>, before: map<string, seq<int>>, index: map<string, seq<int>>,
                   n: int, seen: set<string>)
    requires 0 <= n < |banners|
    requires forall w :: w in before ==> ListedUnder(banners, w, before[w], n)
    requires forall w :: w in seen <==> w in Words(banners[n])
    requires forall w :: w in index ==> index[w] == ListOf(before, w) + Mark(seen, w, n)
    ensures forall w :: w in index ==> ListedUnder(banners, w, index[w], n + 1)
  {
    forall w | w in index ensures ListedUnder(banners, w, index[w], n + 1) {
      assert w in before ==> ListedUnder(banners, w, before[w], n);
    }
  }

  /** Every banner up to `n` is listed under all of its words once banner `n` is added. */
  lemma IndexedStep(banners: seq<string>, before: map<string, seq<int>>, index: map<string, seq<int>>,
                    n: int, seen: set<string>)
    requires 0 <= n < |banners|
    requires forall i :: 0 <= i < n ==> Indexed(banners, before, i)
    requires forall w :: w in seen <==> w in Words(banners[n])
    requires forall w :: w in index <==> w in before || w in seen
    requires forall w :: w in index ==> index[w] == ListOf(before, w) + Mark(seen, w, n)
    ensures forall i :: 0 <= i < n + 1 ==> Indexed(banners, index, i)
  {
    forall i | 0 <= i < n + 1 ensures Indexed(banners, index, i) {
      if i < n {
        assert Indexed(banners, before, i);
      }
    }
  }

  /** Adding banner `n` under each of its words extends the index to the banners before `n + 1`. */
  lemma IndexStep(banners: seq<string>, before: map<string, seq<int>>, index: map<string, seq<int>>,
                  n: int, seen: set<string>)
    requires 0 <= n < |banners| && IndexUpTo(banners, before, n)
    requires forall w :: w in seen <==> w in Words(banners[n])
    requires forall w :: w in index <==> w in before || w in seen
    requires forall w :: w in index ==> index[w] == ListOf(before, w) + Mark(seen, w, n)
    ensures IndexUpTo(banners, index, n + 1)
  {
    forall w | w in before ensures forall i :: i in before[w] ==> i < n {
      assert ListedUnder(banners, w, before[w], n);
    }
    PostingsStep(before, index, n, seen);
    ListedStep(banners, before, index, n, seen);
    IndexedStep(banners, before, index, n, seen);
  }

  // ---------------------------------------------------------------- query

  /** `b` is in the posting list of every query word (and there is at least one word). */
  ghost predicate MatchesAll(words: seq<string>, index: map<string, seq<int>>, b: int) {
    |words| > 0 && forall k :: 0 <= k < |words| ==> words[k] in index && b in index[words[k]]
  }

  /** A reference definition of the query: the ids of the first word's list that every other list holds. */
  function QueryRef(words: seq<string>, index: map<string, seq<int>>): seq<int> {
    if words == [] || words[0] !in index then []
    else KeepShared(index[words[0]], words, index)
  }

  /** `ids` restricted to those in the posting list of every word. */
  function KeepShared(ids: seq<int>, words: seq<string>, index: map<string, seq<int>>): (r: seq<int>)
    ensures forall b :: b in r <==> b in ids && forall k :: 0 <= k < |words| ==> words[k] in index && b in index[words[k]]
    ensures Increasing(ids) ==> Increasing(r)
  {
    if ids == [] then []
    else
      var rest := KeepShared(ids[1..], words, index);
      if forall k :: 0 <= k < |words| ==> words[k] in index && ids[0] in index[words[k]] then
        var r := [ids[0]] + rest;
        assert Increasing(ids) ==> Increasing(r) by {
          if Increasing(ids) {
            assert forall b :: b in rest ==> b in ids[1..];
            forall i, j | 0 <= i < j < |r| ensures r[i] < r[j] {
              assert r[j] == rest[j - 1] && r[j] in rest;
              if i > 0 {
                assert r[i] == rest[i - 1];
              }
            }
          }
        }
        r
      else rest
  }

  /** Two strictly increasing lists with the same members are equal. */
  lemma {:induction false} IncreasingUnique(a: seq<int>, b: seq<int>)
    requires Increasing(a) && Increasing(b)
    requires forall x :: x in a <==> x in b
    ensures a == b
  {
    if a != [] {
      assert a[0] in a;
    }
    if b != [] {
      assert b[0] in b;
    }
    if a != [] && b != [] {
      assert a[0] <= b[0] && b[0] <= a[0];
      forall x ensures x in a[1..] <==> x in b[1..] {
        assert x in a[1..] <==> x in a && x != a[0];
        assert x in b[1..] <==> x in b && x != b[0];
      }
      IncreasingUnique(a[1..], b[1..]);
      assert a == [a[0]] + a[1..] && b == [b[0]] + b[1..];
    }
  }

  /** The reference result is the increasing list of ids shared by every query word. */
  lemma QueryRefMeaning(words: seq<string>, index: map<string, seq<int>>)
    requires PostingsValid(index)
    ensures Increasing(QueryRef(words, index))
    ensures forall b :: b in QueryRef(words, index) <==> MatchesAll(words, index, b)
  {
  }

  ghost predicate AllIncreasing(lists: seq<seq<int>>) {
    forall w :: 0 <= w < |lists| ==> Increasing(lists[w])
  }

  ghost predicate InAll(lists: seq<seq<int>>, b: int) {
    forall w :: 0 <= w < |lists| ==> b in lists[w]
  }

  /** The number of lists before `n` whose consumed prefix holds `c`. */
  function Hits(lists: seq<seq<int>>, pos: seq<int>, c: int, n: int): (r: nat)
    requires 0 <= n <= |lists| == |pos|
    ensures r <= n
  {
    if n == 0 then 0 else Hits(lists, pos, c, n - 1) + (if c in Take(lists[n - 1], pos[n - 1]) then 1 else 0)
  }

  /** Every list before `n` holds `c` in its consumed prefix exactly when all of them count. */
  lemma {:induction false} HitsAll(lists: seq<seq<int>>, pos: seq<int>, c: int, n: int)
    requires 0 <= n <= |lists| == |pos|
    ensures Hits(lists, pos, c, n) == n <==> forall w :: 0 <= w < n ==> c in Take(lists[w], pos[w])
  {
    if n > 0 {
      HitsAll(lists, pos, c, n - 1);
    }
  }

  lemma {:induction false} HitsZero(lists: seq<seq<int>>, pos: seq<int>, c: int, n: int)
    requires 0 <= n <= |lists| == |pos|
    requires forall w :: 0 <= w < n ==> c !in Take(lists[w], pos[w])
    ensures Hits(lists, pos, c, n) == 0
  {
    if n > 0 {
      HitsZero(lists, pos, c, n - 1);
    }
  }

  /** Consuming one more element of list `w0` counts it when it equals `c`. */
  lemma {:induction false} HitsAdvance(lists: seq<seq<int>>, pos: seq<int>, w0: int, c: int, n: int)
    requires InRange(lists, pos) && 0 <= n <= |lists| && 0 <= w0 < |lists| && pos[w0] < |lists[w0]|
    requires c !in Take(lists[w0], pos[w0])
    ensures Hits(lists, pos[w0 := pos[w0] + 1], c, n)
      == Hits(lists, pos, c, n) + (if w0 < n && lists[w0][pos[w0]] == c then 1 else 0)
  {
    if n > 0 {
      HitsAdvance(lists, pos, w0, c, n - 1);
      if w0 == n - 1 {
        var t := lists[w0];
        assert t[..pos[w0] + 1] == t[..pos[w0]] + [t[pos[w0]]];
      } else {
        assert pos[w0 := pos[w0] + 1][n - 1] == pos[n - 1];
      }
    }
  }

  /** Every consumed element is at most `c`. */
  ghost predicate ConsumedAtMost(lists: seq<seq<int>>, pos: seq<int>, c: int) {
    forall w, i :: 0 <= w < |lists| && w < |pos| && 0 <= i < pos[w] && i < |lists[w]| ==> lists[w][i] <= c
  }

  /** While `c` is the current id: `cnt` counts its occurrences so far, and `result` is complete below `c`. */
  ghost predicate CurrInv(lists: seq<seq<int>>, pos: seq<int>, result: seq<int>, c: int, cnt: int)
    requires InRange(lists, pos)
  {
    && ConsumedAtMost(lists, pos, c)
    && RemainingAtLeast(lists, pos, c)
    && cnt == Hits(lists, pos, c, |lists|)
    && (forall k :: 0 <= k < |result| ==> result[k] < c)
    && (forall b :: b in result <==> b < c && InAll(lists, b))
  }

  /** The heap half of the loop invariant: one entry per unfinished list, and the consumed count. */
  ghost predicate HeapPart(lists: seq<seq<int>>, pos: seq<int>, heap: seq<HeapEntry>) {
    && InRange(lists, pos)
    && HeapMatches(lists, pos, heap)
    && SumPos(pos, |lists|) <= TotalLen(lists)
  }

  /** The counting half of the loop invariant: `curr_b_idx`, `curr_w_cnt` and `result`. */
  ghost predicate ValuePart(lists: seq<seq<int>>, pos: seq<int>, result: seq<int>, curr: Option<int>, cnt: int) {
    && InRange(lists, pos)
    && Increasing(result)
    && (curr.None? ==> result == [] && cnt == 0 && forall w :: 0 <= w < |lists| ==> pos[w] == 0)
    && (curr.Some? ==> CurrInv(lists, pos, result, curr.value, cnt))
  }

  /** The popped least entry is the head of its list and no unconsumed element is smaller. */
  lemma PopFacts(lists: seq<seq<int>>, pos: seq<int>, heap: seq<HeapEntry>, j: int)
    requires AllIncreasing(lists) && InRange(lists, pos) && HeapMatches(lists, pos, heap)
    requires 0 <= j < |heap| && forall k :: 0 <= k < |heap| ==> Le(heap[j], heap[k])
    ensures 0 <= heap[j].1 < |lists| && heap[j].2 == pos[heap[j].1] && 0 <= heap[j].2 < |lists[heap[j].1]|
    ensures heap[j].0 == lists[heap[j].1][heap[j].2]
    ensures RemainingAtLeast(lists, pos, heap[j].0)
    ensures heap[j].0 !in Take(lists[heap[j].1], pos[heap[j].1])
  {
    var m := heap[j];
    assert EntryOk(lists, pos, m);
    forall s, i | 0 <= s < |lists| && pos[s] <= i < |lists[s]| ensures m.0 <= lists[s][i] {
      assert HasEntry(heap, s);
      var k :| 0 <= k < |heap| && heap[k].1 == s;
      assert EntryOk(lists, pos, heap[k]);
      assert Le(m, heap[k]);
      if i > pos[s] {
        assert lists[s][pos[s]] < lists[s][i];
      }
    }
    var t := lists[m.1];
    assert forall i :: 0 <= i < pos[m.1] ==> t[i] < t[pos[m.1]];
  }

  /** Popping entry `j` and pushing its successor keeps the heap half, with one more element consumed. */
  lemma HeapStep(lists: seq<seq<int>>, pos: seq<int>, heap: seq<HeapEntry>, j: int, pos': seq<int>, heap': seq<HeapEntry>)
    requires HeapPart(lists, pos, heap) && 0 <= j < |heap| && 0 <= heap[j].1 < |lists|
    requires pos' == pos[heap[j].1 := heap[j].2 + 1]
    requires heap' == Refill(lists, heap[j], heap[..j] + heap[j + 1..])
    ensures HeapPart(lists, pos', heap')
    ensures SumPos(pos', |lists|) == SumPos(pos, |lists|) + 1
  {
    assert EntryOk(lists, pos, heap[j]);
    PopKeepsHeap(lists, pos, heap, j);
    AdvanceSum(pos, heap[j].1, heap[j].2 + 1, |lists|);
    assert lists[..|lists|] == lists;
    SumPosBound(lists, pos', |lists|);
  }

  /** Once `v > c` is popped, `c` has been seen in every list that holds it, and no shared id lies between them. */
  lemma Finalize(lists: seq<seq<int>>, pos: seq<int>, c: int, v: int)
    requires InRange(lists, pos) && |lists| >= 1
    requires ConsumedAtMost(lists, pos, c) && RemainingAtLeast(lists, pos, v) && c < v
    ensures Hits(lists, pos, c, |lists|) == |lists| <==> InAll(lists, c)
    ensures forall b :: InAll(lists, b) ==> b <= c || v <= b
  {
    HitsAll(lists, pos, c, |lists|);
    forall w | 0 <= w < |lists| ensures c in Take(lists[w], pos[w]) <==> c in lists[w] {
      var t := lists[w];
      assert t == t[..pos[w]] + t[pos[w]..];
      assert forall x :: x in t[pos[w]..] ==> v <= x;
    }
    forall b | InAll(lists, b) ensures b <= c || v <= b {
      var t := lists[0];
      var i :| 0 <= i < |t| && t[i] == b;
    }
  }

  /** An id above everything consumed has no hits yet. */
  lemma Fresh(lists: seq<seq<int>>, pos: seq<int>, c: int, v: int)
    requires InRange(lists, pos) && ConsumedAtMost(lists, pos, c) && c < v
    ensures forall w :: 0 <= w < |lists| ==> v !in Take(lists[w], pos[w])
    ensures Hits(lists, pos, v, |lists|) == 0
  {
    forall w | 0 <= w < |lists| ensures v !in Take(lists[w], pos[w]) {
      assert forall i :: 0 <= i < pos[w] ==> lists[w][i] <= c;
    }
    HitsZero(lists, pos, v, |lists|);
  }

  /** Consuming the head `v` of list `w0` keeps the positions in range and every consumed element at most `v`. */
  lemma ConsumedAdvance(lists: seq<seq<int>>, pos: seq<int>, w0: int, v: int)
    requires InRange(lists, pos) && 0 <= w0 < |lists| && pos[w0] < |lists[w0]| && lists[w0][pos[w0]] <= v
    requires ConsumedAtMost(lists, pos, v)
    ensures InRange(lists, pos[w0 := pos[w0] + 1])
    ensures ConsumedAtMost(lists, pos[w0 := pos[w0] + 1], v)
  {
  }

  /** Consuming one more element keeps every unconsumed element at least `v`. */
  lemma RemainingAdvance(lists: seq<seq<int>>, pos: seq<int>, w0: int, v: int)
    requires InRange(lists, pos) && 0 <= w0 < |lists| && pos[w0] < |lists[w0]|
    requires RemainingAtLeast(lists, pos, v)
    ensures InRange(lists, pos[w0 := pos[w0] + 1])
    ensures RemainingAtLeast(lists, pos[w0 := pos[w0] + 1], v)
  {
  }

  /** When `v > c` is popped, `c` is emitted exactly if every list held it, and the result stays complete below `v`. */
  lemma NewResultSome(lists: seq<seq<int>>, pos: seq<int>, result: seq<int>, c: int, cnt: int, v: int,
                      result': seq<int>)
    requires InRange(lists, pos) && |lists| >= 1 && Increasing(result)
    requires CurrInv(lists, pos, result, c, cnt) && c < v && RemainingAtLeast(lists, pos, v)
    requires result' == if cnt == |lists| then result + [c] else result
    ensures Increasing(result')
    ensures forall k :: 0 <= k < |result'| ==> result'[k] < v
    ensures forall b :: b in result' <==> b < v && InAll(lists, b)
  {
    Finalize(lists, pos, c, v);
  }

  /** The first pop: nothing shared lies below the least head. */
  lemma NewResultNone(lists: seq<seq<int>>, pos: seq<int>, v: int)
    requires InRange(lists, pos) && |lists| >= 1 && RemainingAtLeast(lists, pos, v)
    requires forall w :: 0 <= w < |lists| ==> pos[w] == 0
    ensures forall b :: InAll(lists, b) ==> v <= b
  {
    forall b | InAll(lists, b) ensures v <= b {
      var t := lists[0];
      var i :| 0 <= i < |t| && t[i] == b;
    }
  }

  /** The first pop: its id `v` starts with one hit and nothing is emitted. */
  lemma CurrFirst(lists: seq<seq<int>>, pos: seq<int>, w0: int, v: int)
    requires InRange(lists, pos) && forall w :: 0 <= w < |lists| ==> pos[w] == 0
    requires 0 <= w0 < |lists| && pos[w0] < |lists[w0]| && lists[w0][pos[w0]] == v
    requires RemainingAtLeast(lists, pos, v)
    ensures InRange(lists, pos[w0 := pos[w0] + 1])
    ensures CurrInv(lists, pos[w0 := pos[w0] + 1], [], v, 1)
  {
    Fresh(lists, pos, v - 1, v);
    NewResultNone(lists, pos, v);
    HitsAdvance(lists, pos, w0, v, |lists|);
    ConsumedAdvance(lists, pos, w0, v);
    RemainingAdvance(lists, pos, w0, v);
  }

  /** A pop of a new id `v > c`: `c` is emitted if every list held it, and `v` starts with one hit. */
  lemma CurrNew(lists: seq<seq<int>>, pos: seq<int>, result: seq<int>, c: int, cnt: int, w0: int, v: int,
                result': seq<int>)
    requires InRange(lists, pos) && Increasing(result)
    requires CurrInv(lists, pos, result, c, cnt) && c < v
    requires 0 <= w0 < |lists| && pos[w0] < |lists[w0]| && lists[w0][pos[w0]] == v
    requires RemainingAtLeast(lists, pos, v)
    requires result' == if cnt == |lists| then result + [c] else result
    ensures InRange(lists, pos[w0 := pos[w0] + 1])
    ensures Increasing(result')
    ensures CurrInv(lists, pos[w0 := pos[w0] + 1], result', v, 1)
  {
    Fresh(lists, pos, c, v);
    NewResultSome(lists, pos, result, c, cnt, v, result');
    HitsAdvance(lists, pos, w0, v, |lists|);
    ConsumedAdvance(lists, pos, w0, v);
    RemainingAdvance(lists, pos, w0, v);
  }

  /** A pop of the current id `c` adds one hit. */
  lemma CurrSame(lists: seq<seq<int>>, pos: seq<int>, result: seq<int>, c: int, cnt: int, w0: int)
    requires InRange(lists, pos) && CurrInv(lists, pos, result, c, cnt)
    requires 0 <= w0 < |lists| && pos[w0] < |lists[w0]| && lists[w0][pos[w0]] == c
    requires c !in Take(lists[w0], pos[w0])
    ensures InRange(lists, pos[w0 := pos[w0] + 1])
    ensures CurrInv(lists, pos[w0 := pos[w0] + 1], result, c, cnt + 1)
  {
    HitsAdvance(lists, pos, w0, c, |lists|);
    ConsumedAdvance(lists, pos, w0, c);
    RemainingAdvance(lists, pos, w0, c);
  }

  /** The counting half gathered from its parts, for a current id `c`. */
  lemma AssembleValue(lists: seq<seq<int>>, pos: seq<int>, result: seq<int>, c: int, cnt: int)
    requires InRange(lists, pos) && Increasing(result) && CurrInv(lists, pos, result, c, cnt)
    ensures ValuePart(lists, pos, result, Some(c), cnt)
  {
  }

  /** One pop of `v` from list `w0` keeps the counting half, in each branch of the loop body. */
  lemma ValueStep(lists: seq<seq<int>>, pos: seq<int>, result: seq<int>, curr: Option<int>, cnt: int,
                  w0: int, v: int, pos': seq<int>, result': seq<int>, curr': Option<int>, cnt': int)
    requires ValuePart(lists, pos, result, curr, cnt)
    requires 0 <= w0 < |lists| && pos[w0] < |lists[w0]| && lists[w0][pos[w0]] == v
    requires RemainingAtLeast(lists, pos, v) && v !in Take(lists[w0], pos[w0])
    requires pos' == pos[w0 := pos[w0] + 1]
    requires curr.None? || v != curr.value ==>
      result' == (if curr.Some? && cnt == |lists| then result + [curr.value] else result)
      && curr' == Some(v) && cnt' == 1
    requires curr.Some? && v == curr.value ==> result' == result && curr' == curr && cnt' == cnt + 1
    ensures ValuePart(lists, pos', result', curr', cnt')
  {
    if curr.None? {
      CurrFirst(lists, pos, w0, v);
    } else if v != curr.value {
      CurrNew(lists, pos, result, curr.value, cnt, w0, v, result');
    } else {
      CurrSame(lists, pos, result, curr.value, cnt, w0);
    }
    AssembleValue(lists, pos', result', curr'.value, cnt');
  }

  /** The heap of the first heads of the lists, in list order, starts the loop with nothing consumed. */
  lemma HeapStart(lists: seq<seq<int>>, heap: seq<HeapEntry>)
    requires forall w :: 0 <= w < |lists| ==> lists[w] != []
    requires |heap| == |lists| && forall k :: 0 <= k < |heap| ==> heap[k] == (lists[k][0], k, 0)
    ensures HeapPart(lists, Zeros(|lists|), heap)
  {
    var pos: seq<int> := Zeros(|lists|);
    ZeroSum(|lists|, |lists|);
    assert InRange(lists, pos);
    forall k | 0 <= k < |heap| ensures EntryOk(lists, pos, heap[k]) {
      assert pos[k] == 0 && heap[k] == (lists[k][0], k, 0);
    }
    forall s | 0 <= s < |lists| && pos[s] < |lists[s]| ensures HasEntry(heap, s) {
      assert heap[s].1 == s;
    }
    forall i, j | 0 <= i < j < |heap| ensures heap[i].1 != heap[j].1 {
      assert heap[i].1 == i && heap[j].1 == j;
    }
    assert HeapMatches(lists, pos, heap);
  }

  lemma {:induction false} ZeroSum(m: nat, n: int)
    requires 0 <= n <= m
    ensures SumPos(Zeros(m), n) == 0
  {
    if n > 0 {
      ZeroSum(m, n - 1);
    }
  }

  /** Before the first pop there is no current id, no count and no result. */
  lemma ValueStart(lists: seq<seq<int>>)
    ensures ValuePart(lists, Zeros(|lists|), [], None, 0)
  {
  }

  /** An empty heap means every list is used up. */
  lemma AllUsed(lists: seq<seq<int>>, pos: seq<int>)
    requires InRange(lists, pos) && HeapMatches(lists, pos, [])
    ensures forall w :: 0 <= w < |lists| ==> pos[w] == |lists[w]|
  {
    forall w | 0 <= w < |lists| ensures pos[w] == |lists[w]| {
      assert !HasEntry([], w);
    }
  }

  /** With every list used up, the final decision on `c` completes the result. */
  lemma LastDecision(lists: seq<seq<int>>, pos: seq<int>, result: seq<int>, c: int, cnt: int, result': seq<int>)
    requires InRange(lists, pos) && |lists| >= 1 && forall w :: 0 <= w < |lists| ==> pos[w] == |lists[w]|
    requires Increasing(result) && CurrInv(lists, pos, result, c, cnt)
    requires result' == if cnt == |lists| then result + [c] else result
    ensures Increasing(result')
    ensures forall b :: b in result' <==> InAll(lists, b)
  {
    HitsAll(lists, pos, c, |lists|);
    forall w | 0 <= w < |lists| ensures Take(lists[w], pos[w]) == lists[w] {
    }
    assert cnt == |lists| <==> InAll(lists, c);
    forall b | InAll(lists, b) ensures b <= c {
      var t := lists[0];
      var i :| 0 <= i < |t| && t[i] == b;
      assert i < pos[0];
    }
    if cnt == |lists| {
      AppendLarger(result, c);
      forall b ensures b in result' <==> InAll(lists, b) {
        assert b in result' <==> b in result || b == c;
      }
    }
  }

  lemma AppendLarger(r: seq<int>, c: int)
    requires Increasing(r) && forall k :: 0 <= k < |r| ==> r[k] < c
    ensures Increasing(r + [c])
  {
  }

  /** With the heap empty every list is used up, so the last id is decided and the result is complete. */
  lemma QueryEnd(lists: seq<seq<int>>, pos: seq<int>, result: seq<int>, curr: Option<int>, cnt: int,
                 result': seq<int>)
    requires HeapPart(lists, pos, []) && ValuePart(lists, pos, result, curr, cnt)
    requires |lists| >= 1 && forall w :: 0 <= w < |lists| ==> lists[w] != []
    requires result' == if curr.Some? && cnt == |lists| then result + [curr.value] else result
    ensures curr.Some?
    ensures Increasing(result')
    ensures forall b :: b in result' <==> InAll(lists, b)
  {
    AllUsed(lists, pos);
    assert pos[0] != 0;
    LastDecision(lists, pos, result, curr.value, cnt, result');
  }

  /** The intersection in `get_banner_indices_by_query` of the posting lists of the query words. */
  method Intersect(wordBanners: seq<seq<int>>) returns (result: seq<int>)
    requires |wordBanners| >= 1
    requires forall w :: 0 <= w < |wordBanners| ==> wordBanners[w] != [] && Increasing(wordBanners[w])
    ensures Increasing(result)
    ensures forall b :: b in result <==> InAll(wordBanners, b)
  {
    var minHeap: seq<HeapEntry> := [];
    for idx := 0 to |wordBanners|
      invariant |minHeap| == idx
      invariant forall k :: 0 <= k < idx ==> minHeap[k] == (wordBanners[k][0], k, 0)
    {
      minHeap := minHeap + [(wordBanners[idx][0], idx, 0)];
    }
    HeapStart(wordBanners, minHeap);
    ValueStart(wordBanners);
    result := Drain(wordBanners, minHeap, Zeros(|wordBanners|));
  }

  /** The heap loop: pops least entries, counts runs of equal ids and keeps those seen in every list. */
  method Drain(wordBanners: seq<seq<int>>, minHeap0: seq<HeapEntry>, ghost pos0: seq<int>) returns (result: seq<int>)
    requires |wordBanners| >= 1
    requires forall w :: 0 <= w < |wordBanners| ==> wordBanners[w] != [] && Increasing(wordBanners[w])
    requires HeapPart(wordBanners, pos0, minHeap0) && ValuePart(wordBanners, pos0, [], None, 0)
    ensures Increasing(result)
    ensures forall b :: b in result <==> InAll(wordBanners, b)
  {
    var minHeap := minHeap0;
    ghost var pos := pos0;
    result := [];
    var currBIdx: Option<int> := None;
    var currWCnt := 0;
    while minHeap != []
      invariant HeapPart(wordBanners, pos, minHeap)
      invariant ValuePart(wordBanners, pos, result, currBIdx, currWCnt)
      decreases TotalLen(wordBanners) - SumPos(pos, |wordBanners|)
    {
      minHeap, pos, result, currBIdx, currWCnt := PopOne(wordBanners, minHeap, pos, result, currBIdx, currWCnt);
    }
    ghost var before := result;
    if currBIdx.Some? && currWCnt == |wordBanners| {
      result := result + [currBIdx.value];
    }
    QueryEnd(wordBanners, pos, before, currBIdx, currWCnt, result);
  }

  /** One pass of the heap loop's body: pop the least entry, update the run count, push the successor. */
  method PopOne(wordBanners: seq<seq<int>>, minHeap: seq<HeapEntry>, ghost pos: seq<int>,
                result: seq<int>, currBIdx: Option<int>, currWCnt: int)
    returns (minHeap': seq<HeapEntry>, ghost pos': seq<int>, result': seq<int>, currBIdx': Option<int>, currWCnt': int)
    requires forall w :: 0 <= w < |wordBanners| ==> Increasing(wordBanners[w])
    requires minHeap != [] && HeapPart(wordBanners, pos, minHeap)
    requires ValuePart(wordBanners, pos, result, currBIdx, currWCnt)
    ensures HeapPart(wordBanners, pos', minHeap')
    ensures ValuePart(wordBanners, pos', result', currBIdx', currWCnt')
    ensures SumPos(pos', |wordBanners|) == SumPos(pos, |wordBanners|) + 1
  {
    var m, rest := HeapPop(minHeap);
    ghost var j :| 0 <= j < |minHeap| && m == minHeap[j] && rest == minHeap[..j] + minHeap[j + 1..];
    PopFacts(wordBanners, pos, minHeap, j);
    var bIdx, wIdx, idx := m.0, m.1, m.2;
    result' := result;
    if currBIdx.None? || bIdx != currBIdx.value {
      if currBIdx.Some? && currWCnt == |wordBanners| {
        result' := result + [currBIdx.value];
      }
      currBIdx' := Some(bIdx);
      currWCnt' := 1;
    } else {
      currBIdx' := currBIdx;
      currWCnt' := currWCnt + 1;
    }
    pos' := pos[wIdx := idx + 1];
    if idx + 1 < |wordBanners[wIdx]| {
      minHeap' := rest + [(wordBanners[wIdx][idx + 1], wIdx, idx + 1)];
    } else {
      minHeap' := rest;
    }
    HeapStep(wordBanners, pos, minHeap, j, pos', minHeap');
    ValueStep(wordBanners, pos, result, currBIdx, currWCnt, wIdx, bIdx, pos', result', currBIdx', currWCnt');
  }

  /**
   * `get_banner_indices_by_query`: the ids whose banners hold every word of
   * the normalised query; [] when the query has no word or a word is not indexed.
   */
  method GetBannerIndicesByQuery(query: string, index: map<string, seq<int>>) returns (result: seq<int>)
    requires PostingsValid(index)
    ensures Increasing(result)
    ensures forall b :: b in result <==> MatchesAll(GetWords(Normalize(query)), index, b)
    ensures result == QueryRef(GetWords(Normalize(query)), index)
  {
    var words := GetWords(Normalize(query));
    QueryRefMeaning(words, index);
    if |words| == 0 {
      return [];
    }
    var wordBanners: seq<seq<int>> := [];
    for k := 0 to |words|
      invariant |wordBanners| == k
      invariant forall i :: 0 <= i < k ==> words[i] in index && wordBanners[i] == index[words[i]]
    {
      var w := words[k];
      var wList: seq<int> := if w in index then index[w] else [];
      if wList == [] {
        assert forall b :: !MatchesAll(words, index, b);
        IncreasingUnique([], QueryRef(words, index));
        return [];
      }
      wordBanners := wordBanners + [wList];
    }
    result := Intersect(wordBanners);
    assert forall b :: InAll(wordBanners, b) <==> MatchesAll(words, index, b);
    IncreasingUnique(result, QueryRef(words, index));
  }

  /** Python's `banners[i]`: negative ids count from the end; anything else raises IndexError. */
  function At(banners: seq<string>, i: int): (r: Option<string>)
    ensures 0 <= i < |banners| ==> r == Some(banners[i])
    ensures -|banners| <= i < 0 ==> r == Some(banners[|banners| + i])
    ensures r.None? <==> !(-|banners| <= i < |banners|)
  {
    if 0 <= i < |banners| then Some(banners[i])
    else if -|banners| <= i < 0 then Some(banners[|banners| + i])
    else None
  }

  /** `[banners[i] for i in indices]`, or None when an id is out of range. */
  function Pick(banners: seq<string>, indices: seq<int>): (r: Option<seq<string>>)
    ensures r.Some? <==> forall k :: 0 <= k < |indices| ==> At(banners, indices[k]).Some?
    ensures r.Some? ==> |r.value| == |indices| && forall k :: 0 <= k < |indices| ==> Some(r.value[k]) == At(banners, indices[k])
  {
    if indices == [] then Some([])
    else
      var head := At(banners, indices[0]);
      var tail := Pick(banners, indices[1..]);
      if head.None? || tail.None? then
        assert head.None? ==> !At(banners, indices[0]).Some?;
        assert tail.None? ==> exists k :: 1 <= k < |indices| && At(banners, indices[k]).None?
          by {
            if tail.None? {
              var k :| 0 <= k < |indices[1..]| && At(banners, indices[1..][k]).None?;
              assert indices[k + 1] == indices[1..][k];
            }
          }
        None
      else
        Some([head.value] + tail.value)
  }

  /** `get_banners`: the banners of the query's ids, in id order; None stands for IndexError. */
  method GetBanners(query: string, index: map<string, seq<int>>, banners: seq<string>) returns (r: Option<seq<string>>)
    requires PostingsValid(index)
    ensures r == Pick(banners, QueryRef(GetWords(Normalize(query)), index))
  {
    var indices := GetBannerIndicesByQuery(query, index);
    r := Pick(banners, indices);
  }

  /** On an index built from `banners`, a query finds in order exactly the banners holding every query word. */
  lemma QueryOnBuiltIndex(banners: seq<string>, index: map<string, seq<int>>, query: string)
    requires IndexOf(banners, index)
    ensures Pick(banners, QueryRef(GetWords(Normalize(query)), index)).Some?
    ensures forall b :: b in QueryRef(GetWords(Normalize(query)), index) <==> HoldsAll(banners, GetWords(Normalize(query)), b)
  {
    var words := GetWords(Normalize(query));
    var ids := QueryRef(words, index);
    QueryRefMeaning(words, index);
    forall b ensures MatchesAll(words, index, b) <==> HoldsAll(banners, words, b) {
      MatchesBuilt(banners, index, words, b);
    }
    forall k | 0 <= k < |ids| ensures 0 <= ids[k] < |banners| {
      assert HoldsAll(banners, words, ids[k]);
    }
  }

  /** Banner `b` exists and every query word is among its words. */
  ghost predicate HoldsAll(banners: seq<string>, words: seq<string>, b: int) {
    0 <= b < |banners| && |words| > 0 && forall k :: 0 <= k < |words| ==> words[k] in Words(banners[b])
  }

  lemma MatchesBuilt(banners: seq<string>, index: map<string, seq<int>>, words: seq<string>, b: int)
    requires IndexOf(banners, index)
    ensures MatchesAll(words, index, b) <==> HoldsAll(banners, words, b)
  {
    if MatchesAll(words, index, b) {
      assert ListedUnder(banners, words[0], index[words[0]], |banners|);
      forall k | 0 <= k < |words| ensures 0 <= b < |banners| && words[k] in Words(banners[b]) {
        assert ListedUnder(banners, words[k], index[words[k]], |banners|);
      }
    }
    if HoldsAll(banners, words, b) {
      assert Indexed(banners, index, b);
    }
  }
}
