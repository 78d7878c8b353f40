/**
 * `count_util`: a `wc`-like counter. Flags such as "-l -m" or "-lLw" select
 * which of characters, lines, longest line and words are reported.
 */
module CountUtil {
  import opened Text
  import opened Wrappers

  /** ASCII `\w`: letters, digits and the underscore. */
  predicate WordChar(c: char) {
    'a' <= c <= 'z' || 'A' <= c <= 'Z' || '0' <= c <= '9' || c == '_'
  }

  /** The end of the run of word characters that starts at `i`. */
  function RunEnd(s: string, i: nat): (j: nat)
    requires i <= |s|
    ensures i <= j <= |s|
    ensures forall k :: i <= k < j ==> WordChar(s[k])
    ensures j == |s| || !WordChar(s[j])
    decreases |s| - i
  {
    if i < |s| && WordChar(s[i]) then RunEnd(s, i + 1) else i
  }

  /**
   * `re.findall(r"-(\w+)", s)` scanning from `i`: a '-' followed by at least
   * one word character matches, greedily; the scan resumes after the match,
   * or one character further when nothing matches.
   */
  function FindGroups(s: string, i: nat): seq<string>
    requires i <= |s|
    decreases |s| - i
  {
    if i == |s| then []
    else if s[i] == '-' && i + 1 < |s| && WordChar(s[i + 1]) then
      var j := RunEnd(s, i + 1);
      [s[i + 1..j]] + FindGroups(s, j)
    else FindGroups(s, i + 1)
  }

  function Concat(groups: seq<string>): string {
    if groups == [] then "" else groups[0] + Concat(groups[1..])
  }

  /** `[c for s in re.findall(r"-(\w+)", flags) for c in s]`. */
  function FlagChars(flags: string): string {
    Concat(FindGroups(flags, 0))
  }

  /** `c` occurs in a run of word characters that directly follows a '-'. */
  ghost predicate Selected(flags: string, c: char) {
    exists i, j :: 0 <= i < j < |flags| && flags[i] == '-' && flags[j] == c
      && forall k :: i < k <= j ==> WordChar(flags[k])
  }

  lemma {:induction false} ConcatMember(groups: seq<string>, c: char)
    ensures c in Concat(groups) <==> exists g :: g in groups && c in g
  {
    if groups != [] {
      ConcatMember(groups[1..], c);
      assert forall g :: g in groups <==> g == groups[0] || g in groups[1..];
    }
  }

  /** Every group found from `i` is a run of word characters right after a '-'. */
  lemma {:induction false} GroupsSound(s: string, i: nat, c: char)
    requires i <= |s|
    ensures (exists g :: g in FindGroups(s, i) && c in g) ==> Selected(s, c)
    decreases |s| - i
  {
    if i < |s| {
      if s[i] == '-' && i + 1 < |s| && WordChar(s[i + 1]) {
        var j := RunEnd(s, i + 1);
        GroupsSound(s, j, c);
        if c in s[i + 1..j] {
          var m :| 0 <= m < |s[i + 1..j]| && s[i + 1..j][m] == c;
          assert s[i + 1 + m] == c;
          assert forall k :: i < k <= i + 1 + m ==> WordChar(s[k]);
        }
      } else {
        GroupsSound(s, i + 1, c);
      }
    }
  }

  /** A run after a '-' at or past the scan position is found by the scan. */
  lemma {:induction false} GroupsComplete(s: string, i: nat, p: nat, j: nat)
    requires i <= p < j < |s| && s[p] == '-'
    requires forall k :: p < k <= j ==> WordChar(s[k])
    ensures exists g :: g in FindGroups(s, i) && s[j] in g
    decreases |s| - i
  {
    if s[i] == '-' && i + 1 < |s| && WordChar(s[i + 1]) {
      var e := RunEnd(s, i + 1);
      if i == p {
        assert j < e;
        var g := s[i + 1..e];
        assert g[j - i - 1] == s[j];
        assert g in FindGroups(s, i);
      } else {
        assert e <= p;
        GroupsComplete(s, e, p, j);
      }
    } else {
      assert i < p;
      GroupsComplete(s, i + 1, p, j);
    }
  }

  /** The flag characters are exactly the characters of runs that follow a '-'. */
  lemma FlagCharsSelected(flags: string, c: char)
    ensures c in FlagChars(flags) <==> Selected(flags, c)
  {
    ConcatMember(FindGroups(flags, 0), c);
    GroupsSound(flags, 0, c);
    if Selected(flags, c) {
      var i, j :| 0 <= i < j < |flags| && flags[i] == '-' && flags[j] == c
        && forall k :: i < k <= j ==> WordChar(flags[k]);
      GroupsComplete(flags, 0, i, j);
    }
  }

  /** `flags = "-mlLw" if not flags else flags`. */
  function EffectiveFlags(flags: Option<string>): string {
    if flags.None? || flags.value == "" then "-mlLw" else flags.value
  }

  /** `text.count(c)`. */
  function CountChar(s: string, c: char): nat {
    if s == [] then 0 else (if s[0] == c then 1 else 0) + CountChar(s[1..], c)
  }

  /** `max(map(len, pieces))`: the length of a longest piece. */
  function LongestLength(pieces: seq<string>): (m: nat)
    requires |pieces| > 0
    ensures exists k :: 0 <= k < |pieces| && |pieces[k]| == m
    ensures forall k :: 0 <= k < |pieces| ==> |pieces[k]| <= m
  {
    if |pieces| == 1 then |pieces[0]|
    else
      var t := LongestLength(pieces[1..]);
      assert forall k :: 1 <= k < |pieces| ==> pieces[k] == pieces[1..][k - 1];
      if |pieces[0]| >= t then |pieces[0]| else t
  }

  /** A string has one more '\n'-separated piece than it has newlines. */
  lemma {:induction false} NewlinesArePieces(s: string)
    ensures CountChar(s, '\n') == |Split(s, '\n')| - 1
  {
    if s != [] {
      NewlinesArePieces(s[1..]);
    }
  }

  function CountUtil(text: string, flags: Option<string> := None): (r: map<string, int>)
    ensures var f := FlagChars(EffectiveFlags(flags));
      && ("chars" in r <==> 'm' in f)
      && ("lines" in r <==> 'l' in f)
      && ("longest_line" in r <==> 'L' in f)
      && ("words" in r <==> 'w' in f)
      && r.Keys <= {"chars", "lines", "longest_line", "words"}
    ensures "chars" in r ==> r["chars"] == |text|
    ensures "lines" in r ==> r["lines"] == |Split(text, '\n')| - 1
    ensures "longest_line" in r ==>
      && (forall k :: 0 <= k < |Split(text, '\n')| ==> |Split(text, '\n')[k]| <= r["longest_line"])
      && (exists k :: 0 <= k < |Split(text, '\n')| && |Split(text, '\n')[k]| == r["longest_line"])
    ensures "words" in r ==> r["words"] == RunStarts(text)
  {
    var f := FlagChars(EffectiveFlags(flags));
    var r0: map<string, int> := map[];
    var r1 := if 'm' in f then r0["chars" := |text|] else r0;
    var r2 := if 'l' in f then r1["lines" := CountChar(text, '\n')] else r1;
    var r3 := if 'L' in f then r2["longest_line" := LongestLength(Split(text, '\n'))] else r2;
    var r4 := if 'w' in f then r3["words" := |SplitWs(text)|] else r3;
    NewlinesArePieces(text);
    WordCount(text);
    r4
  }

  /** Omitting the flags or passing "" selects all four counters. */
  lemma DefaultFlags(text: string)
    ensures CountUtil(text, None) == CountUtil(text, Some(""))
    ensures CountUtil(text, None).Keys == {"chars", "lines", "longest_line", "words"}
  {
    var f := FlagChars("-mlLw");
    var d := "-mlLw";
    assert FindGroups(d, 0) == ["mlLw"] by {
      assert RunEnd(d, 5) == 5;
      assert RunEnd(d, 4) == 5;
      assert RunEnd(d, 3) == 5;
      assert RunEnd(d, 2) == 5;
      assert RunEnd(d, 1) == 5;
      assert d[1..5] == "mlLw";
      assert FindGroups(d, 5) == [];
    }
    assert f == "mlLw";
  }

  /** For empty text the longest line is 0. */
  lemma EmptyTextLongest(flags: Option<string>)
    requires "longest_line" in CountUtil("", flags)
    ensures CountUtil("", flags)["longest_line"] == 0
  {
    assert Split("", '\n') == [""];
  }
}
