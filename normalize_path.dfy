/** `normalize_path`: Unix path normalisation with a stack of components. */
module NormalizePath {
  import opened Text

  predicate IsAbs(path: string) {
    |path| > 0 && path[0] == '/'
  }

  /** One pass of the loop over the components: what happens to the stack. */
  function Push(stack: seq<string>, p: string, isAbs: bool): seq<string> {
    if p == "" || p == "." then stack
    else if p == ".." then
      if |stack| > 0 && stack[|stack| - 1] != ".." then stack[..|stack| - 1]
      else if !isAbs then stack + [".."]
      else stack
    else stack + [p]
  }

  /** The stack after pushing every part in turn. */
  function Fold(stack: seq<string>, parts: seq<string>, isAbs: bool): seq<string>
    decreases |parts|
  {
    if parts == [] then stack else Fold(Push(stack, parts[0], isAbs), parts[1..], isAbs)
  }

  /** The final `return`: a leading '/' for absolute paths, "." for an empty relative result. */
  function Render(stack: seq<string>, isAbs: bool): string {
    if isAbs then "/" + Join(stack, '/')
    else if stack == [] then "."
    else Join(stack, '/')
  }

  /** The components of the normalised path. */
  function NormalStack(path: string): seq<string> {
    Fold([], Split(path, '/'), IsAbs(path))
  }

  function Normalize(path: string): string {
    Render(NormalStack(path), IsAbs(path))
  }

  /** A component that is kept as it is. */
  predicate Plain(c: string) {
    c != "" && c != "." && c != ".." && '/' !in c
  }

  /**
   * A normal stack: every component is plain or "..", an absolute path has no
   * "..", and ".." occurs only as leading components.
   */
  predicate Canonical(stack: seq<string>, isAbs: bool) {
    && (forall k :: 0 <= k < |stack| ==> stack[k] == ".." || Plain(stack[k]))
    && (isAbs ==> forall k :: 0 <= k < |stack| ==> stack[k] != "..")
    && (forall i, j :: 0 <= i < j < |stack| && stack[j] == ".." ==> stack[i] == "..")
  }

  lemma PushCanonical(stack: seq<string>, p: string, isAbs: bool)
    requires Canonical(stack, isAbs) && '/' !in p
    ensures Canonical(Push(stack, p, isAbs), isAbs)
  {
    var r := Push(stack, p, isAbs);
    if p == ".." && !(|stack| > 0 && stack[|stack| - 1] != "..") && !isAbs {
      forall i, j | 0 <= i < j < |r| && r[j] == ".." ensures r[i] == ".." {
        if j < |stack| {
          assert r[i] == stack[i] && r[j] == stack[j];
        } else {
          assert r[i] == stack[i];
          assert stack[|stack| - 1] == "..";
          assert i == |stack| - 1 || stack[i] == "..";
        }
      }
    } else if p != "" && p != "." && p != ".." {
      forall i, j | 0 <= i < j < |r| && r[j] == ".." ensures r[i] == ".." {
        assert r[i] == stack[i] && r[j] == stack[j];
      }
    } else if p == ".." && |stack| > 0 && stack[|stack| - 1] != ".." {
      forall i, j | 0 <= i < j < |r| && r[j] == ".." ensures r[i] == ".." {
        assert r[i] == stack[i] && r[j] == stack[j];
      }
    }
  }

  lemma {:induction false} FoldCanonical(stack: seq<string>, parts: seq<string>, isAbs: bool)
    requires Canonical(stack, isAbs)
    requires forall k :: 0 <= k < |parts| ==> '/' !in parts[k]
    ensures Canonical(Fold(stack, parts, isAbs), isAbs)
    decreases |parts|
  {
    if parts != [] {
      PushCanonical(stack, parts[0], isAbs);
      FoldCanonical(Push(stack, parts[0], isAbs), parts[1..], isAbs);
    }
  }

  /**
   * The normalised components contain no empty or "." component, no ".." in
   * an absolute path, and ".." only as leading components of a relative one.
   */
  lemma NormalStackCanonical(path: string)
    ensures Canonical(NormalStack(path), IsAbs(path))
  {
    SplitPiecesFree(path, '/');
    FoldCanonical([], Split(path, '/'), IsAbs(path));
  }

  /** Pushing the components of a normal stack onto its own prefix changes nothing. */
  lemma {:induction false} FoldKeepsCanonical(acc: seq<string>, s: seq<string>, isAbs: bool)
    requires Canonical(acc + s, isAbs)
    ensures Fold(acc, s, isAbs) == acc + s
    decreases |s|
  {
    if s != [] {
      var t := acc + s;
      assert t[|acc|] == s[0];
      if s[0] == ".." {
        assert !isAbs;
        if |acc| > 0 {
          assert t[|acc| - 1] == acc[|acc| - 1];
        }
      }
      assert Push(acc, s[0], isAbs) == acc + [s[0]];
      assert acc + [s[0]] + s[1..] == t;
      FoldKeepsCanonical(acc + [s[0]], s[1..], isAbs);
    }
  }

  /** The result starts with '/' exactly when the input does, and is never empty. */
  lemma LeadingSlash(path: string)
    ensures |Normalize(path)| > 0
    ensures Normalize(path)[0] == '/' <==> IsAbs(path)
  {
    var s := NormalStack(path);
    NormalStackCanonical(path);
    if !IsAbs(path) && s != [] {
      assert Plain(s[0]) || s[0] == "..";
      if |s| > 1 {
        assert Join(s, '/') == s[0] + ['/'] + Join(s[1..], '/');
      }
      assert Join(s, '/')[0] == s[0][0];
    }
  }

  lemma SplitDot()
    ensures Split(".", '/') == ["."]
  {
    var s := ".";
    var t := Split(s[1..], '/');
    assert t == [""];
    assert Split(s, '/') == [[s[0]] + t[0]] + t[1..];
    assert [s[0]] + t[0] == ".";
  }

  lemma RenderRootRoundTrip()
    ensures NormalStack("/") == []
  {
    var r := "/";
    var t := Split(r[1..], '/');
    assert t == [""];
    assert Split(r, '/') == ["", ""];
  }

  lemma RenderAbsRoundTrip(s: seq<string>)
    requires Canonical(s, true) && s != []
    ensures NormalStack(Render(s, true)) == s
  {
    var r := Render(s, true);
    assert forall k :: 0 <= k < |s| ==> '/' !in s[k];
    SplitJoin(s, '/');
    assert r[0] == '/' && r[1..] == Join(s, '/');
    assert Split(r, '/') == [""] + s;
    FoldKeepsCanonical([], s, true);
    assert ([""] + s)[1..] == s;
  }

  lemma RenderRelRoundTrip(s: seq<string>)
    requires Canonical(s, false) && s != []
    ensures NormalStack(Render(s, false)) == s
  {
    var r := Render(s, false);
    assert forall k :: 0 <= k < |s| ==> '/' !in s[k];
    SplitJoin(s, '/');
    if |s| > 1 {
      assert Join(s, '/') == s[0] + ['/'] + Join(s[1..], '/');
    }
    assert r[0] == s[0][0];
    FoldKeepsCanonical([], s, false);
  }

  /** Normalising twice is the same as normalising once. */
  lemma Idempotent(path: string)
    ensures Normalize(Normalize(path)) == Normalize(path)
  {
    var s := NormalStack(path);
    var abs := IsAbs(path);
    NormalStackCanonical(path);
    LeadingSlash(path);
    if abs && s == [] {
      RenderRootRoundTrip();
    } else if abs {
      RenderAbsRoundTrip(s);
    } else if s == [] {
      SplitDot();
    } else {
      RenderRelRoundTrip(s);
    }
  }

  /** The loop of the source over `path.split('/')`. */
  method NormalizePathLoop(path: string) returns (r: string)
    ensures r == Normalize(path)
    ensures |r| > 0 && (r[0] == '/' <==> IsAbs(path))
  {
    var isAbs := |path| > 0 && path[0] == '/';
    var parts := Split(path, '/');
    var stack: seq<string> := [];
    var i := 0;
    while i < |parts|
      invariant 0 <= i <= |parts|
      invariant Fold(stack, parts[i..], isAbs) == NormalStack(path)
    {
      assert parts[i..][1..] == parts[i + 1..];
      var p := parts[i];
      if p == "" || p == "." {
        i := i + 1;
        continue;
      }
      if p == ".." {
        if |stack| > 0 && stack[|stack| - 1] != ".." {
          stack := stack[..|stack| - 1];
        } else {
          if !isAbs {
            stack := stack + [".."];
          }
        }
      } else {
        stack := stack + [p];
      }
      i := i + 1;
    }
    if isAbs {
      r := "/" + Join(stack, '/');
    } else {
      r := if |stack| > 0 then Join(stack, '/') else ".";
    }
    LeadingSlash(path);
  }
}
