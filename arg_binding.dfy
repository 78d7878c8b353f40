/**
 * Binding of call arguments to the parameters of a Python function, after
 * `bind_args`: the parameter names are cut from the code object's
 * `co_varnames`, then successive passes fill the `bound` dictionary and pop
 * from the remaining keyword arguments, raising a TypeError at the first
 * rule that is violated.
 *
 * The values passed are of an arbitrary type `V`; `*args` receives a tuple
 * (`Tuple`) and `**kwargs` a dictionary (`Dict`) of them.
 */
module ArgBinding {
  import opened Wrappers

  /** The `co_flags` bits that mark a `*args` and a `**kwargs` parameter. */
  const CO_VARARGS: bv32 := 4
  const CO_VARKEYWORDS: bv32 := 8

  /** The six reasons a binding fails. */
  datatype BindError =
    | TooManyPosArgs
    | TooManyKwArgs
    | MultValuesForArg
    | MissingPosArgs
    | MissingKwonlyArgs
    | PosonlyPassedAsKw

  /** The description carried by the TypeError raised for each reason. */
  function Message(e: BindError): string {
    match e
    case TooManyPosArgs => "Too many positional arguments"
    case TooManyKwArgs => "Too many keyword arguments"
    case MultValuesForArg => "Multiple values for arguments"
    case MissingPosArgs => "Missing positional arguments"
    case MissingKwonlyArgs => "Missing keyword-only arguments"
    case PosonlyPassedAsKw => "Positional-only argument passed as keyword argument"
  }

  /** Every reason has its own description, so the message tells the reason. */
  lemma MessageDistinct(e1: BindError, e2: BindError)
    ensures Message(e1) == Message(e2) <==> e1 == e2
  {
  }

  /** The fields of a code object that binding reads. */
  datatype Code = Code(
    flags: bv32,
    posonlyArgCount: nat,
    argCount: nat,
    kwonlyArgCount: nat,
    varnames: seq<string>)

  /** A function: its code, `__defaults__` (None read as ()) and `__kwdefaults__` (None read as {}). */
  datatype Function<V> = Function(code: Code, defaults: seq<V>, kwdefaults: map<string, V>)

  /** What a parameter is bound to: a plain value, the `*args` tuple or the `**kwargs` dict. */
  datatype Arg<V> = Value(value: V) | Tuple(items: seq<V>) | Dict(entries: map<string, V>)

  /** The returned `bound` dictionary, or `TypeError(Message(error))`. */
  datatype Outcome<V> = Bound(args: map<string, Arg<V>>) | Raised(error: BindError)

  /** The parameter names, by kind. */
  datatype Params = Params(
    posonly: seq<string>,
    posOrKw: seq<string>,
    kwonly: seq<string>,
    vararg: Option<string>,
    varkw: Option<string>)

  predicate Distinct<T(==)>(s: seq<T>) {
    forall i, j :: 0 <= i < j < |s| ==> s[i] != s[j]
  }

  function Flag(code: Code, bit: bv32): nat {
    if code.flags & bit != 0 then 1 else 0
  }

  /** How many entries of `co_varnames` are parameter names. */
  function Width(code: Code): nat {
    code.argCount + code.kwonlyArgCount + Flag(code, CO_VARARGS) + Flag(code, CO_VARKEYWORDS)
  }

  /**
   * What the interpreter guarantees of a function's code object: the counts
   * fit `co_varnames`, and no parameter name is repeated.
   */
  predicate CodeOk(code: Code) {
    && code.posonlyArgCount <= code.argCount
    && Width(code) <= |code.varnames|
    && Distinct(code.varnames[..Width(code)])
  }

  function Opt(o: Option<string>): seq<string> {
    if o.Some? then [o.value] else []
  }

  /** `all_pos_names`: the positional-only names, then the positional-or-keyword ones. */
  function Pos(p: Params): seq<string> {
    p.posonly + p.posOrKw
  }

  /** Every parameter name, in declaration order. */
  function AllNames(p: Params): seq<string> {
    Pos(p) + p.kwonly + Opt(p.vararg) + Opt(p.varkw)
  }

  predicate Declared(p: Params, k: string) {
    k in Pos(p) || k in p.kwonly || (p.vararg.Some? && k == p.vararg.value) || (p.varkw.Some? && k == p.varkw.value)
  }

  /** The parameter names cut from `co_varnames`. */
  function ParamsOf(code: Code): (p: Params)
    requires CodeOk(code)
    ensures AllNames(p) == code.varnames[..Width(code)]
    ensures |p.posonly| == code.posonlyArgCount
    ensures |Pos(p)| == code.argCount
    ensures |p.kwonly| == code.kwonlyArgCount
    ensures p.vararg.Some? <==> code.flags & CO_VARARGS != 0
    ensures p.varkw.Some? <==> code.flags & CO_VARKEYWORDS != 0
  {
    var names := code.varnames;
    var idx := code.argCount + code.kwonlyArgCount;
    var vararg := if code.flags & CO_VARARGS != 0 then Some(names[idx]) else None;
    var idx' := if vararg.Some? then idx + 1 else idx;
    var varkw := if code.flags & CO_VARKEYWORDS != 0 then Some(names[idx']) else None;
    SliceSplit(names, code.posonlyArgCount, code.argCount, idx, idx', Width(code));
    Params(names[..code.posonlyArgCount], names[code.posonlyArgCount..code.argCount],
           names[code.argCount..idx], vararg, varkw)
  }

  lemma SliceSplit<T>(s: seq<T>, a: nat, b: nat, c: nat, d: nat, e: nat)
    requires a <= b <= c <= d <= e <= |s|
    ensures s[..e] == s[..a] + s[a..b] + s[b..c] + s[c..d] + s[d..e]
  {
  }

  /** The names of the different kinds are pairwise distinct. */
  predicate NamesOk(p: Params) {
    && Distinct(Pos(p))
    && Distinct(p.posOrKw)
    && Distinct(p.kwonly)
    && (forall k :: k in p.posonly ==> k !in p.posOrKw)
    && (forall k :: k in Pos(p) ==> k !in p.kwonly)
    && (p.vararg.Some? ==> p.vararg.value !in Pos(p) && p.vararg.value !in p.kwonly)
    && (p.varkw.Some? ==> p.varkw.value !in Pos(p) && p.varkw.value !in p.kwonly)
    && (p.vararg.Some? && p.varkw.Some? ==> p.vararg.value != p.varkw.value)
  }

  lemma DistinctConcat<T>(a: seq<T>, b: seq<T>)
    requires Distinct(a + b)
    ensures Distinct(a) && Distinct(b)
    ensures forall x :: x in a ==> x !in b
  {
    forall i, j | 0 <= i < j < |a|
      ensures a[i] != a[j]
    {
      assert (a + b)[i] == a[i] && (a + b)[j] == a[j];
    }
    forall i, j | 0 <= i < j < |b|
      ensures b[i] != b[j]
    {
      assert (a + b)[|a| + i] == b[i] && (a + b)[|a| + j] == b[j];
    }
    forall x | x in a
      ensures x !in b
    {
      var i :| 0 <= i < |a| && a[i] == x;
      forall j | 0 <= j < |b|
        ensures b[j] != x
      {
        assert (a + b)[i] == a[i] && (a + b)[|a| + j] == b[j];
      }
    }
  }

  /** The names cut from a well-formed code object are pairwise distinct. */
  lemma ParamsNamesOk(code: Code)
    requires CodeOk(code)
    ensures NamesOk(ParamsOf(code))
  {
    DistinctNamesOk(ParamsOf(code));
  }

  lemma DistinctNamesOk(p: Params)
    requires Distinct(AllNames(p))
    ensures NamesOk(p)
  {
    var pk := Pos(p) + p.kwonly;
    DistinctConcat(pk + Opt(p.vararg), Opt(p.varkw));
    DistinctConcat(pk, Opt(p.vararg));
    DistinctConcat(Pos(p), p.kwonly);
    DistinctConcat(p.posonly, p.posOrKw);
    assert forall k :: k in pk <==> k in Pos(p) || k in p.kwonly;
    assert forall k :: k in Pos(p) <==> k in p.posonly || k in p.posOrKw;
    if p.vararg.Some? {
      assert p.vararg.value in Opt(p.vararg);
    }
    if p.varkw.Some? {
      assert p.varkw.value in Opt(p.varkw);
      assert p.vararg.Some? ==> p.vararg.value in pk + Opt(p.vararg);
    }
  }

  // ---------------------------------------------------------------------------
  // Positional defaults
  // ---------------------------------------------------------------------------

  /** The dict built by assigning `names[j] = values[j]` along `zip(names, values)`. */
  function Zip<V>(names: seq<string>, values: seq<V>): map<string, V>
    decreases |names|
  {
    var n := if |names| < |values| then |names| else |values|;
    if n == 0 then map[] else Zip(names[..n - 1], values[..n - 1])[names[n - 1] := values[n - 1]]
  }

  /** `all_pos_names[-len(defaults):]`, taken only when there are defaults. */
  function DefaultNames(names: seq<string>, k: nat): seq<string> {
    if k == 0 then [] else if k <= |names| then names[|names| - k..] else names
  }

  /** `pos_default_map`. */
  function DefaultsFor<V>(names: seq<string>, defaults: seq<V>): map<string, V> {
    Zip(DefaultNames(names, |defaults|), defaults)
  }

  lemma {:induction false} ZipMeaning<V>(names: seq<string>, values: seq<V>)
    requires Distinct(names)
    ensures var n := if |names| < |values| then |names| else |values|;
      && (forall j :: 0 <= j < n ==> names[j] in Zip(names, values) && Zip(names, values)[names[j]] == values[j])
      && (forall k :: k in Zip(names, values) ==> k in names[..n])
    decreases |names|
  {
    var n := if |names| < |values| then |names| else |values|;
    if n > 0 {
      var names', values' := names[..n - 1], values[..n - 1];
      ZipMeaning(names', values');
      assert names'[..n - 1] == names';
      forall j | 0 <= j < n - 1
        ensures names[j] != names[n - 1]
      {
      }
      assert names[..n] == names' + [names[n - 1]];
    }
  }

  /**
   * The defaults go to the last `len(defaults)` positional names, in order.
   * Should there be more defaults than names, the names take the leading
   * defaults, as `zip` pairs them.
   */
  lemma DefaultsAlign<V>(names: seq<string>, defaults: seq<V>)
    requires Distinct(names)
    ensures var dm, off := DefaultsFor(names, defaults), |names| - |defaults|;
      && (|defaults| <= |names| ==>
            forall i :: 0 <= i < |names| ==>
              && (names[i] in dm <==> off <= i)
              && (off <= i ==> dm[names[i]] == defaults[i - off]))
      && (|defaults| > |names| ==>
            forall i :: 0 <= i < |names| ==> names[i] in dm && dm[names[i]] == defaults[i])
  {
    var tail := DefaultNames(names, |defaults|);
    var off := |names| - |defaults|;
    assert Distinct(tail);
    ZipMeaning(tail, defaults);
    var dm := Zip(tail, defaults);
    if 0 < |defaults| <= |names| {
      assert |tail| == |defaults|;
      assert tail[..|defaults|] == tail;
      forall i | 0 <= i < |names|
        ensures (names[i] in dm <==> off <= i) && (off <= i ==> dm[names[i]] == defaults[i - off])
      {
        if off <= i {
          assert tail[i - off] == names[i];
        } else {
          forall t | 0 <= t < |tail|
            ensures tail[t] != names[i]
          {
            assert tail[t] == names[off + t];
          }
        }
      }
    } else if |defaults| > |names| {
      assert tail == names;
    }
  }

  /** The loop at lines 47-50 that fills `pos_default_map`. */
  method DefaultMap<V>(names: seq<string>, defaults: seq<V>) returns (dm: map<string, V>)
    ensures dm == DefaultsFor(names, defaults)
  {
    dm := map[];
    if |defaults| > 0 {
      var tail := if |defaults| <= |names| then names[|names| - |defaults|..] else names;
      var n := if |tail| < |defaults| then |tail| else |defaults|;
      for j := 0 to n
        invariant dm == Zip(tail[..j], defaults[..j])
      {
        assert tail[..j + 1][..j] == tail[..j] && defaults[..j + 1][..j] == defaults[..j];
        dm := dm[tail[j] := defaults[j]];
      }
      ZipPrefix(tail, defaults);
    }
  }

  /** Only the first min(|names|, |values|) entries of each side take part in `zip`. */
  lemma ZipPrefix<V>(names: seq<string>, values: seq<V>)
    ensures var n := if |names| < |values| then |names| else |values|;
      Zip(names[..n], values[..n]) == Zip(names, values)
  {
    var n := if |names| < |values| then |names| else |values|;
    if n > 0 {
      assert names[..n][..n - 1] == names[..n - 1];
      assert values[..n][..n - 1] == values[..n - 1];
    }
  }

  // ---------------------------------------------------------------------------
  // The binding rules
  // ---------------------------------------------------------------------------

  /** One call: the parameters, `pos_default_map`, the kwdefaults and the arguments. */
  datatype Call<V> = Call(
    p: Params,
    defaults: map<string, V>,
    kwdefaults: map<string, V>,
    args: seq<V>,
    kwargs: map<string, V>)

  function CallOf<V>(func: Function<V>, args: seq<V>, kwargs: map<string, V>): Call<V>
    requires CodeOk(func.code)
  {
    var p := ParamsOf(func.code);
    Call(p, DefaultsFor(Pos(p), func.defaults), func.kwdefaults, args, kwargs)
  }

  /** Positional parameter `i` is positional-or-keyword and a keyword argument names it. */
  predicate ByKeyword<V>(c: Call<V>, i: int)
    requires 0 <= i < |Pos(c.p)|
  {
    |c.p.posonly| <= i && Pos(c.p)[i] in c.kwargs
  }

  /** Positional parameter `i` gets no positional, no keyword and no default value. */
  predicate PosMissing<V>(c: Call<V>, i: int)
    requires 0 <= i < |Pos(c.p)|
  {
    |c.args| <= i && !ByKeyword(c, i) && Pos(c.p)[i] !in c.defaults
  }

  /** The value of positional parameter `i`: its argument, else its keyword, else its default. */
  function PosValue<V>(c: Call<V>, i: int): V
    requires 0 <= i < |Pos(c.p)| && !PosMissing(c, i)
  {
    if i < |c.args| then c.args[i]
    else if ByKeyword(c, i) then c.kwargs[Pos(c.p)[i]]
    else c.defaults[Pos(c.p)[i]]
  }

  predicate KwonlyMissing<V>(c: Call<V>, name: string) {
    name !in c.kwargs && name !in c.kwdefaults
  }

  function KwonlyValue<V>(c: Call<V>, name: string): V
    requires !KwonlyMissing(c, name)
  {
    if name in c.kwargs then c.kwargs[name] else c.kwdefaults[name]
  }

  /** The positional arguments beyond the positional parameters. */
  function Extra<V>(c: Call<V>): seq<V> {
    if |c.args| > |Pos(c.p)| then c.args[|Pos(c.p)|..] else []
  }

  /** The keyword arguments naming no positional-or-keyword and no keyword-only parameter. */
  function Leftover<V>(c: Call<V>): map<string, V> {
    map k | k in c.kwargs && k !in c.p.posOrKw && k !in c.p.kwonly :: c.kwargs[k]
  }

  predicate PosonlyAsKeyword<V>(c: Call<V>) {
    c.p.varkw.None? && exists k :: k in c.kwargs && k in c.p.posonly
  }

  predicate TooManyPositional<V>(c: Call<V>) {
    c.p.vararg.None? && |c.args| > |Pos(c.p)|
  }

  predicate MultValues<V>(c: Call<V>) {
    exists i :: |c.p.posonly| <= i < |Pos(c.p)| && i < |c.args| && Pos(c.p)[i] in c.kwargs
  }

  predicate MissingPositional<V>(c: Call<V>) {
    exists i :: 0 <= i < |Pos(c.p)| && PosMissing(c, i)
  }

  predicate MissingKwonly<V>(c: Call<V>) {
    exists name :: name in c.p.kwonly && KwonlyMissing(c, name)
  }

  predicate TooManyKeywords<V>(c: Call<V>) {
    c.p.varkw.None? && Leftover(c) != map[]
  }

  /** The error raised: the first violated rule, in the order the passes check them. */
  function FirstError<V>(c: Call<V>): Option<BindError> {
    if PosonlyAsKeyword(c) then Some(PosonlyPassedAsKw)
    else if TooManyPositional(c) then Some(TooManyPosArgs)
    else if MultValues(c) then Some(MultValuesForArg)
    else if MissingPositional(c) then Some(MissingPosArgs)
    else if MissingKwonly(c) then Some(MissingKwonlyArgs)
    else if TooManyKeywords(c) then Some(TooManyKwArgs)
    else None
  }

  /** Every entry of `bound` is a declared parameter holding the value the rules give it. */
  ghost predicate Agrees<V>(c: Call<V>, bound: map<string, Arg<V>>) {
    && (forall k :: k in bound ==> Declared(c.p, k))
    && (forall i :: 0 <= i < |Pos(c.p)| && Pos(c.p)[i] in bound ==>
          !PosMissing(c, i) && bound[Pos(c.p)[i]] == Value(PosValue(c, i)))
    && (forall name :: name in c.p.kwonly && name in bound ==>
          !KwonlyMissing(c, name) && bound[name] == Value(KwonlyValue(c, name)))
    && (c.p.vararg.Some? && c.p.vararg.value in bound ==> bound[c.p.vararg.value] == Tuple(Extra(c)))
    && (c.p.varkw.Some? && c.p.varkw.value in bound ==> bound[c.p.varkw.value] == Dict(Leftover(c)))
  }

  /** A successful binding: every declared parameter, and nothing else, with its value. */
  ghost predicate Binds<V>(c: Call<V>, bound: map<string, Arg<V>>) {
    Agrees(c, bound) && forall k :: Declared(c.p, k) ==> k in bound
  }

  // ---------------------------------------------------------------------------
  // Facts about the rules
  // ---------------------------------------------------------------------------

  /** The rules leave no choice: two successful bindings of one call are equal. */
  lemma BindsUnique<V>(c: Call<V>, b1: map<string, Arg<V>>, b2: map<string, Arg<V>>)
    requires Binds(c, b1) && Binds(c, b2)
    ensures b1 == b2
  {
    forall k | k in b1
      ensures k in b2 && b1[k] == b2[k]
    {
      if k in Pos(c.p) {
        var i :| 0 <= i < |Pos(c.p)| && Pos(c.p)[i] == k;
      } else if k in c.p.kwonly {
      } else if c.p.vararg.Some? && k == c.p.vararg.value {
      } else {
      }
    }
  }

  /** Positional argument `i` goes to the `i`-th positional parameter. */
  lemma PositionalInOrder<V>(c: Call<V>, bound: map<string, Arg<V>>, i: int)
    requires Binds(c, bound)
    requires 0 <= i < |c.args| && i < |Pos(c.p)|
    ensures bound[Pos(c.p)[i]] == Value(c.args[i])
  {
    assert Declared(c.p, Pos(c.p)[i]);
  }

  /** With `**kwargs`, a keyword naming a positional-only parameter is collected there. */
  lemma PosonlyCollected<V>(c: Call<V>, bound: map<string, Arg<V>>, k: string)
    requires NamesOk(c.p) && Binds(c, bound)
    requires c.p.varkw.Some? && k in c.kwargs && k in c.p.posonly
    ensures bound[c.p.varkw.value] == Dict(Leftover(c))
    ensures k in Leftover(c) && Leftover(c)[k] == c.kwargs[k]
  {
    assert Declared(c.p, c.p.varkw.value);
    assert k in Pos(c.p);
  }

  // ---------------------------------------------------------------------------
  // The passes
  // ---------------------------------------------------------------------------

  /**
   * Which parameters are bound after the passes have reached `j` positional-or-
   * keyword names, `jk` keyword-only names, `ip` unfilled positionals and `jf`
   * unfilled keyword-only names.
   */
  ghost predicate Progress<V>(c: Call<V>, bound: map<string, Arg<V>>, j: int, jk: int, ip: int, jf: int) {
    && (forall i :: 0 <= i < |Pos(c.p)| ==>
          (Pos(c.p)[i] in bound <==>
             i < ip || i < |c.args| || (|c.p.posonly| <= i < |c.p.posonly| + j && Pos(c.p)[i] in c.kwargs)))
    && (forall l :: 0 <= l < |c.p.kwonly| ==>
          (c.p.kwonly[l] in bound <==> l < jf || (l < jk && c.p.kwonly[l] in c.kwargs)))
    && (c.p.vararg.Some? ==> c.p.vararg.value in bound)
    && (c.p.varkw.Some? ==> c.p.varkw.value !in bound)
  }

  /** `remaining` is `kwargs` without the names in `removed`. */
  ghost predicate Remaining<V>(c: Call<V>, remaining: map<string, V>, removed: seq<string>) {
    && (forall k :: k in remaining <==> k in c.kwargs && k !in removed)
    && (forall k :: k in remaining ==> remaining[k] == c.kwargs[k])
  }

  lemma AgreesPos<V>(c: Call<V>, bound: map<string, Arg<V>>, i: int)
    requires NamesOk(c.p) && Agrees(c, bound)
    requires 0 <= i < |Pos(c.p)| && !PosMissing(c, i)
    ensures Agrees(c, bound[Pos(c.p)[i] := Value(PosValue(c, i))])
  {
  }

  lemma AgreesKwonly<V>(c: Call<V>, bound: map<string, Arg<V>>, name: string)
    requires NamesOk(c.p) && Agrees(c, bound)
    requires name in c.p.kwonly && !KwonlyMissing(c, name)
    ensures Agrees(c, bound[name := Value(KwonlyValue(c, name))])
  {
    assert name !in Pos(c.p);
  }

  /** `posOrKw[j]` is the positional name at `|posonly| + j`, seen at no other index. */
  lemma PosOrKwName(p: Params, j: int)
    requires NamesOk(p) && 0 <= j < |p.posOrKw|
    ensures p.posOrKw[j] == Pos(p)[|p.posonly| + j]
    ensures p.posOrKw[j] !in p.posOrKw[..j]
    ensures p.posOrKw[j] !in p.kwonly
  {
    assert p.posOrKw[j] in Pos(p);
    forall l | 0 <= l < j
      ensures p.posOrKw[..j][l] != p.posOrKw[j]
    {
    }
  }

  /** `kwonly[j]` is no positional name and is seen at no other keyword-only index. */
  lemma KwonlyName(p: Params, j: int)
    requires NamesOk(p) && 0 <= j < |p.kwonly|
    ensures p.kwonly[j] !in p.posOrKw + p.kwonly[..j]
    ensures forall i :: 0 <= i < |Pos(p)| ==> Pos(p)[i] != p.kwonly[j]
  {
    forall l | 0 <= l < |p.posOrKw|
      ensures p.posOrKw[l] != p.kwonly[j]
    {
      assert p.posOrKw[l] in Pos(p);
    }
    forall l | 0 <= l < j
      ensures p.kwonly[..j][l] != p.kwonly[j]
    {
    }
    forall i | 0 <= i < |Pos(p)|
      ensures Pos(p)[i] != p.kwonly[j]
    {
      assert Pos(p)[i] in Pos(p);
      assert p.kwonly[j] in p.kwonly;
    }
  }

  /** The name-keyed check of lines 55-58 and 80-83. */
  method NamesPosonly<V>(remaining: map<string, V>, posonly: seq<string>) returns (found: bool)
    ensures found <==> exists k :: k in remaining && k in posonly
  {
    var keys := remaining.Keys;
    while keys != {}
      invariant keys <= remaining.Keys
      invariant forall k :: k in remaining && k !in keys ==> k !in posonly
      decreases |keys|
    {
      var k :| k in keys;
      if k in posonly {
        return true;
      }
      keys := keys - {k};
    }
    return false;
  }

  /** Lines 63-65: the first `n` positional names take the first `n` arguments. */
  method BindPositional<V>(c: Call<V>, n: int) returns (bound: map<string, Arg<V>>)
    requires NamesOk(c.p)
    requires 0 <= n <= |c.args| && n <= |Pos(c.p)|
    requires n == |c.args| || n == |Pos(c.p)|
    ensures Agrees(c, bound)
    ensures forall i :: 0 <= i < |Pos(c.p)| ==> (Pos(c.p)[i] in bound <==> i < |c.args|)
    ensures forall k :: k in bound ==> k in Pos(c.p)
  {
    var allPos := Pos(c.p);
    bound := map[];
    for i := 0 to n
      invariant Agrees(c, bound)
      invariant forall l :: 0 <= l < |allPos| ==> (allPos[l] in bound <==> l < i)
      invariant forall k :: k in bound ==> k in allPos
    {
      AgreesPos(c, bound, i);
      bound := bound[allPos[i] := Value(c.args[i])];
    }
  }

  /** After lines 63-72 the positionals and `*args` are bound, nothing else. */
  lemma StartKeywords<V>(c: Call<V>, bound: map<string, Arg<V>>)
    requires NamesOk(c.p) && Agrees(c, bound)
    requires forall i :: 0 <= i < |Pos(c.p)| ==> (Pos(c.p)[i] in bound <==> i < |c.args|)
    requires forall k :: k in bound ==> k in Pos(c.p)
    ensures var b := if c.p.vararg.Some? then bound[c.p.vararg.value := Tuple(Extra(c))] else bound;
      Agrees(c, b) && Progress(c, b, 0, 0, 0, 0)
  {
  }

  /** The invariant of the pass at lines 74-78, after `j` names. */
  ghost predicate KeywordsAt<V>(c: Call<V>, bound: map<string, Arg<V>>, remaining: map<string, V>, j: int)
    requires 0 <= j <= |c.p.posOrKw|
  {
    && Agrees(c, bound)
    && Progress(c, bound, j, 0, 0, 0)
    && Remaining(c, remaining, c.p.posOrKw[..j])
    && (forall i :: |c.p.posonly| <= i < |c.p.posonly| + j && i < |c.args| ==> Pos(c.p)[i] !in c.kwargs)
  }

  lemma KeywordClash<V>(c: Call<V>, bound: map<string, Arg<V>>, remaining: map<string, V>, j: int)
    requires NamesOk(c.p) && 0 <= j < |c.p.posOrKw| && KeywordsAt(c, bound, remaining, j)
    requires c.p.posOrKw[j] in remaining && c.p.posOrKw[j] in bound
    ensures MultValues(c)
  {
    PosOrKwName(c.p, j);
    var i := |c.p.posonly| + j;
    assert Pos(c.p)[i] in bound;
  }

  lemma KeywordTaken<V>(c: Call<V>, bound: map<string, Arg<V>>, remaining: map<string, V>, j: int)
    requires NamesOk(c.p) && 0 <= j < |c.p.posOrKw| && KeywordsAt(c, bound, remaining, j)
    requires c.p.posOrKw[j] in remaining && c.p.posOrKw[j] !in bound
    ensures var name := c.p.posOrKw[j];
      KeywordsAt(c, bound[name := Value(remaining[name])], remaining - {name}, j + 1)
  {
    var name := c.p.posOrKw[j];
    var i := |c.p.posonly| + j;
    PosOrKwName(c.p, j);
    assert c.p.posOrKw[..j + 1] == c.p.posOrKw[..j] + [name];
    assert ByKeyword(c, i) && !(i < |c.args|);
    AgreesPos(c, bound, i);
  }

  lemma KeywordAbsent<V>(c: Call<V>, bound: map<string, Arg<V>>, remaining: map<string, V>, j: int)
    requires NamesOk(c.p) && 0 <= j < |c.p.posOrKw| && KeywordsAt(c, bound, remaining, j)
    requires c.p.posOrKw[j] !in remaining
    ensures KeywordsAt(c, bound, remaining, j + 1)
  {
    var name := c.p.posOrKw[j];
    PosOrKwName(c.p, j);
    assert c.p.posOrKw[..j + 1] == c.p.posOrKw[..j] + [name];
    assert name !in c.kwargs;
  }

  /** Lines 74-78: keywords for positional-or-keyword names, refusing one already bound. */
  method BindKeywords<V>(c: Call<V>, bound0: map<string, Arg<V>>)
      returns (bound: map<string, Arg<V>>, remaining: map<string, V>, clash: bool)
    requires NamesOk(c.p) && Agrees(c, bound0) && Progress(c, bound0, 0, 0, 0, 0)
    ensures clash <==> MultValues(c)
    ensures !clash ==> Agrees(c, bound) && Progress(c, bound, |c.p.posOrKw|, 0, 0, 0)
    ensures !clash ==> Remaining(c, remaining, c.p.posOrKw)
  {
    bound, remaining := bound0, c.kwargs;
    for j := 0 to |c.p.posOrKw|
      invariant KeywordsAt(c, bound, remaining, j)
    {
      var name := c.p.posOrKw[j];
      if name in remaining {
        if name in bound {
          KeywordClash(c, bound, remaining, j);
          return bound, remaining, true;
        }
        KeywordTaken(c, bound, remaining, j);
        bound := bound[name := Value(remaining[name])];
        remaining := remaining - {name};
      } else {
        KeywordAbsent(c, bound, remaining, j);
      }
    }
    assert c.p.posOrKw[..|c.p.posOrKw|] == c.p.posOrKw;
    clash := false;
  }

  /** The invariant of the pass at lines 85-87, after `j` names. */
  ghost predicate KwonlyAt<V>(c: Call<V>, bound: map<string, Arg<V>>, remaining: map<string, V>, j: int)
    requires 0 <= j <= |c.p.kwonly|
  {
    && Agrees(c, bound)
    && Progress(c, bound, |c.p.posOrKw|, j, 0, 0)
    && Remaining(c, remaining, c.p.posOrKw + c.p.kwonly[..j])
  }

  lemma KwonlyStep<V>(c: Call<V>, bound: map<string, Arg<V>>, remaining: map<string, V>, j: int)
    requires NamesOk(c.p) && 0 <= j < |c.p.kwonly| && KwonlyAt(c, bound, remaining, j)
    ensures var name := c.p.kwonly[j];
      && (name in remaining ==> KwonlyAt(c, bound[name := Value(remaining[name])], remaining - {name}, j + 1))
      && (name !in remaining ==> KwonlyAt(c, bound, remaining, j + 1))
  {
    var name := c.p.kwonly[j];
    KwonlyName(c.p, j);
    assert c.p.posOrKw + c.p.kwonly[..j + 1] == (c.p.posOrKw + c.p.kwonly[..j]) + [name];
    if name in remaining {
      AgreesKwonly(c, bound, name);
    }
  }

  /** Lines 85-87: keywords for keyword-only names. */
  method BindKwonly<V>(c: Call<V>, bound0: map<string, Arg<V>>, remaining0: map<string, V>)
      returns (bound: map<string, Arg<V>>, remaining: map<string, V>)
    requires NamesOk(c.p) && Agrees(c, bound0) && Progress(c, bound0, |c.p.posOrKw|, 0, 0, 0)
    requires Remaining(c, remaining0, c.p.posOrKw)
    ensures Agrees(c, bound) && Progress(c, bound, |c.p.posOrKw|, |c.p.kwonly|, 0, 0)
    ensures Remaining(c, remaining, c.p.posOrKw + c.p.kwonly)
  {
    bound, remaining := bound0, remaining0;
    var kwonly := c.p.kwonly;
    assert c.p.posOrKw + kwonly[..0] == c.p.posOrKw;
    for j := 0 to |kwonly|
      invariant KwonlyAt(c, bound, remaining, j)
    {
      var name := kwonly[j];
      KwonlyStep(c, bound, remaining, j);
      if name in remaining {
        bound := bound[name := Value(remaining[name])];
        remaining := remaining - {name};
      }
    }
    assert kwonly[..|kwonly|] == kwonly;
  }

  /** Lines 89-94: unfilled positional names take their default, or the call fails. */
  method FillPositional<V>(c: Call<V>, bound0: map<string, Arg<V>>) returns (bound: map<string, Arg<V>>, missing: bool)
    requires NamesOk(c.p) && Agrees(c, bound0) && Progress(c, bound0, |c.p.posOrKw|, |c.p.kwonly|, 0, 0)
    ensures missing <==> MissingPositional(c)
    ensures !missing ==> Agrees(c, bound) && Progress(c, bound, |c.p.posOrKw|, |c.p.kwonly|, |Pos(c.p)|, 0)
  {
    bound := bound0;
    var allPos := Pos(c.p);
    for i := 0 to |allPos|
      invariant Agrees(c, bound) && Progress(c, bound, |c.p.posOrKw|, |c.p.kwonly|, i, 0)
      invariant forall l :: 0 <= l < i ==> !PosMissing(c, l)
    {
      var name := allPos[i];
      if name !in bound {
        if name in c.defaults {
          AgreesPos(c, bound, i);
          bound := bound[name := Value(c.defaults[name])];
        } else {
          assert PosMissing(c, i);
          return bound, true;
        }
      }
    }
    missing := false;
  }

  /** Lines 96-101: unfilled keyword-only names take their kwdefault, or the call fails. */
  method FillKwonly<V>(c: Call<V>, bound0: map<string, Arg<V>>) returns (bound: map<string, Arg<V>>, missing: bool)
    requires NamesOk(c.p) && Agrees(c, bound0)
    requires Progress(c, bound0, |c.p.posOrKw|, |c.p.kwonly|, |Pos(c.p)|, 0)
    ensures missing <==> MissingKwonly(c)
    ensures !missing ==> Agrees(c, bound) && Progress(c, bound, |c.p.posOrKw|, |c.p.kwonly|, |Pos(c.p)|, |c.p.kwonly|)
  {
    bound := bound0;
    var kwonly := c.p.kwonly;
    for j := 0 to |kwonly|
      invariant Agrees(c, bound) && Progress(c, bound, |c.p.posOrKw|, |c.p.kwonly|, |Pos(c.p)|, j)
      invariant forall l :: 0 <= l < j ==> !KwonlyMissing(c, kwonly[l])
    {
      var name := kwonly[j];
      KwonlyName(c.p, j);
      if name !in bound {
        if name in c.kwdefaults {
          AgreesKwonly(c, bound, name);
          bound := bound[name := Value(c.kwdefaults[name])];
        } else {
          assert KwonlyMissing(c, name);
          return bound, true;
        }
      }
    }
    missing := false;
  }

  /** Lines 103-115: with every other parameter bound, `**kwargs` takes the leftover keywords. */
  lemma Finish<V>(c: Call<V>, bound: map<string, Arg<V>>, remaining: map<string, V>)
    requires NamesOk(c.p) && Agrees(c, bound)
    requires Progress(c, bound, |c.p.posOrKw|, |c.p.kwonly|, |Pos(c.p)|, |c.p.kwonly|)
    requires Remaining(c, remaining, c.p.posOrKw + c.p.kwonly)
    ensures remaining == Leftover(c)
    ensures c.p.varkw.Some? ==> Binds(c, bound[c.p.varkw.value := Dict(Leftover(c))])
    ensures c.p.varkw.None? ==> Binds(c, bound)
  {
    forall k | Declared(c.p, k) && !(c.p.varkw.Some? && k == c.p.varkw.value)
      ensures k in bound
    {
      if k in Pos(c.p) {
        var i :| 0 <= i < |Pos(c.p)| && Pos(c.p)[i] == k;
      } else if k in c.p.kwonly {
        var l :| 0 <= l < |c.p.kwonly| && c.p.kwonly[l] == k;
      }
    }
  }

  /** The error `bind_args` raises, given which of the checks in order have failed. */
  lemma ErrorAt<V>(c: Call<V>, e: BindError)
    requires e == PosonlyPassedAsKw ==> PosonlyAsKeyword(c)
    requires e == TooManyPosArgs ==> !PosonlyAsKeyword(c) && TooManyPositional(c)
    requires e == MultValuesForArg ==> !PosonlyAsKeyword(c) && !TooManyPositional(c) && MultValues(c)
    requires e == MissingPosArgs ==>
      !PosonlyAsKeyword(c) && !TooManyPositional(c) && !MultValues(c) && MissingPositional(c)
    requires e == MissingKwonlyArgs ==>
      !PosonlyAsKeyword(c) && !TooManyPositional(c) && !MultValues(c) && !MissingPositional(c) && MissingKwonly(c)
    requires e == TooManyKwArgs ==>
      && !PosonlyAsKeyword(c) && !TooManyPositional(c) && !MultValues(c) && !MissingPositional(c)
      && !MissingKwonly(c) && TooManyKeywords(c)
    ensures FirstError(c) == Some(e)
  {
  }

  /** No check fails, so `bind_args` returns. */
  lemma NoError<V>(c: Call<V>)
    requires !PosonlyAsKeyword(c) && !TooManyPositional(c) && !MultValues(c)
    requires !MissingPositional(c) && !MissingKwonly(c) && !TooManyKeywords(c)
    ensures FirstError(c) == None
  {
  }

  /** `r` is what the rules give for the call `c`: its first error, or its binding. */
  ghost predicate Verdict<V>(c: Call<V>, r: Outcome<V>) {
    && (r.Raised? <==> FirstError(c).Some?)
    && (r.Raised? ==> FirstError(c) == Some(r.error))
    && (r.Bound? ==> Binds(c, r.args))
  }

  /**
   * `bind_args`: the `bound` dict when the call binds, and otherwise the error
   * of the first violated rule. Lines 23-72 are here; the keyword passes
   * follow in `BindKeywordPasses`.
   */
  method BindArgs<V>(func: Function<V>, args: seq<V>, kwargs: map<string, V>) returns (r: Outcome<V>)
    requires CodeOk(func.code)
    ensures Verdict(CallOf(func, args, kwargs), r)
  {
    var p := ParamsOf(func.code);
    ParamsNamesOk(func.code);
    var allPos := Pos(p);
    var posDefaults := DefaultMap(allPos, func.defaults);
    var c := Call(p, posDefaults, func.kwdefaults, args, kwargs);
    assert c == CallOf(func, args, kwargs);

    if p.varkw.None? {
      var found := NamesPosonly(kwargs, p.posonly);
      if found {
        ErrorAt(c, PosonlyPassedAsKw);
        return Raised(PosonlyPassedAsKw);
      }
    }
    if p.vararg.None? && |args| > |allPos| {
      ErrorAt(c, TooManyPosArgs);
      return Raised(TooManyPosArgs);
    }

    var nBindPos := if |args| < |allPos| then |args| else |allPos|;
    var bound := BindPositional(c, nBindPos);
    StartKeywords(c, bound);
    var extraPos := args[nBindPos..];
    if p.vararg.Some? {
      assert extraPos == Extra(c);
      bound := bound[p.vararg.value := Tuple(extraPos)];
    } else {
      assert extraPos == [];
    }
    r := BindKeywordPasses(c, bound);
  }

  /** Lines 74-101 of `bind_args`: the keyword passes and the defaults. */
  method BindKeywordPasses<V>(c: Call<V>, bound0: map<string, Arg<V>>) returns (r: Outcome<V>)
    requires NamesOk(c.p) && !PosonlyAsKeyword(c) && !TooManyPositional(c)
    requires Agrees(c, bound0) && Progress(c, bound0, 0, 0, 0, 0)
    ensures Verdict(c, r)
  {
    var bound, remaining, clash := BindKeywords(c, bound0);
    if clash {
      ErrorAt(c, MultValuesForArg);
      return Raised(MultValuesForArg);
    }
    if c.p.varkw.None? {
      var found := NamesPosonly(remaining, c.p.posonly);
      assert !found;
    }
    bound, remaining := BindKwonly(c, bound, remaining);

    var missing;
    bound, missing := FillPositional(c, bound);
    if missing {
      ErrorAt(c, MissingPosArgs);
      return Raised(MissingPosArgs);
    }
    bound, missing := FillKwonly(c, bound);
    if missing {
      ErrorAt(c, MissingKwonlyArgs);
      return Raised(MissingKwonlyArgs);
    }
    r := CollectLeftover(c, bound, remaining);
  }

  /** Lines 103-115 of `bind_args`: `**kwargs` takes the leftover keywords, or the call fails. */
  method CollectLeftover<V>(c: Call<V>, bound0: map<string, Arg<V>>, remaining: map<string, V>) returns (r: Outcome<V>)
    requires NamesOk(c.p) && Agrees(c, bound0)
    requires !PosonlyAsKeyword(c) && !TooManyPositional(c) && !MultValues(c)
    requires !MissingPositional(c) && !MissingKwonly(c)
    requires Progress(c, bound0, |c.p.posOrKw|, |c.p.kwonly|, |Pos(c.p)|, |c.p.kwonly|)
    requires Remaining(c, remaining, c.p.posOrKw + c.p.kwonly)
    ensures Verdict(c, r)
  {
    var bound := bound0;
    Finish(c, bound, remaining);
    if remaining != map[] {
      if c.p.varkw.Some? {
        bound := bound[c.p.varkw.value := Dict(remaining)];
      } else {
        ErrorAt(c, TooManyKwArgs);
        return Raised(TooManyKwArgs);
      }
    } else if c.p.varkw.Some? && c.p.varkw.value !in bound {
      bound := bound[c.p.varkw.value := Dict(map[])];
    }
    // `*args` was bound by line 69 already, so the default of line 112 never applies.
    assert c.p.vararg.Some? ==> c.p.vararg.value in bound;
    NoError(c);
    return Bound(bound);
  }
}
