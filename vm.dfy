// A stack-machine frame interpreter for a small subset of Python bytecode:
// an operand stack, three-scope name lookup, and the handlers the frame has,
// run over the instruction list in order.

module Vm {
  import opened Wrappers

  /** The values the machine moves around; callables are abstract, identified by number. */
  datatype Value = NoneValue | IntValue(i: int) | StrValue(s: string) | Callable(id: nat)

  /** One decoded instruction per handler of the frame; any other opcode name has no handler. */
  datatype Instr =
    | Resume(arg: int)
    | PushNull
    | Precall(argc: int)
    | Call(argc: int)
    | LoadName(name: string)
    | LoadGlobal(name: string)
    | LoadConst(value: Value)
    | ReturnValue
    | ReturnConst(value: Value)
    | PopTop
    | StoreName(name: string)
    | Unknown(opname: string)

  /** The exceptions the handlers raise. */
  datatype Error = IndexError | NameError(name: string) | KeyError(name: string) | TypeError | AttributeError(opname: string)

  /** Either a value or the exception raised while computing it. */
  datatype Outcome<T> = Ok(value: T) | Raised(error: Error)

  /** What a frame can observe: its stack, its two scopes and its return value. */
  datatype State = State(stack: seq<Value>, locals: map<string, Value>, globals: map<string, Value>, ret: Value)

  /**
   * What a frame cannot change: the builtins, the meaning of each callable,
   * and whether `locals` and `globals` are one and the same dictionary.
   */
  datatype Env = Env(builtins: map<string, Value>, apply: (nat, seq<Value>) -> Value, shared: bool)

  // ---------------------------------------------------------------- the stack

  function Push(st: State, values: seq<Value>): State {
    st.(stack := st.stack + values)
  }

  /**
   * `popn(n)`: the stack that remains and the values removed, deepest first.
   * Nothing is lost; n <= 0 removes nothing; more than the depth removes all.
   */
  function PopN(s: seq<Value>, n: int): (r: (seq<Value>, seq<Value>))
    ensures r.0 + r.1 == s
    ensures n <= 0 ==> r.1 == []
    ensures 0 < n <= |s| ==> |r.1| == n
    ensures n >= |s| ==> r.0 == []
  {
    if n <= 0 then (s, [])
    else
      var k := if n < |s| then n else |s|;
      (s[..|s| - k], s[|s| - k..])
  }

  // ---------------------------------------------------------------- the handlers

  /** The first of locals, globals and builtins that binds `name`. */
  function Resolve(st: State, env: Env, name: string): Option<Value> {
    if name in st.locals then Some(st.locals[name])
    else if name in st.globals then Some(st.globals[name])
    else if name in env.builtins then Some(env.builtins[name])
    else None
  }

  /**
   * `call_op`: pop the arguments, the marker below them and the callable
   * below that, then push the result. When the stack runs out the pops
   * already done stay done.
   */
  function CallEffect(st: State, argc: int, env: Env): (State, Option<Error>) {
    var (rest, args) := PopN(st.stack, argc);
    if |rest| < 2 then (st.(stack := []), Some(IndexError))
    else
      var f := rest[|rest| - 2];
      var below := rest[..|rest| - 2];
      if f.Callable? then (st.(stack := below + [env.apply(f.id, args)]), None)
      else (st.(stack := below), Some(TypeError))
  }

  /** The state after one instruction, and the exception it raises, if any. */
  function Transition(st: State, instr: Instr, env: Env): (State, Option<Error>) {
    match instr
    case Resume(_) => (st, None)
    case Precall(_) => (st, None)
    case PushNull => (Push(st, [NoneValue]), None)
    case Call(argc) => CallEffect(st, argc, env)
    case LoadName(name) =>
      var found := Resolve(st, env, name);
      if found.Some? then (Push(st, [found.value]), None) else (st, Some(NameError(name)))
    case LoadGlobal(name) =>
      if name in env.builtins then (Push(st, [env.builtins[name], NoneValue]), None)
      else (st, Some(KeyError(name)))
    case LoadConst(v) => (Push(st, [v]), None)
    case ReturnValue =>
      if st.stack == [] then (st, Some(IndexError))
      else (st.(stack := st.stack[..|st.stack| - 1], ret := st.stack[|st.stack| - 1]), None)
    case ReturnConst(v) => (st.(ret := v), None)
    case PopTop =>
      if st.stack == [] then (st, Some(IndexError))
      else (st.(stack := st.stack[..|st.stack| - 1]), None)
    case StoreName(name) =>
      if st.stack == [] then (st, Some(IndexError))
      else
        var v := st.stack[|st.stack| - 1];
        var globals := if env.shared then st.globals[name := v] else st.globals;
        (st.(stack := st.stack[..|st.stack| - 1], locals := st.locals[name := v], globals := globals), None)
    case Unknown(opname) => (st, Some(AttributeError(opname)))
  }

  /** `run`: the instructions in list order, stopping at the first exception. */
  function Exec(st: State, code: seq<Instr>, env: Env): (State, Option<Error>)
    decreases |code|
  {
    if code == [] then (st, None)
    else
      var before := Exec(st, code[..|code| - 1], env);
      if before.1.Some? then before else Transition(before.0, code[|code| - 1], env)
  }

  /** What `run` hands back: the return value, or the exception. */
  function Result(r: (State, Option<Error>)): Outcome<Value> {
    if r.1.Some? then Raised(r.1.value) else Ok(r.0.ret)
  }

  // ---------------------------------------------------------------- properties of the handlers

  /** `load_name` takes the binding from the first scope that has one, else raises NameError and changes nothing. */
  lemma LoadNameLookup(st: State, env: Env, name: string)
    ensures var r := Transition(st, LoadName(name), env);
      && (r.1.None? <==> name in st.locals || name in st.globals || name in env.builtins)
      && (r.1.Some? ==> r == (st, Some(NameError(name))))
      && (name in st.locals ==> r.0.stack == st.stack + [st.locals[name]])
      && (name !in st.locals && name in st.globals ==> r.0.stack == st.stack + [st.globals[name]])
      && (name !in st.locals && name !in st.globals && name in env.builtins ==> r.0.stack == st.stack + [env.builtins[name]])
      && r.0.locals == st.locals && r.0.globals == st.globals && r.0.ret == st.ret
  {
  }

  /** `load_global` pushes the builtin and then None: two more values, all below untouched. */
  lemma LoadGlobalDepth(st: State, env: Env, name: string)
    ensures var r := Transition(st, LoadGlobal(name), env);
      && (name in env.builtins ==>
            && r.1.None? && |r.0.stack| == |st.stack| + 2 && r.0.stack[..|st.stack|] == st.stack
            && r.0.stack[|st.stack|] == env.builtins[name] && r.0.stack[|st.stack| + 1] == NoneValue)
      && (name !in env.builtins ==> r == (st, Some(KeyError(name))))
  {
    var r := Transition(st, LoadGlobal(name), env);
    if name in env.builtins {
      assert r.0.stack[..|st.stack|] == st.stack;
    }
  }

  /** `store_name` moves the top of the stack into `locals[name]`; no other binding changes. */
  lemma StoreNameEffect(st: State, env: Env, name: string)
    requires st.stack != []
    ensures var r := Transition(st, StoreName(name), env);
      && r.1.None? && |r.0.stack| == |st.stack| - 1 && r.0.stack == st.stack[..|r.0.stack|]
      && r.0.locals[name] == st.stack[|st.stack| - 1]
      && (forall other :: other != name ==> (other in r.0.locals <==> other in st.locals))
      && (forall other :: other != name && other in st.locals ==> r.0.locals[other] == st.locals[other])
      && (!env.shared ==> r.0.globals == st.globals)
      && r.0.ret == st.ret
  {
  }

  /**
   * `call` with `argc` arguments under a callable and a marker replaces those
   * argc + 2 values by the one result: a net change of -(argc + 1).
   */
  lemma CallDepth(st: State, env: Env, argc: int)
    requires 0 <= argc && argc + 2 <= |st.stack|
    requires st.stack[|st.stack| - argc - 2].Callable?
    ensures var r := Transition(st, Call(argc), env);
      var n := |st.stack|;
      && r.1.None? && |r.0.stack| == n - (argc + 1)
      && r.0.stack[..n - argc - 2] == st.stack[..n - argc - 2]
      && r.0.stack[n - argc - 2] == env.apply(st.stack[n - argc - 2].id, st.stack[n - argc..])
      && r.0.locals == st.locals && r.0.globals == st.globals
  {
    var n := |st.stack|;
    var (rest, args) := PopN(st.stack, argc);
    assert rest == st.stack[..n - argc] && args == st.stack[n - argc..];
    assert rest[..|rest| - 2] == st.stack[..n - argc - 2];
  }

  /** Calling with too few values on the stack raises IndexError; calling a non-callable raises TypeError. */
  lemma CallErrors(st: State, env: Env, argc: int)
    ensures var n, k := |st.stack|, if argc <= 0 then 0 else if argc < |st.stack| then argc else |st.stack|;
      var r := Transition(st, Call(argc), env);
      && (n - k < 2 ==> r.1 == Some(IndexError))
      && (n - k >= 2 && !st.stack[n - k - 2].Callable? ==> r.1 == Some(TypeError))
      && (n - k >= 2 && st.stack[n - k - 2].Callable? ==> r.1.None?)
  {
    var n := |st.stack|;
    var k := if argc <= 0 then 0 else if argc < n then argc else n;
    assert PopN(st.stack, argc).0 == st.stack[..n - k];
  }

  /** `return_const` sets the return value and touches nothing else, the stack included. */
  lemma ReturnConstKeepsStack(st: State, env: Env, v: Value)
    ensures Transition(st, ReturnConst(v), env) == (st.(ret := v), None)
  {
  }

  // ---------------------------------------------------------------- properties of run

  predicate SetsReturn(instr: Instr) {
    instr.ReturnValue? || instr.ReturnConst?
  }

  /** Running `a + b` runs `a`, then, unless it raised, `b` from where `a` left off. */
  lemma {:induction false} ExecAppend(st: State, a: seq<Instr>, b: seq<Instr>, env: Env)
    ensures var ra := Exec(st, a, env);
      Exec(st, a + b, env) == if ra.1.Some? then ra else Exec(ra.0, b, env)
    decreases |b|
  {
    if b == [] {
      assert a + b == a;
    } else {
      var b' := b[..|b| - 1];
      assert (a + b)[..|a + b| - 1] == a + b';
      ExecAppend(st, a, b', env);
      var ra := Exec(st, a, env);
      if ra.1.None? {
        assert b[..|b| - 1] == b';
      }
    }
  }

  /** Without `return_value` or `return_const` the return value stays what it was: None for a new frame. */
  lemma {:induction false} ExecNoReturn(st: State, code: seq<Instr>, env: Env)
    requires forall i :: 0 <= i < |code| ==> !SetsReturn(code[i])
    ensures Exec(st, code, env).0.ret == st.ret
    decreases |code|
  {
    if code != [] {
      var init := code[..|code| - 1];
      assert forall i :: 0 <= i < |init| ==> init[i] == code[i];
      ExecNoReturn(st, init, env);
      var before := Exec(st, init, env);
      if before.1.None? {
        TransitionKeepsReturn(before.0, code[|code| - 1], env);
      }
    }
  }

  /** An instruction other than `return_value` and `return_const` leaves the return value alone. */
  lemma TransitionKeepsReturn(st: State, instr: Instr, env: Env)
    requires !SetsReturn(instr)
    ensures Transition(st, instr, env).0.ret == st.ret
  {
    match instr
    case Call(argc) =>
      var r := CallEffect(st, argc, env);
      assert r.0.ret == st.ret;
    case _ =>
  }

  /** The value a frame returns is the one set by the last `return_const` when nothing after it sets one. */
  lemma ReturnConstLast(st: State, pre: seq<Instr>, v: Value, post: seq<Instr>, env: Env)
    requires forall i :: 0 <= i < |post| ==> !SetsReturn(post[i])
    requires Exec(st, pre, env).1.None?
    ensures Exec(st, pre + [ReturnConst(v)] + post, env).0.ret == v
  {
    var mid := Exec(st, pre, env).0;
    ExecAppend(st, pre, [ReturnConst(v)], env);
    assert Exec(mid, [ReturnConst(v)], env) == (mid.(ret := v), None) by {
      assert [ReturnConst(v)][..0] == [];
    }
    ExecAppend(st, pre + [ReturnConst(v)], post, env);
    ExecNoReturn(mid.(ret := v), post, env);
  }

  /** One instruction keeps a shared dictionary shared. */
  lemma TransitionShared(st: State, instr: Instr, env: Env)
    requires env.shared && st.locals == st.globals
    ensures var r := Transition(st, instr, env); r.0.locals == r.0.globals
  {
    match instr
    case Call(argc) =>
      var r := CallEffect(st, argc, env);
      assert r.0.locals == st.locals && r.0.globals == st.globals;
    case _ =>
  }

  /** A one-instruction program is that instruction's transition. */
  lemma ExecOne(st: State, instr: Instr, env: Env)
    ensures Exec(st, [instr], env) == Transition(st, instr, env)
  {
    assert [instr][..0] == [];
  }

  /** `return_value` on a non-empty stack raises nothing and sets the return value to the popped top. */
  lemma ReturnValuePops(st: State, env: Env) returns (after: State)
    requires st.stack != []
    ensures Transition(st, ReturnValue, env) == (after, None)
    ensures after.ret == st.stack[|st.stack| - 1]
  {
    after := Transition(st, ReturnValue, env).0;
  }

  /**
   * The value a frame returns is the one popped by the last `return_value`
   * when nothing after it sets one.
   */
  lemma ReturnValueLast(st: State, pre: seq<Instr>, post: seq<Instr>, env: Env)
    requires forall i :: 0 <= i < |post| ==> !SetsReturn(post[i])
    requires Exec(st, pre, env).1.None? && Exec(st, pre, env).0.stack != []
    ensures var s := Exec(st, pre, env).0;
      Exec(st, pre + [ReturnValue] + post, env).0.ret == s.stack[|s.stack| - 1]
  {
    var mid := Exec(st, pre, env).0;
    ExecAppend(st, pre, [ReturnValue], env);
    ExecOne(mid, ReturnValue, env);
    var after := ReturnValuePops(mid, env);
    ExecAppend(st, pre + [ReturnValue], post, env);
    ExecNoReturn(after, post, env);
  }

  /**
   * For a new frame, a run that raises nothing returns the value popped by
   * the last `return_value`.
   */
  lemma RunReturnsPopped(pre: seq<Instr>, post: seq<Instr>, env: Env)
    requires forall i :: 0 <= i < |post| ==> !SetsReturn(post[i])
    requires var s := Exec(State([], map[], map[], NoneValue), pre, env); s.1.None? && s.0.stack != []
    ensures var start := State([], map[], map[], NoneValue);
      var s := Exec(start, pre, env).0;
      var r := Exec(start, pre + [ReturnValue] + post, env);
      r.1.None? ==> Result(r) == Ok(s.stack[|s.stack| - 1])
  {
    ReturnValueLast(State([], map[], map[], NoneValue), pre, post, env);
  }

  /** When locals and globals are one dictionary, they stay one dictionary. */
  lemma {:induction false} ExecShared(st: State, code: seq<Instr>, env: Env)
    requires env.shared && st.locals == st.globals
    ensures var r := Exec(st, code, env); r.0.locals == r.0.globals
    decreases |code|
  {
    if code != [] {
      var init := code[..|code| - 1];
      ExecShared(st, init, env);
      var before := Exec(st, init, env);
      if before.1.None? {
        TransitionShared(before.0, code[|code| - 1], env);
      }
    }
  }

  /** With shared scopes, a stored name is visible through either scope and loads back the stored value. */
  lemma StoreThenLoad(st: State, env: Env, name: string)
    requires env.shared && st.locals == st.globals && st.stack != []
    ensures var r := Exec(st, [StoreName(name), LoadName(name)], env);
      && r.1.None? && r.0.stack == st.stack
      && name in r.0.locals && r.0.locals[name] == st.stack[|st.stack| - 1]
      && name in r.0.globals && r.0.globals[name] == st.stack[|st.stack| - 1]
  {
    var code := [StoreName(name), LoadName(name)];
    var s1 := Transition(st, StoreName(name), env);
    assert code[..1] == [StoreName(name)] && code[..1][..0] == [];
    assert Exec(st, code[..1], env) == s1;
    assert Exec(st, code, env) == Transition(s1.0, LoadName(name), env);
    assert st.stack[..|st.stack| - 1] + [st.stack[|st.stack| - 1]] == st.stack;
  }

  // ---------------------------------------------------------------- the frame

  /** A dictionary of names; two frames' scopes may be the same object. */
  class Scope {
    var vars: map<string, Value>

    constructor(vars: map<string, Value>)
      ensures this.vars == vars
    {
      this.vars := vars;
    }
  }

  class Frame {
    const code: seq<Instr>
    const builtins: map<string, Value>
    const globals: Scope
    const locals: Scope
    const apply: (nat, seq<Value>) -> Value
    var dataStack: seq<Value>
    var returnValue: Value

    constructor(code: seq<Instr>, builtins: map<string, Value>, globals: Scope, locals: Scope, apply: (nat, seq<Value>) -> Value)
      ensures this.code == code && this.builtins == builtins && this.globals == globals && this.locals == locals
      ensures this.apply == apply && dataStack == [] && returnValue == NoneValue
    {
      this.code := code;
      this.builtins := builtins;
      this.globals := globals;
      this.locals := locals;
      this.apply := apply;
      dataStack := [];
      returnValue := NoneValue;
    }

    function Context(): Env {
      Env(builtins, apply, locals == globals)
    }

    /** The frame's observable state. */
    function St(): State
      reads this, locals, globals
    {
      State(dataStack, locals.vars, globals.vars, returnValue)
    }

    /** `top`: the last value pushed, or IndexError on an empty stack. */
    function Top(): (r: Outcome<Value>)
      reads this
      ensures r.Raised? <==> dataStack == []
      ensures r.Ok? ==> r.value == dataStack[|dataStack| - 1] && r.value in dataStack
    {
      if dataStack == [] then Raised(IndexError) else Ok(dataStack[|dataStack| - 1])
    }

    method Pop() returns (r: Outcome<Value>)
      modifies this`dataStack
      ensures old(dataStack) == [] ==> r == Raised(IndexError) && dataStack == old(dataStack)
      ensures old(dataStack) != [] ==> r == Ok(old(dataStack)[|old(dataStack)| - 1])
      ensures old(dataStack) != [] ==> dataStack + [r.value] == old(dataStack)
    {
      if dataStack == [] {
        return Raised(IndexError);
      }
      r := Ok(dataStack[|dataStack| - 1]);
      dataStack := dataStack[..|dataStack| - 1];
    }

    /** `push(*values)`: the values on top, in argument order. */
    method Push(values: seq<Value>)
      modifies this`dataStack
      ensures dataStack == old(dataStack) + values
    {
      dataStack := dataStack + values;
    }

    method Popn(n: int) returns (r: seq<Value>)
      modifies this`dataStack
      ensures (dataStack, r) == PopN(old(dataStack), n)
    {
      if n > 0 {
        var k := if n < |dataStack| then n else |dataStack|;
        r := dataStack[|dataStack| - k..];
        dataStack := dataStack[..|dataStack| - k];
      } else {
        r := [];
      }
    }

    method CallOp(arg: int) returns (err: Option<Error>)
      modifies this`dataStack
      ensures (St(), err) == Transition(old(St()), Call(arg), Context())
    {
      var arguments := Popn(arg);
      ghost var rest := dataStack;
      var marker := Pop();
      if marker.Raised? {
        return Some(marker.error);
      }
      var f := Pop();
      if f.Raised? {
        return Some(f.error);
      }
      assert dataStack == rest[..|rest| - 2] && f.value == rest[|rest| - 2];
      if !f.value.Callable? {
        return Some(TypeError);
      }
      Push([apply(f.value.id, arguments)]);
      err := None;
    }

    method LoadNameOp(arg: string) returns (err: Option<Error>)
      modifies this`dataStack
      ensures (St(), err) == Transition(old(St()), LoadName(arg), Context())
    {
      err := None;
      if arg in locals.vars {
        Push([locals.vars[arg]]);
      } else if arg in globals.vars {
        Push([globals.vars[arg]]);
      } else if arg in builtins {
        Push([builtins[arg]]);
      } else {
        err := Some(NameError(arg));
      }
    }

    method LoadGlobalOp(arg: string) returns (err: Option<Error>)
      modifies this`dataStack
      ensures (St(), err) == Transition(old(St()), LoadGlobal(arg), Context())
    {
      if arg !in builtins {
        return Some(KeyError(arg));
      }
      Push([builtins[arg]]);
      Push([NoneValue]);
      assert dataStack == old(dataStack) + [builtins[arg], NoneValue];
      err := None;
    }

    method ReturnValueOp() returns (err: Option<Error>)
      modifies this`dataStack, this`returnValue
      ensures (St(), err) == Transition(old(St()), ReturnValue, Context())
    {
      var v := Pop();
      if v.Raised? {
        return Some(v.error);
      }
      returnValue := v.value;
      err := None;
    }

    method PopTopOp() returns (err: Option<Error>)
      modifies this`dataStack
      ensures (St(), err) == Transition(old(St()), PopTop, Context())
    {
      var v := Pop();
      err := if v.Raised? then Some(v.error) else None;
    }

    method StoreNameOp(arg: string) returns (err: Option<Error>)
      modifies this`dataStack, locals`vars
      ensures (St(), err) == Transition(old(St()), StoreName(arg), Context())
    {
      var v := Pop();
      if v.Raised? {
        return Some(v.error);
      }
      locals.vars := locals.vars[arg := v.value];
      err := None;
    }

    /** One instruction, dispatched to its handler by name. */
    method Step(instr: Instr) returns (err: Option<Error>)
      modifies this`dataStack, this`returnValue, locals`vars
      ensures (St(), err) == Transition(old(St()), instr, Context())
    {
      match instr
      case Resume(_) => err := None;
      case Precall(_) => err := None;
      case PushNull =>
        Push([NoneValue]);
        err := None;
      case Call(argc) => err := CallOp(argc);
      case LoadName(name) => err := LoadNameOp(name);
      case LoadGlobal(name) => err := LoadGlobalOp(name);
      case LoadConst(v) =>
        Push([v]);
        err := None;
      case ReturnValue => err := ReturnValueOp();
      case ReturnConst(v) =>
        returnValue := v;
        err := None;
      case PopTop => err := PopTopOp();
      case StoreName(name) => err := StoreNameOp(name);
      case Unknown(opname) => err := Some(AttributeError(opname));
    }

    /** `run`: every instruction in order, then the return value; an exception ends the run. */
    method Run() returns (r: Outcome<Value>)
      modifies this`dataStack, this`returnValue, locals`vars
      ensures var e := Exec(old(St()), code, Context()); St() == e.0 && r == Result(e)
    {
      ghost var st0 := St();
      for i := 0 to |code|
        invariant Exec(st0, code[..i], Context()) == (St(), None)
      {
        var err := Step(code[i]);
        assert code[..i + 1][..i] == code[..i];
        if err.Some? {
          r := Raised(err.value);
          assert Exec(st0, code[..i + 1], Context()).1 == err;
          ExecStops(st0, code[..i + 1], code[i + 1..], Context());
          assert code[..i + 1] + code[i + 1..] == code;
          return;
        }
      }
      assert code[..|code|] == code;
      r := Ok(returnValue);
    }
  }

  /** Once a run has raised, later instructions change nothing. */
  lemma ExecStops(st: State, a: seq<Instr>, b: seq<Instr>, env: Env)
    requires Exec(st, a, env).1.Some?
    ensures Exec(st, a + b, env) == Exec(st, a, env)
  {
    ExecAppend(st, a, b, env);
  }

  /**
   * `VirtualMachine.run`: a root frame whose globals and locals are one new
   * empty dictionary, run to completion.
   */
  method RunModule(code: seq<Instr>, builtins: map<string, Value>, apply: (nat, seq<Value>) -> Value)
    returns (r: Outcome<Value>)
    ensures r == Result(Exec(State([], map[], map[], NoneValue), code, Env(builtins, apply, true)))
  {
    var globalsContext := new Scope(map[]);
    var frame := new Frame(code, builtins, globalsContext, globalsContext, apply);
    r := frame.Run();
  }
}
