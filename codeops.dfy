/**
 * `count_operations`: a histogram of opcode names over a code object and,
 * recursively, every code object found as an instruction argument.
 * A `collections.Counter` is a multiset of names.
 */
module CodeOps {
  datatype Code = Code(instructions: seq<Instruction>)
  datatype Instruction = Instruction(opname: string, argval: Arg)
  /** An instruction argument: a nested code object or any other value. */
  datatype Arg = NestedCode(code: Code) | OtherArg

  /** The counts `count_operations` produces for a list of instructions. */
  function Counts(instrs: seq<Instruction>): multiset<string>
    decreases instrs
  {
    if instrs == [] then multiset{} else InstructionCounts(instrs[0]) + Counts(instrs[1..])
  }

  /** One instruction adds 1 to its own opname, plus the counts of a nested code object. */
  function InstructionCounts(ins: Instruction): multiset<string>
    decreases ins
  {
    multiset{ins.opname} + (match ins.argval case NestedCode(c) => Counts(c.instructions) case OtherArg => multiset{})
  }

  /** The number of instructions in the whole code tree. */
  function TreeSize(instrs: seq<Instruction>): nat
    decreases instrs
  {
    if instrs == [] then 0
    else 1 + (match instrs[0].argval case NestedCode(c) => TreeSize(c.instructions) case OtherArg => 0)
         + TreeSize(instrs[1..])
  }

  predicate Flat(instrs: seq<Instruction>) {
    forall i :: 0 <= i < |instrs| ==> instrs[i].argval == OtherArg
  }

  function Opnames(instrs: seq<Instruction>): seq<string> {
    seq(|instrs|, i requires 0 <= i < |instrs| => instrs[i].opname)
  }

  lemma CountsSplit(instrs: seq<Instruction>, j: int)
    requires 0 <= j < |instrs|
    ensures Counts(instrs[j..]) == InstructionCounts(instrs[j]) + Counts(instrs[j + 1..])
  {
    assert instrs[j..][1..] == instrs[j + 1..];
  }

  /** The counts add up to the number of instructions in the code tree. */
  lemma {:induction false} Total(instrs: seq<Instruction>)
    ensures |Counts(instrs)| == TreeSize(instrs)
    decreases instrs
  {
    if instrs != [] {
      Total(instrs[1..]);
      if instrs[0].argval.NestedCode? {
        Total(instrs[0].argval.code.instructions);
      }
    }
  }

  /** Without nested code objects the result is the plain histogram of opnames. */
  lemma {:induction false} FlatHistogram(instrs: seq<Instruction>)
    requires Flat(instrs)
    ensures Counts(instrs) == multiset(Opnames(instrs))
    decreases instrs
  {
    if instrs != [] {
      FlatHistogram(instrs[1..]);
      assert Opnames(instrs) == [instrs[0].opname] + Opnames(instrs[1..]);
    }
  }

  /** Every opname of the top-level code occurs in the result. */
  lemma {:induction false} TopLevelCounted(instrs: seq<Instruction>, i: int)
    requires 0 <= i < |instrs|
    ensures instrs[i].opname in Counts(instrs)
    decreases i
  {
    if i > 0 {
      TopLevelCounted(instrs[1..], i - 1);
    }
  }

  /** `count_operations`: the loop over the instructions, recursing into nested code. */
  method CountOperations(code: Code) returns (ops: multiset<string>)
    ensures ops == Counts(code.instructions)
    ensures |ops| == TreeSize(code.instructions)
    decreases code
  {
    var instrs := code.instructions;
    ops := multiset{};
    for i := 0 to |instrs|
      invariant ops + Counts(instrs[i..]) == Counts(instrs)
    {
      CountsSplit(instrs, i);
      var cur := instrs[i];
      ops := ops[cur.opname := ops[cur.opname] + 1];
      if cur.argval.NestedCode? {
        var inner := CountOperations(cur.argval.code);
        ops := ops + inner;
      }
    }
    assert instrs[|instrs|..] == [];
    Total(instrs);
  }
}
