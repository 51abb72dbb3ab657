/** The operator kinds of the value-graph tape and their arities: how many
    operand words an invocation's run holds, how many results it produces,
    and which operand words are value indices. Fixed-arity kinds answer from
    their kind alone; a call reads its own header. */
module OpKinds {
  import CallOp
  import opened Runs

  /** add and sub are binary, con loads a constant-pool entry, comp compares
      two values and produces nothing, call invokes an atomic function. */
  datatype OpKind = Add | Sub | Con | Comp | Call

  /** The comparison tag meaning "no comparison" (compare_no_enum). */
  const CompareNo: nat := 4

  /** add and sub: two value operands, one result. */
  predicate IsBinary(op: OpKind)
  {
    op.Add? || op.Sub?
  }

  /** Operand words in front of the value operands: con's pool index, comp's
      compare tag, call's four header words. */
  function NBefore(op: OpKind): (r: nat)
  {
    match op
    case Con => 1
    case Comp => 1
    case Call => CallOp.NAux
    case _ => 0
  }

  /** Operand words after the value operands: none for any kind. */
  function NAfter(op: OpKind): (r: nat)
    ensures r == 0
  {
    0
  }

  /** A call's header is inside the operand array. */
  predicate HeaderIn(op: OpKind, argIndex: nat, argVec: seq<nat>)
  {
    op.Call? ==> argIndex + CallOp.NAux <= |argVec|
  }

  /** Number of operand words of an invocation whose run starts at `argIndex`. */
  function NArg(op: OpKind, argIndex: nat, argVec: seq<nat>): (r: nat)
    requires HeaderIn(op, argIndex, argVec)
    ensures !op.Call? ==> r == NBefore(op) + (if op.Con? then 0 else 2) + NAfter(op)
    ensures op.Call? ==> forall a, c, n, x :: RunAt(argIndex, argVec, CallOp.CallRun(a, c, n, x)) ==> r == CallOp.NAux + |x|
  {
    match op
    case Add => 2
    case Sub => 2
    case Con => 1
    case Comp => 3
    case Call => CallOp.NArg(argIndex, argVec)
  }

  /** Number of results of an invocation whose run starts at `argIndex`. */
  function NRes(op: OpKind, argIndex: nat, argVec: seq<nat>): (r: nat)
    requires HeaderIn(op, argIndex, argVec)
    ensures !op.Call? ==> (r == 0 <==> op.Comp?) && r <= 1
    ensures op.Call? ==> forall a, c, n, x :: RunAt(argIndex, argVec, CallOp.CallRun(a, c, n, x)) ==> r == n
  {
    match op
    case Add => 1
    case Sub => 1
    case Con => 1
    case Comp => 0
    case Call => CallOp.NRes(argIndex, argVec)
  }

  /** Where the value operands sit in a run: after a call's four header
      words, after con's pool index or comp's tag, right at the start for
      add and sub; no kind has words after them, so for a fixed-arity kind
      `n_arg - n_before - n_after` counts its value operands. */
  lemma OperandWords(op: OpKind, argIndex: nat, argVec: seq<nat>)
    requires HeaderIn(op, argIndex, argVec)
    ensures op.Call? ==> NBefore(op) == CallOp.NAux
    ensures !op.Call? ==> NBefore(op) <= 1 && (NBefore(op) == 0 <==> IsBinary(op))
    ensures NAfter(op) == 0
    ensures !op.Call? ==> NBefore(op) + NAfter(op) <= NArg(op, argIndex, argVec)
  {
  }

  /** Arities read through a longer operand array are unchanged. */
  lemma ArityExtend(op: OpKind, argIndex: nat, argVec: seq<nat>, more: seq<nat>)
    requires HeaderIn(op, argIndex, argVec)
    ensures HeaderIn(op, argIndex, argVec + more)
    ensures NArg(op, argIndex, argVec + more) == NArg(op, argIndex, argVec)
    ensures NRes(op, argIndex, argVec + more) == NRes(op, argIndex, argVec)
  {
  }
}
