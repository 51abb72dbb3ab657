/** The prototype's function-call operator: a run
    `[n_arg, n_res, function_id, x_0, ..., x_{n_arg-4}]` with a three-word
    header, evaluated by handing the argument values to the registered
    function `function_id` and writing its results into the result run. */
module FunOp {
  import opened Values
  import opened Runs

  /** Number of header words in front of the function's arguments. */
  const NHeader: nat := 3

  /** Word +0 of the run: the total argument count, header included; read
      back from a recorded run it is the header plus the true arguments. */
  function NArg(argIndex: nat, argVec: seq<nat>): (r: nat)
    requires argIndex < |argVec|
    ensures forall id, n, x :: RunAt(argIndex, argVec, FunRun(id, n, x)) ==> r == NHeader + |x|
  {
    argVec[argIndex + 0]
  }

  /** Word +1 of the run: the number of results. */
  function NRes(argIndex: nat, argVec: seq<nat>): (r: nat)
    requires argIndex + 1 < |argVec|
    ensures forall id, n, x :: RunAt(argIndex, argVec, FunRun(id, n, x)) ==> r == n
  {
    argVec[argIndex + 1]
  }

  /** Word +2 of the run: which registered function is called. */
  function FunctionId(argIndex: nat, argVec: seq<nat>): (r: nat)
    requires argIndex + 2 < |argVec|
    ensures forall id, n, x :: RunAt(argIndex, argVec, FunRun(id, n, x)) ==> r == id
  {
    argVec[argIndex + 2]
  }

  /** The run starting at `argIndex` is a complete function-call run: the
      header is there, counts itself, and the whole run fits. */
  predicate HeaderFits(argIndex: nat, argVec: seq<nat>)
  {
    argIndex + NHeader <= |argVec| &&
    NHeader <= NArg(argIndex, argVec) &&
    argIndex + NArg(argIndex, argVec) <= |argVec|
  }

  /** A function-call run for `funArg`, as a recorder lays it out. */
  function FunRun(functionId: nat, nRes: nat, funArg: seq<nat>): seq<nat>
  {
    [NHeader + |funArg|, nRes, functionId] + funArg
  }

  /** The header readers return what the run holds in words +0, +1 and +2,
      and the arguments follow the three header words. */
  lemma FunRunRoundTrip(prefix: seq<nat>, functionId: nat, nRes: nat, funArg: seq<nat>)
    ensures var argVec := prefix + FunRun(functionId, nRes, funArg);
            var a := |prefix|;
            HeaderFits(a, argVec) &&
            NArg(a, argVec) == NHeader + |funArg| && NRes(a, argVec) == nRes &&
            FunctionId(a, argVec) == functionId &&
            argVec[a + NHeader .. a + NArg(a, argVec)] == funArg
  {
    var argVec := prefix + FunRun(functionId, nRes, funArg);
    var a := |prefix|;
    assert argVec[a..] == FunRun(functionId, nRes, funArg);
    assert argVec[a + NHeader .. a + NArg(a, argVec)] == argVec[a..][NHeader..];
  }

  /** A registered function's forward entry point:
      `(function_id, x, n_res) -> y`. */
  type CallFun = (nat, seq<Value>, nat) -> seq<Value>

  /** The function fills the `n_res` outputs it is given room for. */
  ghost predicate CallFunSized(f: CallFun)
  {
    forall id, x, m :: |f(id, x, m)| == m
  }

  /** The call can be evaluated in a buffer of `nVal` slots: its argument
      indices and its result run are inside the buffer. */
  predicate FunFits(argIndex: nat, argVec: seq<nat>, resIndex: nat, nVal: nat)
  {
    HeaderFits(argIndex, argVec) &&
    IndicesBelow(argVec, argIndex + NHeader, argIndex + NArg(argIndex, argVec), nVal) &&
    resIndex + NRes(argIndex, argVec) <= nVal
  }

  /** The function's input vector: x[i] is the value named by word +3+i. */
  function FunInputs(argIndex: nat, argVec: seq<nat>, vals: seq<Value>): (x: seq<Value>)
    requires HeaderFits(argIndex, argVec)
    requires IndicesBelow(argVec, argIndex + NHeader, argIndex + NArg(argIndex, argVec), |vals|)
    ensures |x| == NArg(argIndex, argVec) - NHeader
    ensures forall i :: 0 <= i < |x| ==> x[i] == vals[argVec[argIndex + NHeader + i]]
  {
    Gather(vals, argVec, argIndex + NHeader, argIndex + NArg(argIndex, argVec))
  }

  /** The buffer after the call: the result run holds the function's
      outputs, in order, and every other slot is unchanged. */
  function EvalFun(argIndex: nat, argVec: seq<nat>, resIndex: nat, vals: seq<Value>, f: CallFun): (r: seq<Value>)
    requires FunFits(argIndex, argVec, resIndex, |vals|) && CallFunSized(f)
    ensures |r| == |vals|
    ensures var y := f(FunctionId(argIndex, argVec), FunInputs(argIndex, argVec, vals), NRes(argIndex, argVec));
            forall i :: 0 <= i < NRes(argIndex, argVec) ==> r[resIndex + i] == y[i]
    ensures forall v :: 0 <= v < |vals| && !(resIndex <= v < resIndex + NRes(argIndex, argVec)) ==> r[v] == vals[v]
  {
    Scatter(vals, resIndex, f(FunctionId(argIndex, argVec), FunInputs(argIndex, argVec, vals), NRes(argIndex, argVec)))
  }

  /** The results of the call depend only on the slots its arguments name:
      two buffers that agree there get the same result run. */
  lemma EvalFunLocal(argIndex: nat, argVec: seq<nat>, resIndex: nat, v1: seq<Value>, v2: seq<Value>, f: CallFun)
    requires |v1| == |v2| && FunFits(argIndex, argVec, resIndex, |v1|) && CallFunSized(f)
    requires forall p :: argIndex + NHeader <= p < argIndex + NArg(argIndex, argVec) ==> v1[argVec[p]] == v2[argVec[p]]
    ensures forall v :: resIndex <= v < resIndex + NRes(argIndex, argVec) ==>
              EvalFun(argIndex, argVec, resIndex, v1, f)[v] == EvalFun(argIndex, argVec, resIndex, v2, f)[v]
  {
    var x1 := FunInputs(argIndex, argVec, v1);
    var x2 := FunInputs(argIndex, argVec, v2);
    assert x1 == x2 by {
      forall i | 0 <= i < |x1|
        ensures x1[i] == x2[i]
      {
        assert x1[i] == v1[argVec[argIndex + NHeader + i]];
      }
    }
    forall v | resIndex <= v < resIndex + NRes(argIndex, argVec)
      ensures EvalFun(argIndex, argVec, resIndex, v1, f)[v] == EvalFun(argIndex, argVec, resIndex, v2, f)[v]
    {
      assert EvalFun(argIndex, argVec, resIndex, v1, f)[resIndex + (v - resIndex)]
          == EvalFun(argIndex, argVec, resIndex, v2, f)[resIndex + (v - resIndex)];
    }
  }

  /** eval_fun_op: builds x from the argument values, asks function
      `function_id` for its `n_res` outputs and writes them into the result
      run, in place. */
  method EvalFunOp(argIndex: nat, argVec: seq<nat>, resIndex: nat, val: array<Value>, f: CallFun)
    requires FunFits(argIndex, argVec, resIndex, val.Length) && CallFunSized(f)
    modifies val
    ensures val[..] == EvalFun(argIndex, argVec, resIndex, old(val[..]), f)
  {
    var nArg := argVec[argIndex + 0];
    var nRes := argVec[argIndex + 1];
    var functionId := argVec[argIndex + 2];
    //
    // x
    var x := GatherArgs(val, argVec, argIndex + NHeader, argIndex + nArg);
    //
    // y
    var y := f(functionId, x, nRes);
    //
    // val_vec
    ScatterResults(val, resIndex, y);
  }
}
