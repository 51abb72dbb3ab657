/** The earlier prototype of the value-graph tape: the same arena of
    invocations, operand words and constants, with only add, sub and
    constant loads, no sentinel and no dependent vector. It records and
    evaluates through the storage model of the value-graph tape. */
module ProtoTape {
  import opened Values
  import opened OpKinds
  import ValGraph
  import CallOp

  /** Only add, sub and constant loads are recorded on the prototype. */
  predicate ProtoKind(op: OpKind)
  {
    op.Add? || op.Sub? || op.Con?
  }

  /** The prototype never records a call, so evaluation never reaches the
      atomic bridge; this stand-in answers every request with poison. */
  function NoCall(): (fwd: CallOp.Forward)
    ensures CallOp.ForwardSized(fwd)
  {
    (a: nat, c: nat, tx: seq<AdType>, sy: seq<bool>, x: seq<Value>) => AllNan(|sy|)
  }

  /** A prototype tape (tape_t of the prototype). */
  class Tape {
    var nInd: nat
    var nVal: nat
    var argVec: seq<nat>
    var opVec: seq<ValGraph.OpInfo>
    var conVec: seq<Value>

    /** The storage as a value-graph tape without dependents. */
    function Data(): ValGraph.TapeValue
      reads this
    {
      ValGraph.TapeValue(nInd, nVal, argVec, opVec, conVec, [])
    }

    /** The recorder's invariant, and only prototype kinds recorded. */
    ghost predicate Valid()
      reads this
    {
      ValGraph.Recorded(Data()) &&
      forall j :: 0 <= j < |opVec| ==> ProtoKind(opVec[j].op)
    }

    /** An empty tape. */
    constructor ()
      ensures Data() == ValGraph.TapeValue(0, 0, [], [], [], [])
      ensures Valid()
    {
      nInd, nVal := 0, 0;
      argVec, opVec, conVec := [], [], [];
    }

    /** set_ind: `n` independent values and no invocations; the constant pool
        is emptied and the operand array is kept. */
    method SetInd(n: nat)
      modifies this
      ensures Data() == ValGraph.TapeValue(n, n, old(argVec), [], [], [])
      ensures Valid()
    {
      nInd := n;
      nVal := n;
      opVec := [];
      conVec := [];
    }

    /** next_op: appends an add or sub invocation on the value indices
        `opArg[0]` and `opArg[1]` and returns the index of its result. */
    method NextOp(op: OpKind, opArg: seq<nat>) returns (resIndex: nat)
      requires Valid() && IsBinary(op)
      requires |opArg| >= 2 && opArg[0] < nVal && opArg[1] < nVal
      modifies this
      ensures resIndex == old(nVal) && nVal == old(nVal) + 1
      ensures Data() == ValGraph.Append(old(Data()), op, opArg[..2], [])
      ensures Valid()
    {
      ghost var t0 := Data();
      resIndex := nVal;
      var argIndex := |argVec|;
      opVec := opVec + [ValGraph.OpInfo(argIndex, resIndex, op)];
      var nOpArg := NArg(op, argIndex, argVec);
      var args := argVec;
      var i := 0;
      while i < nOpArg
        invariant 0 <= i <= nOpArg == 2
        invariant args == t0.argVec + opArg[..i]
      {
        args := args + [opArg[i]];
        i := i + 1;
      }
      argVec := args;
      nVal := resIndex + NRes(op, argIndex, argVec);
      assert opArg[..2] == [opArg[0], opArg[1]];
      assert Data() == ValGraph.Append(t0, op, opArg[..2], []);
      ValGraph.AppendBinaryRecorded(t0, op, opArg[0], opArg[1]);
    }

    /** next_con_op: adds `constant` to the pool, appends a constant load of
        it and returns the index of its result. */
    method NextConOp(constant: Value) returns (resIndex: nat)
      requires Valid()
      modifies this
      ensures resIndex == old(nVal) && nVal == old(nVal) + 1
      ensures Data() == ValGraph.Append(old(Data()), Con, [|old(conVec)|], [constant])
      ensures Valid()
    {
      ghost var t0 := Data();
      var nCon := |conVec|;
      conVec := conVec + [constant];
      resIndex := nVal;
      var argIndex := |argVec|;
      opVec := opVec + [ValGraph.OpInfo(argIndex, resIndex, Con)];
      argVec := argVec + [nCon];
      nVal := resIndex + NRes(Con, argIndex, argVec);
      assert Data() == ValGraph.Append(t0, Con, [nCon], [constant]);
      ValGraph.AppendConRecorded(t0, constant);
    }

    /** n_val: the index the next result will get. */
    method NVal() returns (n: nat)
      ensures n == nVal
    {
      n := nVal;
    }

    /** Runs invocation `j` on `val`, in place. */
    method EvalStep(j: nat, val: array<Value>)
      requires Valid() && j < |opVec| && val.Length == nVal
      modifies val
      ensures val[..] == ValGraph.EvalOp(Data(), j, old(val[..]), NoCall())
    {
      ValGraph.ResBounds(Data(), j);
      var o := opVec[j];
      match o.op
      case Add =>
        val[o.resIndex] := Values.Add(val[argVec[o.argIndex]], val[argVec[o.argIndex + 1]]);
      case Sub =>
        val[o.resIndex] := Values.Sub(val[argVec[o.argIndex]], val[argVec[o.argIndex + 1]]);
      case Con =>
        val[o.resIndex] := conVec[argVec[o.argIndex]];
    }

    /** eval: runs every invocation once, in recording order, on `val`. */
    method Eval(val: array<Value>)
      requires Valid() && val.Length == nVal
      modifies val
      ensures val[..] == ValGraph.EvalAll(Data(), old(val[..]), NoCall())
    {
      var nOp := |opVec|;
      var i := 0;
      while i < nOp
        invariant 0 <= i <= nOp
        invariant val[..] == ValGraph.EvalUpTo(Data(), i, old(val[..]), NoCall())
      {
        EvalStep(i, val);
        i := i + 1;
      }
    }
  }
}
