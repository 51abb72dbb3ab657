/** The call operator of the value-graph tape: its self-describing argument
    run `[n_arg, n_res, atomic_index, call_id, x_0, ..., x_{n_arg-5}]` and its
    evaluation through the atomic-function bridge. */
module CallOp {
  import opened Values
  import opened Runs

  /** Number of header words in front of the true arguments of a call. */
  const NAux: nat := 4

  /** Word +0 of the run: the total argument count, header included; read
      back from a recorded run it is the header plus the true arguments. */
  function NArg(argIndex: nat, argVec: seq<nat>): (r: nat)
    requires argIndex < |argVec|
    ensures forall a, c, n, x :: RunAt(argIndex, argVec, CallRun(a, c, n, x)) ==> r == NAux + |x|
  {
    argVec[argIndex + 0]
  }

  /** Word +1 of the run: the number of results. */
  function NRes(argIndex: nat, argVec: seq<nat>): (r: nat)
    requires argIndex + 1 < |argVec|
    ensures forall a, c, n, x :: RunAt(argIndex, argVec, CallRun(a, c, n, x)) ==> r == n
  {
    argVec[argIndex + 1]
  }

  /** Word +2 of the run: the atomic function's registration index. */
  function AtomicIndex(argIndex: nat, argVec: seq<nat>): (r: nat)
    requires argIndex + 2 < |argVec|
    ensures forall a, c, n, x :: RunAt(argIndex, argVec, CallRun(a, c, n, x)) ==> r == a
  {
    argVec[argIndex + 2]
  }

  /** Word +3 of the run: which configuration of the atomic function is called. */
  function CallId(argIndex: nat, argVec: seq<nat>): (r: nat)
    requires argIndex + 3 < |argVec|
    ensures forall a, c, n, x :: RunAt(argIndex, argVec, CallRun(a, c, n, x)) ==> r == c
  {
    argVec[argIndex + 3]
  }

  /** The run starting at `argIndex` is a complete call run: the header is
      there, counts itself, the whole run fits, and it names a registered
      atomic function (registration indices start at one). */
  predicate HeaderFits(argIndex: nat, argVec: seq<nat>)
  {
    argIndex + NAux <= |argVec| &&
    NAux <= NArg(argIndex, argVec) &&
    argIndex + NArg(argIndex, argVec) <= |argVec| &&
    AtomicIndex(argIndex, argVec) != 0
  }

  /** The value indices of the call's true arguments. */
  function TrueArgs(argIndex: nat, argVec: seq<nat>): seq<nat>
    requires HeaderFits(argIndex, argVec)
  {
    argVec[argIndex + NAux .. argIndex + NArg(argIndex, argVec)]
  }

  /** The run that recording a call appends to the operand array. */
  function CallRun(atomicIndex: nat, callId: nat, nRes: nat, funArg: seq<nat>): seq<nat>
  {
    [NAux + |funArg|, nRes, atomicIndex, callId] + funArg
  }

  /** Reading back a recorded run: wherever the run is placed, the header
      readers return what was recorded and the true arguments are `funArg`. */
  lemma HeaderRoundTrip(prefix: seq<nat>, atomicIndex: nat, callId: nat, nRes: nat, funArg: seq<nat>)
    requires atomicIndex != 0
    ensures var argVec := prefix + CallRun(atomicIndex, callId, nRes, funArg);
            var a := |prefix|;
            HeaderFits(a, argVec) &&
            NArg(a, argVec) == NAux + |funArg| && NRes(a, argVec) == nRes &&
            AtomicIndex(a, argVec) == atomicIndex && CallId(a, argVec) == callId &&
            TrueArgs(a, argVec) == funArg
  {
    var argVec := prefix + CallRun(atomicIndex, callId, nRes, funArg);
    var a := |prefix|;
    assert argVec[a..] == CallRun(atomicIndex, callId, nRes, funArg);
    assert TrueArgs(a, argVec) == argVec[a..][NAux..];
  }

  /** The atomic bridge's zero-order forward entry point:
      `(atomic_index, call_id, type_x, select_y, x) -> y`. */
  type Forward = (nat, nat, seq<AdType>, seq<bool>, seq<Value>) -> seq<Value>

  /** The bridge returns one value per output of `select_y`. */
  ghost predicate ForwardSized(fwd: Forward)
  {
    forall a, c, tx, sy, x :: |fwd(a, c, tx, sy, x)| == |sy|
  }

  /** The bridge does not launder poison: inputs that carry less information
      give outputs that carry less information. */
  ghost predicate ForwardMonotone(fwd: Forward)
  {
    forall a, c, tx, sy, x, x' :: MonotoneAt(fwd, a, c, tx, sy, x, x')
  }

  /** The bridge keeps the information order between the inputs `x` and `x'`. */
  ghost predicate MonotoneAt(fwd: Forward, a: nat, c: nat, tx: seq<AdType>, sy: seq<bool>, x: seq<Value>, x': seq<Value>)
  {
    BelowSeq(x, x') ==> BelowSeq(fwd(a, c, tx, sy, x), fwd(a, c, tx, sy, x'))
  }

  /** `n` arguments all classified as variables. */
  function AllVariable(n: nat): (s: seq<AdType>)
    ensures |s| == n && forall i :: 0 <= i < n ==> s[i] == Variable
  {
    seq(n, _ => Variable)
  }

  /** `m` outputs, all selected. */
  function AllSelected(m: nat): (s: seq<bool>)
    ensures |s| == m && forall i :: 0 <= i < m ==> s[i]
  {
    seq(m, _ => true)
  }

  /** A call whose run starts at `argIndex` and whose results start at
      `resIndex` can be evaluated in a buffer of `nVal` slots: every true
      argument precedes the results, and the results fit. */
  predicate CallFits(argIndex: nat, argVec: seq<nat>, resIndex: nat, nVal: nat)
  {
    HeaderFits(argIndex, argVec) &&
    IndicesBelow(argVec, argIndex + NAux, argIndex + NArg(argIndex, argVec), resIndex) &&
    resIndex + NRes(argIndex, argVec) <= nVal
  }

  /** The call's input vector: the values of its true arguments. */
  function Inputs(argIndex: nat, argVec: seq<nat>, resIndex: nat, vals: seq<Value>): (x: seq<Value>)
    requires CallFits(argIndex, argVec, resIndex, |vals|)
    ensures |x| == NArg(argIndex, argVec) - NAux
    ensures forall i :: 0 <= i < |x| ==> x[i] == vals[argVec[argIndex + NAux + i]]
  {
    Gather(vals, argVec, argIndex + NAux, argIndex + NArg(argIndex, argVec))
  }

  /** The outputs the bridge returns for this call on buffer `vals`: every
      input typed as a variable, every output selected. */
  function Outputs(argIndex: nat, argVec: seq<nat>, resIndex: nat, vals: seq<Value>, fwd: Forward): seq<Value>
    requires CallFits(argIndex, argVec, resIndex, |vals|)
  {
    fwd(AtomicIndex(argIndex, argVec), CallId(argIndex, argVec),
        AllVariable(NArg(argIndex, argVec) - NAux), AllSelected(NRes(argIndex, argVec)),
        Inputs(argIndex, argVec, resIndex, vals))
  }

  /** The buffer after evaluating the call: the result run holds the bridge's
      outputs in order and every other slot is unchanged. */
  function EvalCall(argIndex: nat, argVec: seq<nat>, resIndex: nat, vals: seq<Value>, fwd: Forward): (r: seq<Value>)
    requires CallFits(argIndex, argVec, resIndex, |vals|) && ForwardSized(fwd)
    ensures |r| == |vals|
    ensures forall v :: resIndex <= v < resIndex + NRes(argIndex, argVec) ==>
              r[v] == Outputs(argIndex, argVec, resIndex, vals, fwd)[v - resIndex]
    ensures forall v :: 0 <= v < |vals| && !(resIndex <= v < resIndex + NRes(argIndex, argVec)) ==> r[v] == vals[v]
  {
    Scatter(vals, resIndex, Outputs(argIndex, argVec, resIndex, vals, fwd))
  }

  /** The results of a call depend only on the slots below its result run. */
  lemma EvalCallLocal(argIndex: nat, argVec: seq<nat>, resIndex: nat, v1: seq<Value>, v2: seq<Value>, fwd: Forward)
    requires |v1| == |v2| && CallFits(argIndex, argVec, resIndex, |v1|) && ForwardSized(fwd)
    requires forall v :: 0 <= v < resIndex ==> v1[v] == v2[v]
    ensures var r1 := EvalCall(argIndex, argVec, resIndex, v1, fwd);
            var r2 := EvalCall(argIndex, argVec, resIndex, v2, fwd);
            forall v :: 0 <= v < resIndex + NRes(argIndex, argVec) ==> r1[v] == r2[v]
  {
    GatherLocal(v1, v2, argVec, argIndex + NAux, argIndex + NArg(argIndex, argVec), resIndex);
  }

  /** Evaluating a call on a buffer below another leaves it below the other. */
  lemma EvalCallMonotone(argIndex: nat, argVec: seq<nat>, resIndex: nat, v1: seq<Value>, v2: seq<Value>, fwd: Forward)
    requires |v1| == |v2| && CallFits(argIndex, argVec, resIndex, |v1|)
    requires ForwardSized(fwd) && ForwardMonotone(fwd)
    requires BelowSeq(v1, v2)
    ensures BelowSeq(EvalCall(argIndex, argVec, resIndex, v1, fwd), EvalCall(argIndex, argVec, resIndex, v2, fwd))
  {
    GatherMonotone(v1, v2, argVec, argIndex + NAux, argIndex + NArg(argIndex, argVec));
    var y1 := Outputs(argIndex, argVec, resIndex, v1, fwd);
    var y2 := Outputs(argIndex, argVec, resIndex, v2, fwd);
    assert MonotoneAt(fwd, AtomicIndex(argIndex, argVec), CallId(argIndex, argVec),
                      AllVariable(NArg(argIndex, argVec) - NAux), AllSelected(NRes(argIndex, argVec)),
                      Inputs(argIndex, argVec, resIndex, v1), Inputs(argIndex, argVec, resIndex, v2));
    var r1 := EvalCall(argIndex, argVec, resIndex, v1, fwd);
    var r2 := EvalCall(argIndex, argVec, resIndex, v2, fwd);
    forall v | 0 <= v < |v1|
      ensures Below(r1[v], r2[v])
    {
      if resIndex <= v < resIndex + NRes(argIndex, argVec) {
        assert r1[v] == y1[v - resIndex] && r2[v] == y2[v - resIndex];
      }
    }
  }

  /** The atomic bridge's reverse-dependency entry point:
      `(atomic_index, call_id, con_x, type_x, depend_y) -> depend_x`. */
  type Reverse = (nat, nat, seq<Value>, seq<AdType>, seq<bool>) -> seq<bool>

  /** The bridge returns one flag per argument. */
  ghost predicate ReverseSized(rev: Reverse)
  {
    forall a, c, cx, tx, dy :: |rev(a, c, cx, tx, dy)| == |cx|
  }

  /** `x` carries the known values `cx`: wherever `cx` is not
      not-a-number, `x` holds that value. */
  predicate KnownIn(cx: seq<Value>, x: seq<Value>)
  {
    |x| == |cx| && forall k :: 0 <= k < |cx| && cx[k].Num? ==> x[k] == cx[k]
  }

  /** The two bridges agree: when an input vector `x` carries the known
      values `cx` the reverse bridge was given, any `x'` that agrees with it
      on every argument the reverse bridge says the outputs flagged in `dy`
      depend on gives the same value at every flagged output. The reverse
      bridge may thus use the known values, as `con_x` is meant for. */
  ghost predicate DependencyHonest(fwd: Forward, rev: Reverse)
  {
    forall a, c, cx, tx, dy, ty, sy, x, x' :: HonestAt(fwd, rev, a, c, cx, tx, dy, ty, sy, x, x')
  }

  /** DependencyHonest for one query and one pair of input vectors. */
  ghost predicate HonestAt(fwd: Forward, rev: Reverse, a: nat, c: nat, cx: seq<Value>, tx: seq<AdType>, dy: seq<bool>,
                           ty: seq<AdType>, sy: seq<bool>, x: seq<Value>, x': seq<Value>)
  {
    var dx := rev(a, c, cx, tx, dy);
    var y, y' := fwd(a, c, ty, sy, x), fwd(a, c, ty, sy, x');
    KnownIn(cx, x) && |x'| == |cx| && |dx| == |cx| &&
    (forall k :: 0 <= k < |dx| && dx[k] ==> x[k] == x'[k]) ==>
      forall i :: 0 <= i < |dy| && i < |y| && i < |y'| && dy[i] ==> y[i] == y'[i]
  }

  /** A call's inputs carry the known values of its arguments when the
      buffer carries the known values of the tape. */
  lemma InputsKnown(argIndex: nat, argVec: seq<nat>, resIndex: nat, conVals: seq<Value>, vals: seq<Value>)
    requires CallFits(argIndex, argVec, resIndex, |vals|) && KnownIn(conVals, vals)
    ensures KnownIn(Inputs(argIndex, argVec, resIndex, conVals), Inputs(argIndex, argVec, resIndex, vals))
  {
    var cx, x := Inputs(argIndex, argVec, resIndex, conVals), Inputs(argIndex, argVec, resIndex, vals);
    forall k | 0 <= k < |cx| && cx[k].Num?
      ensures x[k] == cx[k]
    {
      assert argVec[argIndex + NAux + k] < resIndex;
    }
  }

  /** A two-argument selection, `y = x1` unless `x0` is zero, in which case
      `y = 0`; every output selected gives that value. */
  function Pick(x: seq<Value>): Value
  {
    if |x| < 2 || x[0].Nan? then Nan else if x[0] == Num(0) then Num(0) else x[1]
  }

  /** Forward bridge of the selection. */
  function PickForward(a: nat, c: nat, ty: seq<AdType>, sy: seq<bool>, x: seq<Value>): (y: seq<Value>)
    ensures |y| == |sy| && forall i :: 0 <= i < |y| ==> y[i] == Pick(x)
  {
    seq(|sy|, _ => Pick(x))
  }

  /** Reverse bridge of the selection, using the known values: the outputs
      depend on `x0`, and on `x1` only when `x0` is not known to be zero. */
  function PickReverse(a: nat, c: nat, cx: seq<Value>, tx: seq<AdType>, dy: seq<bool>): (dx: seq<bool>)
    ensures |dx| == |cx|
    ensures forall k :: 0 <= k < |dx| ==> (dx[k] <==> k == 0 || (k == 1 && cx[0] != Num(0)))
  {
    seq(|cx|, k requires 0 <= k < |cx| => k == 0 || (k == 1 && cx[0] != Num(0)))
  }

  /** A reverse bridge that drops an argument because of a known constant
      meets DependencyHonest, next to a monotone forward bridge; the same
      flags would be wrong for inputs that do not carry the known zero. */
  lemma PickBridgesHonest()
    ensures ForwardSized(PickForward) && ForwardMonotone(PickForward) && ReverseSized(PickReverse)
    ensures DependencyHonest(PickForward, PickReverse)
    ensures !PickReverse(0, 0, [Num(0), Nan], [Constant, Variable], [true])[1]
    ensures Pick([Num(1), Num(5)]) != Pick([Num(1), Num(6)])
  {
    forall a: nat, c: nat, tx: seq<AdType>, sy: seq<bool>, x: seq<Value>, x': seq<Value>
      ensures MonotoneAt(PickForward, a, c, tx, sy, x, x')
    {
      if BelowSeq(x, x') && |x| >= 2 && !x[0].Nan? {
        assert x[0] == x'[0] && Below(x[1], x'[1]);
      }
    }
    forall a: nat, c: nat, cx: seq<Value>, tx: seq<AdType>, dy: seq<bool>,
           ty: seq<AdType>, sy: seq<bool>, x: seq<Value>, x': seq<Value>
      ensures HonestAt(PickForward, PickReverse, a, c, cx, tx, dy, ty, sy, x, x')
    {
      var dx := PickReverse(a, c, cx, tx, dy);
      if KnownIn(cx, x) && |x'| == |cx| && (forall k :: 0 <= k < |dx| && dx[k] ==> x[k] == x'[k]) && |x| >= 2 {
        assert dx[0] && x[0] == x'[0];
        if !x[0].Nan? && x[0] != Num(0) {
          assert cx[0] != Num(0);
          assert dx[1] && x[1] == x'[1];
        }
      }
    }
  }

  /** Arguments whose known value is not-a-number are variables; the others
      are constants. */
  function TypeX(conX: seq<Value>): (tx: seq<AdType>)
    ensures |tx| == |conX|
    ensures forall i :: 0 <= i < |tx| ==> tx[i] == (if conX[i].Nan? then Variable else Constant)
  {
    seq(|conX|, i requires 0 <= i < |conX| => if conX[i].Nan? then Variable else Constant)
  }

  /** Which true arguments of the call the outputs flagged in `dependY`
      depend on, as the bridge reports it given the arguments' known values
      `conVals` (not-a-number where unknown). */
  function DependX(argIndex: nat, argVec: seq<nat>, resIndex: nat, conVals: seq<Value>,
                   dependY: seq<bool>, rev: Reverse): (dx: seq<bool>)
    requires CallFits(argIndex, argVec, resIndex, |conVals|) && ReverseSized(rev)
    ensures |dx| == NArg(argIndex, argVec) - NAux
  {
    var conX := Inputs(argIndex, argVec, resIndex, conVals);
    rev(AtomicIndex(argIndex, argVec), CallId(argIndex, argVec), conX, TypeX(conX), dependY)
  }

  /** The call's share of a reverse dependency sweep: builds con_x from the
      known values of the true arguments, types each argument as a variable
      when its known value is not-a-number and as a constant otherwise, and
      asks the bridge which arguments the flagged outputs depend on. */
  method RevDependX(argIndex: nat, argVec: seq<nat>, resIndex: nat, conVals: seq<Value>,
                    dependY: seq<bool>, rev: Reverse) returns (dependX: seq<bool>)
    requires CallFits(argIndex, argVec, resIndex, |conVals|) && ReverseSized(rev)
    ensures dependX == DependX(argIndex, argVec, resIndex, conVals, dependY, rev)
  {
    var nX := argVec[argIndex + 0] - NAux;
    var conX: seq<Value> := [];
    var typeX: seq<AdType> := [];
    var i := 0;
    while i < nX
      invariant 0 <= i <= nX
      invariant |conX| == i && |typeX| == i
      invariant forall k :: 0 <= k < i ==> conX[k] == conVals[argVec[argIndex + NAux + k]]
      invariant forall k :: 0 <= k < i ==> typeX[k] == (if conX[k].Nan? then Variable else Constant)
    {
      var c := conVals[argVec[argIndex + NAux + i]];
      conX := conX + [c];
      typeX := typeX + [if c.Nan? then Variable else Constant];
      i := i + 1;
    }
    assert conX == Inputs(argIndex, argVec, resIndex, conVals);
    assert typeX == TypeX(conX);
    dependX := rev(argVec[argIndex + 2], argVec[argIndex + 3], conX, typeX, dependY);
  }

  /** call_op_t::eval: marshal the true arguments into x, type them all as
      variables, select every output, ask the bridge for order zero, and write
      the outputs back into the result run. */
  method Eval(argIndex: nat, argVec: seq<nat>, resIndex: nat, val: array<Value>, fwd: Forward)
    requires CallFits(argIndex, argVec, resIndex, val.Length) && ForwardSized(fwd)
    modifies val
    ensures val[..] == EvalCall(argIndex, argVec, resIndex, old(val[..]), fwd)
  {
    var nArg := argVec[argIndex + 0];
    var nRes := argVec[argIndex + 1];
    var atomicIndex := argVec[argIndex + 2];
    var callId := argVec[argIndex + 3];
    //
    // x
    var x := GatherArgs(val, argVec, argIndex + NAux, argIndex + nArg);
    //
    // type_x
    var typeX: seq<AdType> := [];
    var i := NAux;
    while i < nArg
      invariant NAux <= i <= nArg
      invariant typeX == AllVariable(i - NAux)
    {
      typeX := typeX + [Variable];
      i := i + 1;
    }
    //
    // select_y
    var selectY: seq<bool> := [];
    i := 0;
    while i < nRes
      invariant 0 <= i <= nRes
      invariant selectY == AllSelected(i)
    {
      selectY := selectY + [true];
      i := i + 1;
    }
    //
    // y
    var y := fwd(atomicIndex, callId, typeX, selectY, x);
    //
    // val_vec
    ScatterResults(val, resIndex, y);
  }
}
