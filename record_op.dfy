/** The value-graph tape: an append-only SSA arena of operator invocations.
    `TapeValue` is a snapshot of the tape's storage; `WellFormed` states the
    arena's invariants; `EvalAll` is what evaluating the tape computes; class
    `Tape` is the recorder that builds a tape in place. */
module ValGraph {
  import opened Values
  import opened Runs
  import opened OpKinds
  import CallOp

  /** One invocation: where its operand run starts in the operand array, where
      its results start in the value buffer, and its kind. */
  datatype OpInfo = OpInfo(argIndex: nat, resIndex: nat, op: OpKind)

  /** The storage of a tape: independent count, next free value index,
      operand array, invocations, constant pool and dependent indices. */
  datatype TapeValue = TapeValue(
    nInd: nat,
    nVal: nat,
    argVec: seq<nat>,
    opVec: seq<OpInfo>,
    conVec: seq<Value>,
    depVec: seq<nat>)

  // ---------------------------------------------------------------------
  // Per-invocation geometry

  /** A call invocation carries a complete header. */
  predicate HeaderOk(t: TapeValue, j: nat)
    requires j < |t.opVec|
  {
    var o := t.opVec[j];
    o.op.Call? ==> CallOp.HeaderFits(o.argIndex, t.argVec)
  }

  /** Number of operand words of invocation `j`. */
  function ArgCount(t: TapeValue, j: nat): nat
    requires j < |t.opVec| && HeaderOk(t, j)
  {
    var o := t.opVec[j];
    NArg(o.op, o.argIndex, t.argVec)
  }

  /** Number of results of invocation `j`. */
  function ResCount(t: TapeValue, j: nat): nat
    requires j < |t.opVec| && HeaderOk(t, j)
  {
    var o := t.opVec[j];
    NRes(o.op, o.argIndex, t.argVec)
  }

  /** One past the last operand word of invocation `j`. */
  function ArgEnd(t: TapeValue, j: nat): nat
    requires j < |t.opVec| && HeaderOk(t, j)
  {
    t.opVec[j].argIndex + ArgCount(t, j)
  }

  /** One past the last result of invocation `j`. */
  function ResEnd(t: TapeValue, j: nat): nat
    requires j < |t.opVec| && HeaderOk(t, j)
  {
    t.opVec[j].resIndex + ResCount(t, j)
  }

  /** Position of the first operand word of `j` that is a value index. */
  function FirstOperand(t: TapeValue, j: nat): nat
    requires j < |t.opVec|
  {
    t.opVec[j].argIndex + NBefore(t.opVec[j].op)
  }

  /** One past the position of the last operand word of `j` that is a value index. */
  function LastOperand(t: TapeValue, j: nat): nat
    requires j < |t.opVec| && HeaderOk(t, j)
  {
    ArgEnd(t, j) - NAfter(t.opVec[j].op)
  }

  /** Invocation `j` is sound: its run is inside the operand array, every
      value operand precedes its own results (no forward reference), and a
      constant load names an entry of the constant pool. */
  ghost predicate OpFits(t: TapeValue, j: nat)
    requires j < |t.opVec|
  {
    HeaderOk(t, j) &&
    ArgEnd(t, j) <= |t.argVec| &&
    FirstOperand(t, j) <= LastOperand(t, j) &&
    IndicesBelow(t.argVec, FirstOperand(t, j), LastOperand(t, j), t.opVec[j].resIndex) &&
    (t.opVec[j].op.Con? ==> t.argVec[t.opVec[j].argIndex] < |t.conVec|)
  }

  /** Invocation `j + 1` starts exactly where the runs of `j` end. */
  ghost predicate Chained(t: TapeValue, j: nat)
    requires j + 1 < |t.opVec|
  {
    HeaderOk(t, j) &&
    t.opVec[j + 1].resIndex == ResEnd(t, j) &&
    t.opVec[j + 1].argIndex == ArgEnd(t, j)
  }

  /** The runs of the last invocation end at `nVal` and at the end of the operand array. */
  ghost predicate Closes(t: TapeValue)
    requires |t.opVec| > 0
  {
    var last := |t.opVec| - 1;
    HeaderOk(t, last) && ResEnd(t, last) == t.nVal && ArgEnd(t, last) == |t.argVec|
  }

  /** The invariant every recorder keeps: result runs tile `[nInd, nVal)`,
      operand runs tile the operand array from the first invocation's run on,
      every invocation is sound and every dependent is below `nVal`. */
  ghost predicate Recorded(t: TapeValue)
  {
    (forall j :: 0 <= j < |t.opVec| ==> OpFits(t, j)) &&
    (forall j :: 0 <= j < |t.opVec| - 1 ==> Chained(t, j)) &&
    t.nInd <= t.nVal &&
    (if |t.opVec| == 0 then t.nVal == t.nInd else t.opVec[0].resIndex == t.nInd && Closes(t)) &&
    (forall k :: 0 <= k < |t.depVec| ==> t.depVec[k] < t.nVal)
  }

  /** Invocation 0 loads the not-a-number sentinel, pool entry 0, into slot `nInd`. */
  ghost predicate SentinelFirst(t: TapeValue)
  {
    |t.opVec| > 0 &&
    t.opVec[0].resIndex == t.nInd && t.opVec[0].op == Con &&
    t.opVec[0].argIndex < |t.argVec| && t.argVec[t.opVec[0].argIndex] == 0 &&
    |t.conVec| > 0 && t.conVec[0].Nan?
  }

  /** A tape as set_ind and the recorders leave it. */
  ghost predicate WellFormed(t: TapeValue)
  {
    Recorded(t) && SentinelFirst(t)
  }

  // ---------------------------------------------------------------------
  // Consequences of the tiling

  /** Earlier invocations' runs end before later invocations' runs begin. */
  lemma {:induction false} ResOrder(t: TapeValue, j: nat, k: nat)
    requires Recorded(t) && j < k < |t.opVec|
    ensures HeaderOk(t, j)
    ensures ResEnd(t, j) <= t.opVec[k].resIndex && ArgEnd(t, j) <= t.opVec[k].argIndex
    decreases k - j
  {
    assert OpFits(t, j) && Chained(t, j);
    if j + 1 < k {
      assert OpFits(t, j + 1);
      ResOrder(t, j + 1, k);
    }
  }

  /** Every invocation of a recorded tape carries a complete header. */
  lemma HeaderAt(t: TapeValue, j: nat)
    requires Recorded(t) && j < |t.opVec|
    ensures HeaderOk(t, j)
  {
    assert OpFits(t, j);
  }

  /** Every invocation's results lie in `[nInd, nVal)` and its run in the operand array. */
  lemma ResBounds(t: TapeValue, j: nat)
    requires Recorded(t) && j < |t.opVec|
    ensures OpFits(t, j)
    ensures t.nInd <= t.opVec[j].resIndex && ResEnd(t, j) <= t.nVal && ArgEnd(t, j) <= |t.argVec|
  {
    assert OpFits(t, j);
    var last := |t.opVec| - 1;
    if j < last {
      assert OpFits(t, last);
      ResOrder(t, j, last);
    }
    if 0 < j {
      ResOrder(t, 0, j);
    }
  }

  /** The start of the results of invocation `i`, or `nVal` once all are done. */
  function Frontier(t: TapeValue, i: nat): nat
    requires i <= |t.opVec|
  {
    if i < |t.opVec| then t.opVec[i].resIndex else t.nVal
  }

  /** The frontier moves from `nInd` to `nVal` across one result run per invocation. */
  lemma FrontierStep(t: TapeValue, i: nat)
    requires Recorded(t) && i < |t.opVec|
    ensures HeaderOk(t, i) && Frontier(t, i + 1) == ResEnd(t, i)
    ensures Frontier(t, 0) == t.nInd
  {
    assert OpFits(t, i);
    if i + 1 < |t.opVec| {
      assert Chained(t, i);
    }
  }

  // ---------------------------------------------------------------------
  // Appending one invocation

  /** The tape after appending an invocation of `op` whose operand run is
      `run`, results start at `nVal`, and that adds `cons` to the pool. */
  function Append(t: TapeValue, op: OpKind, run: seq<nat>, cons: seq<Value>): (r: TapeValue)
    requires HeaderIn(op, |t.argVec|, t.argVec + run)
    ensures r.nInd == t.nInd && r.depVec == t.depVec
    ensures r.argVec == t.argVec + run && r.conVec == t.conVec + cons
    ensures r.opVec == t.opVec + [OpInfo(|t.argVec|, t.nVal, op)]
    ensures r.nVal == t.nVal + NRes(op, |t.argVec|, r.argVec)
  {
    var argVec := t.argVec + run;
    TapeValue(t.nInd, t.nVal + NRes(op, |t.argVec|, argVec), argVec,
              t.opVec + [OpInfo(|t.argVec|, t.nVal, op)], t.conVec + cons, t.depVec)
  }

  /** An invocation that was sound stays sound when the arrays grow. */
  lemma OpFitsAppend(t: TapeValue, op: OpKind, run: seq<nat>, cons: seq<Value>, j: nat)
    requires j < |t.opVec| && OpFits(t, j)
    requires HeaderIn(op, |t.argVec|, t.argVec + run)
    ensures OpFits(Append(t, op, run, cons), j)
  {
    var t' := Append(t, op, run, cons);
    var o := t.opVec[j];
    assert t'.opVec[j] == o;
    assert forall p :: 0 <= p < |t.argVec| ==> t'.argVec[p] == t.argVec[p];
    if o.op.Call? {
      assert CallOp.HeaderFits(o.argIndex, t.argVec);
      assert CallOp.HeaderFits(o.argIndex, t'.argVec);
    }
    assert ArgEnd(t', j) == ArgEnd(t, j);
  }

  /** The runs of an existing invocation end where they did before the append. */
  lemma EndsAppend(t: TapeValue, op: OpKind, run: seq<nat>, cons: seq<Value>, j: nat)
    requires j < |t.opVec| && OpFits(t, j)
    requires HeaderIn(op, |t.argVec|, t.argVec + run)
    ensures HeaderOk(Append(t, op, run, cons), j)
    ensures ArgEnd(Append(t, op, run, cons), j) == ArgEnd(t, j)
    ensures ResEnd(Append(t, op, run, cons), j) == ResEnd(t, j)
  {
    OpFitsAppend(t, op, run, cons, j);
    var t' := Append(t, op, run, cons);
    var o := t.opVec[j];
    assert t'.opVec[j] == o;
    if o.op.Call? {
      assert t'.argVec[o.argIndex] == t.argVec[o.argIndex];
      assert t'.argVec[o.argIndex + 1] == t.argVec[o.argIndex + 1];
    }
  }

  /** Appending a sound invocation at the frontier keeps the recorder's invariant. */
  lemma AppendRecorded(t: TapeValue, op: OpKind, run: seq<nat>, cons: seq<Value>)
    requires Recorded(t)
    requires HeaderIn(op, |t.argVec|, t.argVec + run)
    requires OpFits(Append(t, op, run, cons), |t.opVec|)
    requires ArgEnd(Append(t, op, run, cons), |t.opVec|) == |t.argVec| + |run|
    ensures Recorded(Append(t, op, run, cons))
    ensures SentinelFirst(t) ==> SentinelFirst(Append(t, op, run, cons))
  {
    var t' := Append(t, op, run, cons);
    var n := |t.opVec|;
    forall j | 0 <= j < n
      ensures OpFits(t', j)
    {
      assert OpFits(t, j);
      OpFitsAppend(t, op, run, cons, j);
    }
    forall j | 0 <= j < n - 1
      ensures Chained(t', j)
    {
      assert Chained(t, j) && OpFits(t, j);
      EndsAppend(t, op, run, cons, j);
    }
    if 0 < n {
      assert Closes(t) && OpFits(t, n - 1);
      EndsAppend(t, op, run, cons, n - 1);
      assert Chained(t', n - 1);
    }
    assert Closes(t');
    if SentinelFirst(t) {
      assert t'.argVec[t.opVec[0].argIndex] == t.argVec[t.opVec[0].argIndex];
    }
  }

  /** Appending an add or sub on two existing values keeps the recorder's invariant. */
  lemma AppendBinaryRecorded(t: TapeValue, op: OpKind, left: nat, right: nat)
    requires Recorded(t) && IsBinary(op) && left < t.nVal && right < t.nVal
    ensures HeaderIn(op, |t.argVec|, t.argVec + [left, right])
    ensures Recorded(Append(t, op, [left, right], []))
    ensures SentinelFirst(t) ==> SentinelFirst(Append(t, op, [left, right], []))
  {
    AppendRecorded(t, op, [left, right], []);
  }

  /** Appending a load of a new pool entry keeps the recorder's invariant. */
  lemma AppendConRecorded(t: TapeValue, c: Value)
    requires Recorded(t)
    ensures HeaderIn(Con, |t.argVec|, t.argVec + [|t.conVec|])
    ensures Recorded(Append(t, Con, [|t.conVec|], [c]))
    ensures SentinelFirst(t) ==> SentinelFirst(Append(t, Con, [|t.conVec|], [c]))
  {
    AppendRecorded(t, Con, [|t.conVec|], [c]);
  }

  /** Appending a comparison of two existing values keeps the recorder's invariant. */
  lemma AppendCompRecorded(t: TapeValue, tag: nat, left: nat, right: nat)
    requires Recorded(t) && left < t.nVal && right < t.nVal
    ensures HeaderIn(Comp, |t.argVec|, t.argVec + [tag, left, right])
    ensures Recorded(Append(t, Comp, [tag, left, right], []))
    ensures SentinelFirst(t) ==> SentinelFirst(Append(t, Comp, [tag, left, right], []))
  {
    AppendRecorded(t, Comp, [tag, left, right], []);
  }

  // ---------------------------------------------------------------------
  // Evaluation

  /** The buffer after invocation `j` runs on `vals`: it writes only its own
      result run. Comparisons leave the buffer unchanged. */
  function EvalOp(t: TapeValue, j: nat, vals: seq<Value>, fwd: CallOp.Forward): (r: seq<Value>)
    requires Recorded(t) && j < |t.opVec| && |vals| == t.nVal && CallOp.ForwardSized(fwd)
    ensures HeaderOk(t, j)
    ensures |r| == |vals|
    ensures forall v :: 0 <= v < |vals| && !(t.opVec[j].resIndex <= v < ResEnd(t, j)) ==> r[v] == vals[v]
  {
    ResBounds(t, j);
    var o := t.opVec[j];
    match o.op
    case Add => vals[o.resIndex := Values.Add(vals[t.argVec[o.argIndex]], vals[t.argVec[o.argIndex + 1]])]
    case Sub => vals[o.resIndex := Values.Sub(vals[t.argVec[o.argIndex]], vals[t.argVec[o.argIndex + 1]])]
    case Con => vals[o.resIndex := t.conVec[t.argVec[o.argIndex]]]
    case Comp => vals
    case Call => CallOp.EvalCall(o.argIndex, t.argVec, o.resIndex, vals, fwd)
  }

  /** The buffer after the first `i` invocations run, in recording order. */
  function EvalUpTo(t: TapeValue, i: nat, vals: seq<Value>, fwd: CallOp.Forward): (r: seq<Value>)
    requires Recorded(t) && i <= |t.opVec| && |vals| == t.nVal && CallOp.ForwardSized(fwd)
    ensures |r| == |vals|
  {
    if i == 0 then vals else EvalOp(t, i - 1, EvalUpTo(t, i - 1, vals, fwd), fwd)
  }

  /** The buffer after every invocation runs once, in recording order. */
  function EvalAll(t: TapeValue, vals: seq<Value>, fwd: CallOp.Forward): (r: seq<Value>)
    requires Recorded(t) && |vals| == t.nVal && CallOp.ForwardSized(fwd)
    ensures |r| == |vals|
  {
    EvalUpTo(t, |t.opVec|, vals, fwd)
  }

  /** What an invocation writes depends only on the slots below its results. */
  lemma EvalOpLocal(t: TapeValue, j: nat, v1: seq<Value>, v2: seq<Value>, fwd: CallOp.Forward)
    requires Recorded(t) && j < |t.opVec| && |v1| == t.nVal && |v2| == t.nVal && CallOp.ForwardSized(fwd)
    requires forall v :: 0 <= v < |v1| && v < t.opVec[j].resIndex ==> v1[v] == v2[v]
    ensures OpFits(t, j) && ResEnd(t, j) <= t.nVal
    ensures forall v :: 0 <= v < ResEnd(t, j) ==> EvalOp(t, j, v1, fwd)[v] == EvalOp(t, j, v2, fwd)[v]
  {
    ResBounds(t, j);
    var o := t.opVec[j];
    if o.op.Call? {
      CallOp.EvalCallLocal(o.argIndex, t.argVec, o.resIndex, v1, v2, fwd);
    }
  }

  /** After `i` invocations, two evaluations that started from the same
      independent values agree on every slot below the frontier. */
  lemma {:induction false} EvalUpToLocal(t: TapeValue, i: nat, v1: seq<Value>, v2: seq<Value>, fwd: CallOp.Forward)
    requires Recorded(t) && i <= |t.opVec| && |v1| == t.nVal && |v2| == t.nVal && CallOp.ForwardSized(fwd)
    requires forall v :: 0 <= v < t.nInd ==> v1[v] == v2[v]
    ensures Frontier(t, i) <= t.nVal
    ensures forall v :: 0 <= v < Frontier(t, i) ==> EvalUpTo(t, i, v1, fwd)[v] == EvalUpTo(t, i, v2, fwd)[v]
  {
    if i == 0 {
      if 0 < |t.opVec| {
        FrontierStep(t, 0);
      }
    } else {
      EvalUpToLocal(t, i - 1, v1, v2, fwd);
      FrontierStep(t, i - 1);
      EvalOpLocal(t, i - 1, EvalUpTo(t, i - 1, v1, fwd), EvalUpTo(t, i - 1, v2, fwd), fwd);
    }
  }

  /** Evaluation is a function of the independent values alone: every other
      slot is overwritten before it is read. */
  lemma EvalDependsOnlyOnInputs(t: TapeValue, v1: seq<Value>, v2: seq<Value>, fwd: CallOp.Forward)
    requires Recorded(t) && |v1| == t.nVal && |v2| == t.nVal && CallOp.ForwardSized(fwd)
    requires forall v :: 0 <= v < t.nInd ==> v1[v] == v2[v]
    ensures EvalAll(t, v1, fwd) == EvalAll(t, v2, fwd)
  {
    EvalUpToLocal(t, |t.opVec|, v1, v2, fwd);
  }

  /** One invocation preserves the information order between buffers. */
  lemma EvalOpMonotone(t: TapeValue, j: nat, v1: seq<Value>, v2: seq<Value>, fwd: CallOp.Forward)
    requires Recorded(t) && j < |t.opVec| && |v1| == t.nVal && |v2| == t.nVal
    requires CallOp.ForwardSized(fwd) && CallOp.ForwardMonotone(fwd)
    requires BelowSeq(v1, v2)
    ensures BelowSeq(EvalOp(t, j, v1, fwd), EvalOp(t, j, v2, fwd))
  {
    ResBounds(t, j);
    var o := t.opVec[j];
    match o.op
    case Add =>
      ArithMonotone(v1[t.argVec[o.argIndex]], v1[t.argVec[o.argIndex + 1]],
                    v2[t.argVec[o.argIndex]], v2[t.argVec[o.argIndex + 1]]);
    case Sub =>
      ArithMonotone(v1[t.argVec[o.argIndex]], v1[t.argVec[o.argIndex + 1]],
                    v2[t.argVec[o.argIndex]], v2[t.argVec[o.argIndex + 1]]);
    case Con =>
    case Comp =>
    case Call =>
      CallOp.EvalCallMonotone(o.argIndex, t.argVec, o.resIndex, v1, v2, fwd);
  }

  /** Evaluating from a buffer below another ends below the other's evaluation. */
  lemma {:induction false} EvalMonotone(t: TapeValue, i: nat, v1: seq<Value>, v2: seq<Value>, fwd: CallOp.Forward)
    requires Recorded(t) && i <= |t.opVec| && |v1| == t.nVal && |v2| == t.nVal
    requires CallOp.ForwardSized(fwd) && CallOp.ForwardMonotone(fwd)
    requires BelowSeq(v1, v2)
    ensures BelowSeq(EvalUpTo(t, i, v1, fwd), EvalUpTo(t, i, v2, fwd))
  {
    if 0 < i {
      EvalMonotone(t, i - 1, v1, v2, fwd);
      EvalStepMonotone(t, i, v1, v2, fwd);
    }
  }

  /** One more invocation keeps two evaluations in the information order. */
  lemma EvalStepMonotone(t: TapeValue, i: nat, v1: seq<Value>, v2: seq<Value>, fwd: CallOp.Forward)
    requires Recorded(t) && 0 < i <= |t.opVec| && |v1| == t.nVal && |v2| == t.nVal
    requires CallOp.ForwardSized(fwd) && CallOp.ForwardMonotone(fwd)
    requires BelowSeq(EvalUpTo(t, i - 1, v1, fwd), EvalUpTo(t, i - 1, v2, fwd))
    ensures BelowSeq(EvalUpTo(t, i, v1, fwd), EvalUpTo(t, i, v2, fwd))
  {
    var w1 := EvalUpTo(t, i - 1, v1, fwd);
    var w2 := EvalUpTo(t, i - 1, v2, fwd);
    EvalOpMonotone(t, i - 1, w1, w2, fwd);
  }

  /** The values of one evaluation with every slot preset to not-a-number. */
  function NanValues(t: TapeValue, fwd: CallOp.Forward): (r: seq<Value>)
    requires Recorded(t) && CallOp.ForwardSized(fwd)
    ensures |r| == t.nVal
  {
    EvalAll(t, AllNan(t.nVal), fwd)
  }

  /** Why the poison pass detects constants: a slot that is not not-a-number
      after evaluating with every slot poisoned has that same value on every
      evaluation, whatever the independent values are. */
  lemma NanPoisonSound(t: TapeValue, w: seq<Value>, fwd: CallOp.Forward)
    requires Recorded(t) && |w| == t.nVal
    requires CallOp.ForwardSized(fwd) && CallOp.ForwardMonotone(fwd)
    ensures forall s :: 0 <= s < t.nVal && !NanValues(t, fwd)[s].Nan? ==>
              EvalAll(t, w, fwd)[s] == NanValues(t, fwd)[s]
  {
    AllNanBelow(w);
    EvalMonotone(t, |t.opVec|, AllNan(t.nVal), w, fwd);
  }

  /** Invocation `j`'s equation holds in buffer `w`: its result run holds its
      operation applied to the values `w` gives its operands. A comparison
      has no result and no equation. */
  ghost predicate OpHolds(t: TapeValue, j: nat, w: seq<Value>, fwd: CallOp.Forward)
    requires Recorded(t) && j < |t.opVec| && |w| == t.nVal
  {
    ResBounds(t, j);
    var o := t.opVec[j];
    match o.op
    case Add => w[o.resIndex] == Values.Add(w[t.argVec[o.argIndex]], w[t.argVec[o.argIndex + 1]])
    case Sub => w[o.resIndex] == Values.Sub(w[t.argVec[o.argIndex]], w[t.argVec[o.argIndex + 1]])
    case Con => w[o.resIndex] == t.conVec[t.argVec[o.argIndex]]
    case Comp => true
    case Call => w[o.resIndex..ResEnd(t, j)] == CallOp.Outputs(o.argIndex, t.argVec, o.resIndex, w, fwd)
  }

  /** `w` keeps the independent values of `vals` and satisfies every
      invocation's equation. */
  ghost predicate Solves(t: TapeValue, vals: seq<Value>, w: seq<Value>, fwd: CallOp.Forward)
    requires Recorded(t) && |vals| == t.nVal && |w| == t.nVal
  {
    (forall v :: 0 <= v < t.nInd ==> w[v] == vals[v]) &&
    (forall j :: 0 <= j < |t.opVec| ==> OpHolds(t, j, w, fwd))
  }

  /** Invocations from `i` on never write below the frontier of `i`. */
  lemma {:induction false} EvalUpToStable(t: TapeValue, i: nat, k: nat, vals: seq<Value>, fwd: CallOp.Forward)
    requires Recorded(t) && i <= k <= |t.opVec| && |vals| == t.nVal && CallOp.ForwardSized(fwd)
    ensures forall v :: 0 <= v < Frontier(t, i) && v < |vals| ==>
              EvalUpTo(t, k, vals, fwd)[v] == EvalUpTo(t, i, vals, fwd)[v]
    decreases k
  {
    if i < k {
      EvalUpToStable(t, i, k - 1, vals, fwd);
      if i < k - 1 {
        ResOrder(t, i, k - 1);
      }
      assert Frontier(t, i) <= t.opVec[k - 1].resIndex;
    }
  }

  /** A buffer that agrees with one run of invocation `j` on every slot up
      to the end of its results satisfies `j`'s equation. */
  lemma OpHoldsFrom(t: TapeValue, j: nat, before: seq<Value>, w: seq<Value>, fwd: CallOp.Forward)
    requires Recorded(t) && j < |t.opVec| && |before| == t.nVal && |w| == t.nVal && CallOp.ForwardSized(fwd)
    requires HeaderOk(t, j)
    requires forall v :: 0 <= v < ResEnd(t, j) && v < t.nVal ==> w[v] == EvalOp(t, j, before, fwd)[v]
    ensures OpHolds(t, j, w, fwd)
  {
    ResBounds(t, j);
    var o := t.opVec[j];
    assert forall v :: 0 <= v < o.resIndex ==> w[v] == before[v];
    if o.op.Call? {
      var lo := o.argIndex + CallOp.NAux;
      var hi := o.argIndex + CallOp.NArg(o.argIndex, t.argVec);
      GatherLocal(before, w, t.argVec, lo, hi, o.resIndex);
      assert CallOp.Outputs(o.argIndex, t.argVec, o.resIndex, w, fwd)
          == CallOp.Outputs(o.argIndex, t.argVec, o.resIndex, before, fwd);
    }
  }

  /** The evaluated buffer satisfies invocation `j`'s equation: nothing after
      `j` overwrites its results or its operands. */
  lemma OpHoldsAfterEval(t: TapeValue, j: nat, vals: seq<Value>, fwd: CallOp.Forward)
    requires Recorded(t) && j < |t.opVec| && |vals| == t.nVal && CallOp.ForwardSized(fwd)
    ensures OpHolds(t, j, EvalAll(t, vals, fwd), fwd)
  {
    var before := EvalUpTo(t, j, vals, fwd);
    var w := EvalAll(t, vals, fwd);
    FrontierStep(t, j);
    EvalUpToStable(t, j + 1, |t.opVec|, vals, fwd);
    assert EvalUpTo(t, j + 1, vals, fwd) == EvalOp(t, j, before, fwd);
    OpHoldsFrom(t, j, before, w, fwd);
  }

  /** Evaluation solves the tape: the evaluated buffer keeps the independent
      values and satisfies every invocation's equation. */
  lemma EvalAllSolves(t: TapeValue, vals: seq<Value>, fwd: CallOp.Forward)
    requires Recorded(t) && |vals| == t.nVal && CallOp.ForwardSized(fwd)
    ensures Solves(t, vals, EvalAll(t, vals, fwd), fwd)
  {
    EvalUpToStable(t, 0, |t.opVec|, vals, fwd);
    if 0 < |t.opVec| {
      FrontierStep(t, 0);
    }
    forall j | 0 <= j < |t.opVec|
      ensures OpHolds(t, j, EvalAll(t, vals, fwd), fwd)
    {
      OpHoldsAfterEval(t, j, vals, fwd);
    }
  }

  /** A solution agrees with the evaluation after `i` invocations on every
      slot below the frontier of `i`. */
  lemma {:induction false} SolutionAgrees(t: TapeValue, i: nat, vals: seq<Value>, w: seq<Value>, fwd: CallOp.Forward)
    requires Recorded(t) && i <= |t.opVec| && |vals| == t.nVal && |w| == t.nVal && CallOp.ForwardSized(fwd)
    requires Solves(t, vals, w, fwd)
    ensures Frontier(t, i) <= t.nVal
    ensures forall v :: 0 <= v < Frontier(t, i) ==> w[v] == EvalUpTo(t, i, vals, fwd)[v]
  {
    if i == 0 {
      if 0 < |t.opVec| {
        FrontierStep(t, 0);
      }
    } else {
      SolutionAgrees(t, i - 1, vals, w, fwd);
      SolutionStep(t, i - 1, EvalUpTo(t, i - 1, vals, fwd), w, fwd);
    }
  }

  /** If `w` agrees with `before` below invocation `j`'s results and
      satisfies `j`'s equation, it agrees with the buffer after `j` runs on
      `before` up to the end of `j`'s results. */
  lemma SolutionStep(t: TapeValue, j: nat, before: seq<Value>, w: seq<Value>, fwd: CallOp.Forward)
    requires Recorded(t) && j < |t.opVec| && |before| == t.nVal && |w| == t.nVal && CallOp.ForwardSized(fwd)
    requires forall v :: 0 <= v < Frontier(t, j) && v < |w| ==> w[v] == before[v]
    requires OpHolds(t, j, w, fwd)
    ensures Frontier(t, j + 1) <= t.nVal
    ensures forall v :: 0 <= v < Frontier(t, j + 1) ==> w[v] == EvalOp(t, j, before, fwd)[v]
  {
    FrontierStep(t, j);
    ResBounds(t, j);
    var o := t.opVec[j];
    if o.op.Call? {
      var lo := o.argIndex + CallOp.NAux;
      var hi := o.argIndex + CallOp.NArg(o.argIndex, t.argVec);
      GatherLocal(before, w, t.argVec, lo, hi, o.resIndex);
      var y := CallOp.Outputs(o.argIndex, t.argVec, o.resIndex, w, fwd);
      assert y == CallOp.Outputs(o.argIndex, t.argVec, o.resIndex, before, fwd);
      forall v | o.resIndex <= v < ResEnd(t, j)
        ensures w[v] == y[v - o.resIndex]
      {
        assert w[o.resIndex..ResEnd(t, j)][v - o.resIndex] == w[v];
      }
    }
  }

  /** Evaluation is the one solution: a buffer keeps the independent values
      of `vals` and satisfies every equation exactly when it is what
      evaluating the tape on `vals` computes. */
  lemma EvalAllUnique(t: TapeValue, vals: seq<Value>, w: seq<Value>, fwd: CallOp.Forward)
    requires Recorded(t) && |vals| == t.nVal && |w| == t.nVal && CallOp.ForwardSized(fwd)
    ensures Solves(t, vals, w, fwd) <==> w == EvalAll(t, vals, fwd)
  {
    EvalAllSolves(t, vals, fwd);
    if Solves(t, vals, w, fwd) {
      SolutionAgrees(t, |t.opVec|, vals, w, fwd);
    }
  }

  // ---------------------------------------------------------------------
  // The recorder

  /** A value-graph tape under construction (tape_t). */
  class Tape {
    var nInd: nat
    var nVal: nat
    var argVec: seq<nat>
    var opVec: seq<OpInfo>
    var conVec: seq<Value>
    var depVec: seq<nat>

    /** The tape's storage as a value. */
    function Data(): TapeValue
      reads this
    {
      TapeValue(nInd, nVal, argVec, opVec, conVec, depVec)
    }

    /** The recorder's invariant holds of the storage. */
    ghost predicate Valid()
      reads this
    {
      Recorded(Data())
    }

    /** An empty tape. */
    constructor ()
      ensures Data() == TapeValue(0, 0, [], [], [], [])
      ensures Valid()
    {
      nInd, nVal := 0, 0;
      argVec, opVec, conVec, depVec := [], [], [], [];
    }

    /** set_ind: empties the dependents, invocations and constant pool (the
        operand array is kept), declares `n` independent values and records
        the not-a-number constant right after them. */
    method SetInd(n: nat) returns (nanAddr: nat)
      modifies this
      ensures nanAddr == n
      ensures Data() == TapeValue(n, n + 1, old(argVec) + [0], [OpInfo(|old(argVec)|, n, Con)], [Nan], [])
      ensures WellFormed(Data())
    {
      nInd := n;
      nVal := n;
      depVec := [];
      opVec := [];
      conVec := [];
      nanAddr := RecordConOp(Nan);
    }

    /** record_op: appends an add or sub invocation on the value indices
        `opArg[0]` and `opArg[1]` and returns the index of its result. */
    method RecordOp(op: OpKind, opArg: seq<nat>) returns (resIndex: nat)
      requires Valid() && IsBinary(op)
      requires |opArg| >= 2 && opArg[0] < nVal && opArg[1] < nVal
      modifies this
      ensures resIndex == old(nVal) && nVal == old(nVal) + 1
      ensures Data() == Append(old(Data()), op, opArg[..2], [])
      ensures Valid() && (SentinelFirst(old(Data())) ==> SentinelFirst(Data()))
    {
      ghost var t0 := Data();
      resIndex := nVal;
      var argIndex := |argVec|;
      opVec := opVec + [OpInfo(argIndex, resIndex, op)];
      var nOpArg := NArg(op, argIndex, argVec);
      var args := argVec;
      var i := 0;
      while i < nOpArg
        invariant 0 <= i <= nOpArg == 2
        invariant args == t0.argVec + opArg[..i]
      {
        args := args + [opArg[i]];
        i := i + 1;
      }
      argVec := args;
      nVal := nVal + NRes(op, argIndex, argVec);
      assert opArg[..2] == [opArg[0], opArg[1]];
      assert Data() == Append(t0, op, opArg[..2], []);
      AppendBinaryRecorded(t0, op, opArg[0], opArg[1]);
    }

    /** record_con_op: adds `constant` to the pool, appends a con invocation
        that loads it, and returns the index of its result. */
    method RecordConOp(constant: Value) returns (resIndex: nat)
      requires Valid()
      modifies this
      ensures resIndex == old(nVal) && nVal == old(nVal) + 1
      ensures Data() == Append(old(Data()), Con, [|old(conVec)|], [constant])
      ensures Valid() && (SentinelFirst(old(Data())) ==> SentinelFirst(Data()))
    {
      ghost var t0 := Data();
      var conIndex := |conVec|;
      conVec := conVec + [constant];
      resIndex := nVal;
      var argIndex := |argVec|;
      opVec := opVec + [OpInfo(argIndex, resIndex, Con)];
      argVec := argVec + [conIndex];
      nVal := nVal + NRes(Con, argIndex, argVec);
      assert Data() == Append(t0, Con, [conIndex], [constant]);
      AppendConRecorded(t0, constant);
    }

    /** record_call_op: appends a call of configuration `callId` of atomic
        function `atomicIndex` on the values `funArg`, with `nRes` results,
        and returns the index of its first result. */
    method RecordCallOp(atomicIndex: nat, callId: nat, nRes: nat, funArg: seq<nat>) returns (resIndex: nat)
      requires Valid() && atomicIndex != 0
      requires forall k :: 0 <= k < |funArg| ==> funArg[k] < nVal
      modifies this
      ensures resIndex == old(nVal) && nVal == old(nVal) + nRes
      ensures Data() == Append(old(Data()), Call, CallOp.CallRun(atomicIndex, callId, nRes, funArg), [])
      ensures Valid() && (SentinelFirst(old(Data())) ==> SentinelFirst(Data()))
    {
      ghost var t0 := Data();
      resIndex := nVal;
      var argIndex := |argVec|;
      opVec := opVec + [OpInfo(argIndex, resIndex, Call)];
      var nArg := CallOp.NAux + |funArg|;
      var args := argVec + [nArg, nRes, atomicIndex, callId];
      var i := 0;
      while i < |funArg|
        invariant 0 <= i <= |funArg|
        invariant args == t0.argVec + [nArg, nRes, atomicIndex, callId] + funArg[..i]
      {
        args := args + [funArg[i]];
        i := i + 1;
      }
      argVec := args;
      nVal := nVal + nRes;
      ghost var run := CallOp.CallRun(atomicIndex, callId, nRes, funArg);
      assert argVec == t0.argVec + run;
      CallOp.HeaderRoundTrip(t0.argVec, atomicIndex, callId, nRes, funArg);
      assert Data() == Append(t0, Call, run, []);
      AppendCallRecorded(t0, atomicIndex, callId, nRes, funArg);
    }

    /** record_comp_op: appends a comparison `left tag right`; it has no result. */
    method RecordCompOp(tag: nat, left: nat, right: nat)
      requires Valid() && left < nVal && right < nVal
      modifies this
      ensures Data() == Append(old(Data()), Comp, [tag, left, right], [])
      ensures Valid() && (SentinelFirst(old(Data())) ==> SentinelFirst(Data()))
    {
      ghost var t0 := Data();
      var argIndex := |argVec|;
      opVec := opVec + [OpInfo(argIndex, nVal, Comp)];
      argVec := argVec + [tag, left, right];
      assert Data() == Append(t0, Comp, [tag, left, right], []);
      AppendCompRecorded(t0, tag, left, right);
    }

    /** swap: exchanges the storage of this tape and `other`. */
    method Swap(other: Tape)
      modifies this, other
      ensures Data() == old(other.Data()) && other.Data() == old(Data())
    {
      nInd, other.nInd := other.nInd, nInd;
      nVal, other.nVal := other.nVal, nVal;
      argVec, other.argVec := other.argVec, argVec;
      opVec, other.opVec := other.opVec, opVec;
      conVec, other.conVec := other.conVec, conVec;
      depVec, other.depVec := other.depVec, depVec;
    }

    /** set_dep: the dependent values are the values at `dep`. */
    method SetDep(dep: seq<nat>)
      requires Valid() && forall k :: 0 <= k < |dep| ==> dep[k] < nVal
      modifies this
      ensures Data() == old(Data()).(depVec := dep)
      ensures Valid() && (SentinelFirst(old(Data())) ==> SentinelFirst(Data()))
    {
      WithDepsRecorded(Data(), dep);
      depVec := dep;
    }
  }

  /** Replacing the dependents by in-range indices keeps the recorder's invariant. */
  lemma WithDepsRecorded(t: TapeValue, dep: seq<nat>)
    requires Recorded(t) && forall k :: 0 <= k < |dep| ==> dep[k] < t.nVal
    ensures Recorded(t.(depVec := dep))
    ensures SentinelFirst(t) ==> SentinelFirst(t.(depVec := dep))
  {
    var t' := t.(depVec := dep);
    forall j | 0 <= j < |t.opVec|
      ensures OpFits(t', j)
    {
      assert OpFits(t, j);
    }
    forall j | 0 <= j < |t.opVec| - 1
      ensures Chained(t', j)
    {
      assert Chained(t, j);
    }
    if 0 < |t.opVec| {
      assert Closes(t);
    }
  }

  /** Appending a call run keeps the recorder's invariant. */
  lemma AppendCallRecorded(t: TapeValue, atomicIndex: nat, callId: nat, nRes: nat, funArg: seq<nat>)
    requires Recorded(t) && atomicIndex != 0
    requires forall k :: 0 <= k < |funArg| ==> funArg[k] < t.nVal
    ensures HeaderIn(Call, |t.argVec|, t.argVec + CallOp.CallRun(atomicIndex, callId, nRes, funArg))
    ensures Recorded(Append(t, Call, CallOp.CallRun(atomicIndex, callId, nRes, funArg), []))
    ensures SentinelFirst(t) ==> SentinelFirst(Append(t, Call, CallOp.CallRun(atomicIndex, callId, nRes, funArg), []))
  {
    var run := CallOp.CallRun(atomicIndex, callId, nRes, funArg);
    CallOp.HeaderRoundTrip(t.argVec, atomicIndex, callId, nRes, funArg);
    var t' := Append(t, Call, run, []);
    var a := |t.argVec|;
    var n := |t.opVec|;
    assert t'.opVec[n] == OpInfo(a, t.nVal, Call);
    assert HeaderOk(t', n);
    forall p | a + CallOp.NAux <= p < a + CallOp.NArg(a, t'.argVec)
      ensures t'.argVec[p] < t.nVal
    {
      assert t'.argVec[p] == funArg[p - a - CallOp.NAux];
    }
    assert OpFits(t', n);
    AppendRecorded(t, Call, run, []);
  }
}
