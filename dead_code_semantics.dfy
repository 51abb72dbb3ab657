/** What the tape left by dead code elimination computes: evaluated on the
    same independent values, every dependent of the rebuilt tape has the
    value the corresponding dependent of the original tape has. The proof
    runs the forward sweep alongside the original tape's evaluation: every
    needed value that the sweep has passed has, in the rebuilt tape, the
    value it has in the original. */
module DeadCodeSemantics {
  import opened Values
  import opened OpKinds
  import CallOp
  import opened Runs
  import opened ValGraph
  import opened DeadCodePass

  // ---------------------------------------------------------------------
  // The rebuilt tape only grows

  /** `b` is `a` with more invocations, operand words and pool entries appended. */
  ghost predicate Extends(a: TapeValue, b: TapeValue)
  {
    a.nInd == b.nInd && a.nVal <= b.nVal &&
    |a.opVec| <= |b.opVec| && (forall q :: 0 <= q < |a.opVec| ==> b.opVec[q] == a.opVec[q]) &&
    |a.argVec| <= |b.argVec| && (forall p :: 0 <= p < |a.argVec| ==> b.argVec[p] == a.argVec[p]) &&
    |a.conVec| <= |b.conVec| && (forall c :: 0 <= c < |a.conVec| ==> b.conVec[c] == a.conVec[c])
  }

  /** One forward step only appends to the new tape. */
  lemma KeepStepExtends(t: TapeValue, j: nat, keepCompare: bool, need: seq<bool>, s: Rebuild)
    requires Recorded(t) && j < |t.opVec| && |need| == t.nVal && |s.newIndex| == t.nVal
    ensures Extends(s.tape, KeepStep(t, j, keepCompare, need, s).tape)
  {
  }

  /** Step `k - 1` of the forward sweep only appends to the new tape. */
  lemma RebuildStepExtends(t: TapeValue, k: nat, keepCompare: bool, need: seq<bool>)
    requires Recorded(t) && 1 < k <= |t.opVec| && |need| == t.nVal
    ensures Extends(RebuildUpTo(t, k - 1, keepCompare, need).tape, RebuildUpTo(t, k, keepCompare, need).tape)
  {
    KeepStepExtends(t, k - 1, keepCompare, need, RebuildUpTo(t, k - 1, keepCompare, need));
  }

  /** The new tape after `i` steps is a prefix of the new tape after `k >= i` steps. */
  lemma {:induction false} RebuildUpToExtends(t: TapeValue, i: nat, k: nat, keepCompare: bool, need: seq<bool>)
    requires Recorded(t) && 1 <= i <= k <= |t.opVec| && |need| == t.nVal
    ensures Extends(RebuildUpTo(t, i, keepCompare, need).tape, RebuildUpTo(t, k, keepCompare, need).tape)
    decreases k
  {
    if i < k {
      RebuildUpToExtends(t, i, k - 1, keepCompare, need);
      RebuildStepExtends(t, k, keepCompare, need);
      ExtendsTrans(RebuildUpTo(t, i, keepCompare, need).tape, RebuildUpTo(t, k - 1, keepCompare, need).tape,
                   RebuildUpTo(t, k, keepCompare, need).tape);
    }
  }

  // ---------------------------------------------------------------------
  // Calls read what their needed outputs depend on

  /** Every input of call `j` that the bridge says its needed results depend on is needed. */
  ghost predicate CallClosedAt(t: TapeValue, j: nat, conVals: seq<Value>, rev: CallOp.Reverse, need: seq<bool>)
    requires Recorded(t) && j < |t.opVec| && t.opVec[j].op.Call?
    requires |conVals| == t.nVal && |need| == t.nVal && CallOp.ReverseSized(rev)
  {
    ResBounds(t, j);
    var dx := NeedDependX(t, j, conVals, rev, need);
    forall k :: 0 <= k < |dx| && dx[k] ==> need[t.argVec[FirstOperand(t, j) + k]]
  }

  /** The corrected sweep accounts for every call. */
  lemma NeedsCallClosedAt(t: TapeValue, j: nat, keepCompare: bool, conVals: seq<Value>, rev: CallOp.Reverse)
    requires Recorded(t) && j < |t.opVec| && t.opVec[j].op.Call? && |conVals| == t.nVal && CallOp.ReverseSized(rev)
    ensures CallClosedAt(t, j, conVals, rev, Needs(t, keepCompare, conVals, rev, Corrected))
  {
    ResBounds(t, j);
    var o := t.opVec[j];
    var before := NeedFrom(t, j + 1, keepCompare, conVals, rev, Corrected);
    var after := NeedFrom(t, j, keepCompare, conVals, rev, Corrected);
    var final := Needs(t, keepCompare, conVals, rev, Corrected);
    NeedFromFrame(t, 0, j, keepCompare, conVals, rev, Corrected);
    NeedFromGrows(t, 0, j, keepCompare, conVals, rev);
    assert final[o.resIndex..ResEnd(t, j)] == before[o.resIndex..ResEnd(t, j)];
    assert NeedDependX(t, j, conVals, rev, final) == NeedDependX(t, j, conVals, rev, before);
    assert after == CallNeed(t, j, conVals, rev, before, Corrected);
  }

  // ---------------------------------------------------------------------
  // The forward sweep simulates the original evaluation

  /** Every value below the frontier of `i` that is an independent, the
      sentinel or needed has, at its new index in the buffer `w'` of the new
      tape, the value it has in the buffer `w` of the original. */
  ghost predicate Agrees(t: TapeValue, i: nat, need: seq<bool>, newIndex: seq<nat>, w: seq<Value>, w': seq<Value>)
    requires i <= |t.opVec| && |need| == t.nVal && |newIndex| == t.nVal && |w| == t.nVal
  {
    forall v :: 0 <= v < Frontier(t, i) && v < t.nVal && (v <= t.nInd || need[v]) ==>
      newIndex[v] < |w'| && w'[newIndex[v]] == w[v]
  }

  /** Agreement moves past invocation `j` when `newIndex` is unchanged below
      its results and each of its needed results is mapped to a slot of `w'`
      holding its value. */
  lemma AgreesStep(t: TapeValue, j: nat, need: seq<bool>, ni: seq<nat>, ni': seq<nat>, w: seq<Value>, w': seq<Value>)
    requires WellFormed(t) && 1 <= j < |t.opVec| && |need| == t.nVal && |ni| == t.nVal && |ni'| == t.nVal && |w| == t.nVal
    requires HeaderOk(t, j)
    requires forall v :: t.opVec[j].resIndex <= v < ResEnd(t, j) && v < t.nVal && need[v] ==>
               ni'[v] < |w'| && w'[ni'[v]] == w[v]
    requires forall v :: 0 <= v < t.opVec[j].resIndex && v < t.nVal ==> ni'[v] == ni[v]
    requires Agrees(t, j, need, ni, w, w')
    ensures Agrees(t, j + 1, need, ni', w, w')
  {
    AboveSentinel(t, j);
  }

  /** `AgreesStep` for an invocation with one result. */
  lemma AgreesOne(t: TapeValue, j: nat, need: seq<bool>, ni: seq<nat>, ni': seq<nat>, w: seq<Value>, w': seq<Value>)
    requires WellFormed(t) && 1 <= j < |t.opVec| && |need| == t.nVal && |ni| == t.nVal && |ni'| == t.nVal && |w| == t.nVal
    requires HeaderOk(t, j) && ResCount(t, j) == 1 && t.opVec[j].resIndex < t.nVal
    requires ni' == ni[t.opVec[j].resIndex := ni'[t.opVec[j].resIndex]]
    requires ni'[t.opVec[j].resIndex] < |w'| && w'[ni'[t.opVec[j].resIndex]] == w[t.opVec[j].resIndex]
    requires Agrees(t, j, need, ni, w, w')
    ensures Agrees(t, j + 1, need, ni', w, w')
  {
    AgreesStep(t, j, need, ni, ni', w, w');
  }

  /** A dropped invocation, or a kept comparison, maps no new value. */
  lemma AgreesUnchanged(t: TapeValue, j: nat, keepCompare: bool, need: seq<bool>, s: Rebuild, w: seq<Value>, w': seq<Value>)
    requires WellFormed(t) && 1 <= j < |t.opVec| && |need| == t.nVal && |s.newIndex| == t.nVal && |w| == t.nVal
    requires !Kept(t, j, keepCompare, need) || t.opVec[j].op.Comp?
    requires Agrees(t, j, need, s.newIndex, w, w')
    ensures Agrees(t, j + 1, need, KeepStep(t, j, keepCompare, need, s).newIndex, w, w')
  {
    AboveSentinel(t, j);
    var res := t.opVec[j].resIndex;
    if !Kept(t, j, keepCompare, need) && 0 < ResCount(t, j) {
      forall v | res <= v < ResEnd(t, j)
        ensures !need[v]
      {
        assert need[res..ResEnd(t, j)][v - res] == need[v];
      }
    }
    AgreesStep(t, j, need, s.newIndex, KeepStep(t, j, keepCompare, need, s).newIndex, w, w');
  }

  /** An add or sub appended to `p` solves, in any solution `w'` of an
      extension `r`, to the operation on the values its operands name. */
  lemma NewBinarySolved(p: TapeValue, r: TapeValue, w': seq<Value>, fwd: CallOp.Forward, op: OpKind, x: nat, y: nat)
    requires IsBinary(op) && Recorded(r) && Extends(Append(p, op, [x, y], []), r) && |w'| == r.nVal
    requires |p.opVec| < |r.opVec| && OpHolds(r, |p.opVec|, w', fwd)
    ensures p.nVal < |w'| && x < |w'| && y < |w'|
    ensures w'[p.nVal] == if op.Add? then Values.Add(w'[x], w'[y]) else Values.Sub(w'[x], w'[y])
  {
    var t' := Append(p, op, [x, y], []);
    var q, a' := |p.opVec|, |p.argVec|;
    assert t'.opVec[q] == OpInfo(a', p.nVal, op);
    assert t'.argVec[a'] == x && t'.argVec[a' + 1] == y;
    ResBounds(r, q);
  }

  /** Re-recording a kept add or sub maps its result to a value of the new
      tape that the new tape computes from the same operand values. */
  lemma AgreesBinary(t: TapeValue, j: nat, keepCompare: bool, need: seq<bool>, s: Rebuild,
                     r: TapeValue, w: seq<Value>, w': seq<Value>, fwd: CallOp.Forward)
    requires WellFormed(t) && 1 <= j < |t.opVec| && RebuildInv(t, j, need, s)
    requires NeedClosedAt(t, j, keepCompare, need) && Kept(t, j, keepCompare, need) && IsBinary(t.opVec[j].op)
    requires Recorded(r) && Extends(KeepStep(t, j, keepCompare, need, s).tape, r)
    requires |w| == t.nVal && |w'| == r.nVal && OpHolds(t, j, w, fwd)
    requires |s.tape.opVec| < |r.opVec| && OpHolds(r, |s.tape.opVec|, w', fwd)
    requires Agrees(t, j, need, s.newIndex, w, w')
    ensures Agrees(t, j + 1, need, KeepStep(t, j, keepCompare, need, s).newIndex, w, w')
  {
    AboveSentinel(t, j);
    ResBounds(t, j);
    var o := t.opVec[j];
    var ni := s.newIndex;
    var x, y := t.argVec[o.argIndex], t.argVec[o.argIndex + 1];
    assert need[x] && need[y];
    var s' := KeepStep(t, j, keepCompare, need, s);
    assert s'.tape == Append(s.tape, o.op, [ni[x], ni[y]], []);
    assert s'.newIndex == ni[o.resIndex := s.tape.nVal];
    NewBinarySolved(s.tape, r, w', fwd, o.op, ni[x], ni[y]);
    assert w'[ni[x]] == w[x] && w'[ni[y]] == w[y];
    assert w'[s'.newIndex[o.resIndex]] == w[o.resIndex];
    AgreesOne(t, j, need, ni, s'.newIndex, w, w');
  }

  /** A constant load appended to `p` solves, in any solution `w'` of an
      extension `r`, to the pool entry it appends. */
  lemma NewConSolved(p: TapeValue, r: TapeValue, w': seq<Value>, fwd: CallOp.Forward, c: Value)
    requires Recorded(r) && Extends(Append(p, Con, [|p.conVec|], [c]), r) && |w'| == r.nVal
    requires |p.opVec| < |r.opVec| && OpHolds(r, |p.opVec|, w', fwd)
    ensures p.nVal < |w'| && w'[p.nVal] == c
  {
    var t' := Append(p, Con, [|p.conVec|], [c]);
    var q, a' := |p.opVec|, |p.argVec|;
    assert t'.opVec[q] == OpInfo(a', p.nVal, Con);
    assert t'.argVec[a'] == |p.conVec|;
    assert t'.conVec[|p.conVec|] == c;
    ResBounds(r, q);
  }

  /** Re-recording a kept constant load maps its result to a load of the same constant. */
  lemma AgreesCon(t: TapeValue, j: nat, keepCompare: bool, need: seq<bool>, s: Rebuild,
                  r: TapeValue, w: seq<Value>, w': seq<Value>, fwd: CallOp.Forward)
    requires WellFormed(t) && 1 <= j < |t.opVec| && |need| == t.nVal && |s.newIndex| == t.nVal
    requires Kept(t, j, keepCompare, need) && t.opVec[j].op.Con?
    requires Recorded(r) && Extends(KeepStep(t, j, keepCompare, need, s).tape, r)
    requires |w| == t.nVal && |w'| == r.nVal && OpHolds(t, j, w, fwd)
    requires |s.tape.opVec| < |r.opVec| && OpHolds(r, |s.tape.opVec|, w', fwd)
    requires Agrees(t, j, need, s.newIndex, w, w')
    ensures Agrees(t, j + 1, need, KeepStep(t, j, keepCompare, need, s).newIndex, w, w')
  {
    AboveSentinel(t, j);
    ResBounds(t, j);
    var o := t.opVec[j];
    var c := t.conVec[t.argVec[o.argIndex]];
    var s' := KeepStep(t, j, keepCompare, need, s);
    assert s'.tape == Append(s.tape, Con, [|s.tape.conVec|], [c]);
    assert s'.newIndex == s.newIndex[o.resIndex := s.tape.nVal];
    NewConSolved(s.tape, r, w', fwd, c);
    AgreesStep(t, j, need, s.newIndex, s'.newIndex, w, w');
  }

  /** A complete call run reads the same in any extension of its operand array. */
  lemma HeaderExtends(u: seq<nat>, v: seq<nat>, a: nat)
    requires CallOp.HeaderFits(a, u) && |u| <= |v| && forall p :: 0 <= p < |u| ==> v[p] == u[p]
    ensures CallOp.HeaderFits(a, v)
    ensures CallOp.NArg(a, v) == CallOp.NArg(a, u) && CallOp.NRes(a, v) == CallOp.NRes(a, u)
    ensures CallOp.AtomicIndex(a, v) == CallOp.AtomicIndex(a, u) && CallOp.CallId(a, v) == CallOp.CallId(a, u)
    ensures CallOp.TrueArgs(a, v) == CallOp.TrueArgs(a, u)
  {
    assert v[a + 0] == u[a + 0] && v[a + 1] == u[a + 1] && v[a + 2] == u[a + 2] && v[a + 3] == u[a + 3];
  }

  /** A call run appended to `p` reads back, in any extension `r`, as the
      header and arguments it was recorded with. */
  lemma CallReadBack(p: TapeValue, r: TapeValue, ai: nat, ci: nat, m: nat, args: seq<nat>)
    requires ai != 0 && Extends(Append(p, Call, CallOp.CallRun(ai, ci, m, args), []), r)
    ensures |p.opVec| < |r.opVec| && r.opVec[|p.opVec|] == OpInfo(|p.argVec|, p.nVal, Call)
    ensures CallOp.HeaderFits(|p.argVec|, r.argVec)
    ensures CallOp.NArg(|p.argVec|, r.argVec) == CallOp.NAux + |args| && CallOp.NRes(|p.argVec|, r.argVec) == m
    ensures CallOp.AtomicIndex(|p.argVec|, r.argVec) == ai && CallOp.CallId(|p.argVec|, r.argVec) == ci
    ensures CallOp.TrueArgs(|p.argVec|, r.argVec) == args
  {
    var t' := Append(p, Call, CallOp.CallRun(ai, ci, m, args), []);
    assert t'.opVec[|p.opVec|] == OpInfo(|p.argVec|, p.nVal, Call);
    CallOp.HeaderRoundTrip(p.argVec, ai, ci, m, args);
    HeaderExtends(t'.argVec, r.argVec, |p.argVec|);
  }

  /** The call re-recorded at the end of `p` solves, in any solution `w'` of
      an extension `r`, to the bridge's outputs on the values its new
      arguments name. */
  lemma NewCallSolved(p: TapeValue, r: TapeValue, w': seq<Value>, fwd: CallOp.Forward,
                      ai: nat, ci: nat, m: nat, args: seq<nat>)
    requires ai != 0 && Extends(Append(p, Call, CallOp.CallRun(ai, ci, m, args), []), r)
    requires Recorded(r) && |w'| == r.nVal && |p.opVec| < |r.opVec| && OpHolds(r, |p.opVec|, w', fwd)
    ensures p.nVal + m <= |w'| && IndicesBelow(args, 0, |args|, |w'|)
    ensures var x' := Gather(w', args, 0, |args|);
            w'[p.nVal..p.nVal + m] == fwd(ai, ci, CallOp.AllVariable(|x'|), CallOp.AllSelected(m), x')
  {
    CallReadBack(p, r, ai, ci, m, args);
    ResBounds(r, |p.opVec|);
    InputsGather(r.argVec, |p.argVec|, p.nVal, w', args);
  }

  /** The inputs of a call run are the values its true arguments name. */
  lemma InputsGather(argVec: seq<nat>, a: nat, res: nat, w: seq<Value>, args: seq<nat>)
    requires CallOp.CallFits(a, argVec, res, |w|) && CallOp.TrueArgs(a, argVec) == args
    ensures IndicesBelow(args, 0, |args|, |w|)
    ensures CallOp.Inputs(a, argVec, res, w) == Gather(w, args, 0, |args|)
  {
    var x := CallOp.Inputs(a, argVec, res, w);
    forall k | 0 <= k < |args|
      ensures args[k] < |w| && x[k] == w[args[k]]
    {
      assert CallOp.TrueArgs(a, argVec)[k] == argVec[a + CallOp.NAux + k];
    }
  }

  /** An honest bridge gives the same flagged outputs on an input vector
      that carries the known values and any other that agrees with it where
      the reverse bridge says the flagged outputs look. */
  lemma HonestOutputs(fwd: CallOp.Forward, rev: CallOp.Reverse, ai: nat, ci: nat, cx: seq<Value>, dy: seq<bool>,
                      m: nat, x: seq<Value>, x': seq<Value>)
    requires CallOp.DependencyHonest(fwd, rev) && CallOp.ReverseSized(rev)
    requires CallOp.KnownIn(cx, x) && |x'| == |cx|
    requires forall k :: 0 <= k < |cx| && rev(ai, ci, cx, CallOp.TypeX(cx), dy)[k] ==> x[k] == x'[k]
    ensures forall i ::
              (0 <= i < |dy| && dy[i] &&
               i < |fwd(ai, ci, CallOp.AllVariable(|cx|), CallOp.AllSelected(m), x)| &&
               i < |fwd(ai, ci, CallOp.AllVariable(|cx|), CallOp.AllSelected(m), x')|) ==>
              fwd(ai, ci, CallOp.AllVariable(|cx|), CallOp.AllSelected(m), x)[i] ==
              fwd(ai, ci, CallOp.AllVariable(|cx|), CallOp.AllSelected(m), x')[i]
  {
    assert CallOp.HonestAt(fwd, rev, ai, ci, cx, CallOp.TypeX(cx), dy,
                           CallOp.AllVariable(|cx|), CallOp.AllSelected(m), x, x');
  }

  /** What the forward sweep does with a kept call. */
  lemma KeepCallStep(t: TapeValue, j: nat, keepCompare: bool, need: seq<bool>, s: Rebuild)
    requires Recorded(t) && j < |t.opVec| && |need| == t.nVal && |s.newIndex| == t.nVal
    requires Kept(t, j, keepCompare, need) && t.opVec[j].op.Call?
    ensures OpFits(t, j) && ResEnd(t, j) <= t.nVal
    ensures var a := t.opVec[j].argIndex;
            KeepStep(t, j, keepCompare, need, s) ==
              Rebuild(Append(s.tape, Call, CallOp.CallRun(CallOp.AtomicIndex(a, t.argVec), CallOp.CallId(a, t.argVec),
                                                          ResCount(t, j), CallArgs(t, j, need, s.newIndex)), []),
                      Renumber(s.newIndex, t.opVec[j].resIndex, ResCount(t, j), s.tape.nVal))
  {
    ResBounds(t, j);
  }

  /** `x` and `x'` have one entry per flag of `dx` and agree wherever it is set. */
  ghost predicate AgreeWhere(dx: seq<bool>, x: seq<Value>, x': seq<Value>)
  {
    |x| == |dx| && |x'| == |dx| && forall k :: 0 <= k < |dx| && dx[k] ==> x[k] == x'[k]
  }

  /** Where the bridge says the needed results of a kept call look, the new
      call's inputs have the old call's values. */
  lemma CallInputsAgree(t: TapeValue, j: nat, need: seq<bool>, s: Rebuild, w: seq<Value>, w': seq<Value>,
                        conVals: seq<Value>, rev: CallOp.Reverse)
    requires WellFormed(t) && 1 <= j < |t.opVec| && RebuildInv(t, j, need, s) && t.opVec[j].op.Call?
    requires |conVals| == t.nVal && CallOp.ReverseSized(rev) && CallClosedAt(t, j, conVals, rev, need)
    requires |w| == t.nVal && Agrees(t, j, need, s.newIndex, w, w')
    requires IndicesBelow(CallArgs(t, j, need, s.newIndex), 0, |CallArgs(t, j, need, s.newIndex)|, |w'|)
    ensures OpFits(t, j) && ResEnd(t, j) <= t.nVal
    ensures var o := t.opVec[j];
            var args := CallArgs(t, j, need, s.newIndex);
            var cx := CallOp.Inputs(o.argIndex, t.argVec, o.resIndex, conVals);
            var x := CallOp.Inputs(o.argIndex, t.argVec, o.resIndex, w);
            var x' := Gather(w', args, 0, |args|);
            |x| == |cx| &&
            AgreeWhere(rev(CallOp.AtomicIndex(o.argIndex, t.argVec), CallOp.CallId(o.argIndex, t.argVec), cx,
                           CallOp.TypeX(cx), need[o.resIndex..o.resIndex + ResCount(t, j)]), x, x')
  {
    AboveSentinel(t, j);
    ResBounds(t, j);
    var o := t.opVec[j];
    var args := CallArgs(t, j, need, s.newIndex);
    var x := CallOp.Inputs(o.argIndex, t.argVec, o.resIndex, w);
    var x' := Gather(w', args, 0, |args|);
    var dx := NeedDependX(t, j, conVals, rev, need);
    assert |x| == |dx|;
    forall k | 0 <= k < |x| && dx[k]
      ensures x[k] == x'[k]
    {
      var v := t.argVec[o.argIndex + CallOp.NAux + k];
      assert need[v];
      assert args[k] == s.newIndex[v];
    }
  }

  /** Every needed value among the `m` starting at `res` has, in `w'`, at the
      same offset from `base`, the value it has in `w`. */
  ghost predicate RunMapped(need: seq<bool>, res: nat, m: nat, base: nat, w: seq<Value>, w': seq<Value>)
  {
    res + m <= |need| &&
    forall v :: res <= v < res + m && need[v] ==> base + (v - res) < |w'| && v < |w| && w'[base + (v - res)] == w[v]
  }

  /** Two result runs that agree at every output whose result is needed
      agree at every needed result. */
  lemma RunsAgree(w: seq<Value>, w': seq<Value>, need: seq<bool>, res: nat, base: nat, dy: seq<bool>,
                  y: seq<Value>, y': seq<Value>)
    requires res + |dy| <= |need| && dy == need[res..res + |dy|] && res + |dy| <= |w| && base + |dy| <= |w'|
    requires w[res..res + |dy|] == y && w'[base..base + |dy|] == y'
    requires forall i :: (0 <= i < |dy| && dy[i] && i < |y| && i < |y'|) ==> y[i] == y'[i]
    ensures RunMapped(need, res, |dy|, base, w, w')
  {
    forall v | res <= v < res + |dy| && need[v]
      ensures base + (v - res) < |w'| && w'[base + (v - res)] == w[v]
    {
      assert dy[v - res];
      assert y[v - res] == w[v] && y'[v - res] == w'[base + (v - res)];
    }
  }

  /** Results whose runs agree where they are needed agree through the renumbering. */
  lemma RenumberAgrees(need: seq<bool>, ni: seq<nat>, res: nat, m: nat, base: nat, w: seq<Value>, w': seq<Value>)
    requires |need| == |ni| && RunMapped(need, res, m, base, w, w')
    ensures forall v :: res <= v < res + m && need[v] ==>
              Renumber(ni, res, m, base)[v] < |w'| && w'[Renumber(ni, res, m, base)[v]] == w[v]
  {
  }

  /** The old call at `res` and the new call at `base` ran the bridge `ai`,
      `ci` on inputs `x`, which carries the known values `cx`, and `x'`,
      which agree wherever the old call's needed results depend on them. */
  ghost predicate CallFacts(w: seq<Value>, w': seq<Value>, need: seq<bool>, res: nat, base: nat, m: nat,
                            fwd: CallOp.Forward, rev: CallOp.Reverse, ai: nat, ci: nat,
                            cx: seq<Value>, x: seq<Value>, x': seq<Value>)
  {
    res + m <= |need| && res + m <= |w| && base + m <= |w'| && CallOp.KnownIn(cx, x) &&
    AgreeWhere(rev(ai, ci, cx, CallOp.TypeX(cx), need[res..res + m]), x, x') &&
    w[res..res + m] == fwd(ai, ci, CallOp.AllVariable(|x|), CallOp.AllSelected(m), x) &&
    w'[base..base + m] == fwd(ai, ci, CallOp.AllVariable(|x'|), CallOp.AllSelected(m), x')
  }

  /** Each needed result of a call has the same value in two result runs
      when an honest bridge computed them from inputs that agree wherever
      the reverse bridge says the needed results look. */
  lemma CallResultsAgree(w: seq<Value>, w': seq<Value>, need: seq<bool>, res: nat, base: nat, m: nat,
                         fwd: CallOp.Forward, rev: CallOp.Reverse, ai: nat, ci: nat,
                         cx: seq<Value>, x: seq<Value>, x': seq<Value>)
    requires CallOp.DependencyHonest(fwd, rev) && CallOp.ReverseSized(rev)
    requires CallFacts(w, w', need, res, base, m, fwd, rev, ai, ci, cx, x, x')
    ensures RunMapped(need, res, m, base, w, w')
  {
    var dy := need[res..res + m];
    HonestOutputs(fwd, rev, ai, ci, cx, dy, m, x, x');
    RunsAgree(w, w', need, res, base, dy, fwd(ai, ci, CallOp.AllVariable(|cx|), CallOp.AllSelected(m), x),
              fwd(ai, ci, CallOp.AllVariable(|cx|), CallOp.AllSelected(m), x'));
  }

  /** Agreement moves past call `j` when each of its needed results has its
      value in the run starting at `base`, where the renumbering sends it. */
  lemma AgreesRenumbered(t: TapeValue, j: nat, need: seq<bool>, ni: seq<nat>, base: nat, w: seq<Value>, w': seq<Value>)
    requires WellFormed(t) && 1 <= j < |t.opVec| && |need| == t.nVal && |ni| == t.nVal && |w| == t.nVal
    requires OpFits(t, j) && ResEnd(t, j) <= t.nVal
    requires RunMapped(need, t.opVec[j].resIndex, ResCount(t, j), base, w, w')
    requires Agrees(t, j, need, ni, w, w')
    ensures Agrees(t, j + 1, need, Renumber(ni, t.opVec[j].resIndex, ResCount(t, j), base), w, w')
  {
    var res, m := t.opVec[j].resIndex, ResCount(t, j);
    RenumberAgrees(need, ni, res, m, base, w, w');
    AgreesStep(t, j, need, ni, Renumber(ni, res, m, base), w, w');
  }

  /** The old call's results are the bridge's outputs on its inputs. */
  lemma OldCallSolved(t: TapeValue, j: nat, w: seq<Value>, fwd: CallOp.Forward)
    requires Recorded(t) && j < |t.opVec| && t.opVec[j].op.Call? && |w| == t.nVal && OpHolds(t, j, w, fwd)
    ensures OpFits(t, j) && ResEnd(t, j) <= t.nVal
    ensures var o := t.opVec[j];
            var x := CallOp.Inputs(o.argIndex, t.argVec, o.resIndex, w);
            w[o.resIndex..o.resIndex + ResCount(t, j)] ==
              fwd(CallOp.AtomicIndex(o.argIndex, t.argVec), CallOp.CallId(o.argIndex, t.argVec),
                  CallOp.AllVariable(|x|), CallOp.AllSelected(ResCount(t, j)), x)
  {
    ResBounds(t, j);
  }

  /** The bridge query behind a kept call and its re-recording: the old and
      new calls' inputs `x` and `x'` agree wherever the reverse bridge, asked
      about the needed results, says they matter, and each call's result run
      holds the forward bridge's outputs on its inputs. */
  lemma CallQuery(t: TapeValue, j: nat, need: seq<bool>, s: Rebuild,
                  r: TapeValue, w: seq<Value>, w': seq<Value>,
                  conVals: seq<Value>, fwd: CallOp.Forward, rev: CallOp.Reverse)
    returns (ai: nat, ci: nat, cx: seq<Value>, x: seq<Value>, x': seq<Value>)
    requires WellFormed(t) && 1 <= j < |t.opVec| && RebuildInv(t, j, need, s) && t.opVec[j].op.Call?
    requires |conVals| == t.nVal && CallOp.ReverseSized(rev) && CallOp.DependencyHonest(fwd, rev)
    requires CallClosedAt(t, j, conVals, rev, need)
    requires OpFits(t, j) && ResEnd(t, j) <= t.nVal
    requires var a := t.opVec[j].argIndex;
             Recorded(r) &&
             Extends(Append(s.tape, Call, CallOp.CallRun(CallOp.AtomicIndex(a, t.argVec), CallOp.CallId(a, t.argVec),
                                                         ResCount(t, j), CallArgs(t, j, need, s.newIndex)), []), r)
    requires |w| == t.nVal && |w'| == r.nVal && CallOp.KnownIn(conVals, w) && OpHolds(t, j, w, fwd)
    requires |s.tape.opVec| < |r.opVec| && OpHolds(r, |s.tape.opVec|, w', fwd)
    requires Agrees(t, j, need, s.newIndex, w, w')
    ensures CallFacts(w, w', need, t.opVec[j].resIndex, s.tape.nVal, ResCount(t, j), fwd, rev, ai, ci, cx, x, x')
  {
    var o := t.opVec[j];
    var a, res := o.argIndex, o.resIndex;
    var args := CallArgs(t, j, need, s.newIndex);
    ai, ci := CallOp.AtomicIndex(a, t.argVec), CallOp.CallId(a, t.argVec);
    NewCallSolved(s.tape, r, w', fwd, ai, ci, ResCount(t, j), args);
    CallInputsAgree(t, j, need, s, w, w', conVals, rev);
    OldCallSolved(t, j, w, fwd);
    cx, x, x' := CallOp.Inputs(a, t.argVec, res, conVals), CallOp.Inputs(a, t.argVec, res, w), Gather(w', args, 0, |args|);
    CallOp.InputsKnown(a, t.argVec, res, conVals, w);
  }

  /** Re-recording a kept call maps each of its needed results to the
      matching result of the new call: the new call's inputs agree with the
      old call's on every input the needed results depend on, so an honest
      bridge gives both the same needed outputs. */
  lemma AgreesCall(t: TapeValue, j: nat, need: seq<bool>, s: Rebuild,
                   r: TapeValue, w: seq<Value>, w': seq<Value>,
                   conVals: seq<Value>, fwd: CallOp.Forward, rev: CallOp.Reverse)
    requires WellFormed(t) && 1 <= j < |t.opVec| && RebuildInv(t, j, need, s) && t.opVec[j].op.Call?
    requires |conVals| == t.nVal && CallOp.ReverseSized(rev) && CallOp.DependencyHonest(fwd, rev)
    requires CallClosedAt(t, j, conVals, rev, need)
    requires OpFits(t, j) && ResEnd(t, j) <= t.nVal
    requires var a := t.opVec[j].argIndex;
             Recorded(r) &&
             Extends(Append(s.tape, Call, CallOp.CallRun(CallOp.AtomicIndex(a, t.argVec), CallOp.CallId(a, t.argVec),
                                                         ResCount(t, j), CallArgs(t, j, need, s.newIndex)), []), r)
    requires |w| == t.nVal && |w'| == r.nVal && CallOp.KnownIn(conVals, w) && OpHolds(t, j, w, fwd)
    requires |s.tape.opVec| < |r.opVec| && OpHolds(r, |s.tape.opVec|, w', fwd)
    requires Agrees(t, j, need, s.newIndex, w, w')
    ensures Agrees(t, j + 1, need, Renumber(s.newIndex, t.opVec[j].resIndex, ResCount(t, j), s.tape.nVal), w, w')
  {
    var ai, ci, cx, x, x' := CallQuery(t, j, need, s, r, w, w', conVals, fwd, rev);
    CallResultsAgree(w, w', need, t.opVec[j].resIndex, s.tape.nVal, ResCount(t, j), fwd, rev, ai, ci, cx, x, x');
    AgreesRenumbered(t, j, need, s.newIndex, s.tape.nVal, w, w');
  }


  /** One step of the forward sweep keeps the agreement, whatever it does
      with invocation `j`. */
  lemma AgreesKeep(t: TapeValue, j: nat, keepCompare: bool, need: seq<bool>, s: Rebuild,
                   r: TapeValue, w: seq<Value>, w': seq<Value>,
                   conVals: seq<Value>, fwd: CallOp.Forward, rev: CallOp.Reverse)
    requires WellFormed(t) && 1 <= j < |t.opVec| && RebuildInv(t, j, need, s) && NeedClosedAt(t, j, keepCompare, need)
    requires |conVals| == t.nVal && CallOp.ReverseSized(rev) && CallOp.DependencyHonest(fwd, rev)
    requires t.opVec[j].op.Call? ==> CallClosedAt(t, j, conVals, rev, need)
    requires Recorded(r) && Extends(KeepStep(t, j, keepCompare, need, s).tape, r)
    requires |w| == t.nVal && |w'| == r.nVal && CallOp.KnownIn(conVals, w)
    requires OpHolds(t, j, w, fwd) && forall q :: 0 <= q < |r.opVec| ==> OpHolds(r, q, w', fwd)
    requires Agrees(t, j, need, s.newIndex, w, w')
    ensures Agrees(t, j + 1, need, KeepStep(t, j, keepCompare, need, s).newIndex, w, w')
  {
    if !Kept(t, j, keepCompare, need) {
      AgreesUnchanged(t, j, keepCompare, need, s, w, w');
    } else {
      match t.opVec[j].op
      case Add => AgreesBinary(t, j, keepCompare, need, s, r, w, w', fwd);
      case Sub => AgreesBinary(t, j, keepCompare, need, s, r, w, w', fwd);
      case Con => AgreesCon(t, j, keepCompare, need, s, r, w, w', fwd);
      case Comp => AgreesUnchanged(t, j, keepCompare, need, s, w, w');
      case Call =>
        KeepCallStep(t, j, keepCompare, need, s);
        AgreesCall(t, j, need, s, r, w, w', conVals, fwd, rev);
    }
  }

  /** Extension is transitive. */
  lemma ExtendsTrans(a: TapeValue, b: TapeValue, c: TapeValue)
    requires Extends(a, b) && Extends(b, c)
    ensures Extends(a, c)
  {
  }

  /** Every call of the tape reads what its needed results depend on. */
  ghost predicate CallsClosed(t: TapeValue, conVals: seq<Value>, rev: CallOp.Reverse, need: seq<bool>)
    requires Recorded(t) && |conVals| == t.nVal && |need| == t.nVal && CallOp.ReverseSized(rev)
  {
    forall j :: 0 <= j < |t.opVec| && t.opVec[j].op.Call? ==> CallClosedAt(t, j, conVals, rev, need)
  }

  /** The corrected sweep accounts for every call of the tape. */
  lemma NeedsCallsClosed(t: TapeValue, keepCompare: bool, conVals: seq<Value>, rev: CallOp.Reverse)
    requires Recorded(t) && |conVals| == t.nVal && CallOp.ReverseSized(rev)
    ensures CallsClosed(t, conVals, rev, Needs(t, keepCompare, conVals, rev, Corrected))
  {
    forall j | 0 <= j < |t.opVec| && t.opVec[j].op.Call?
      ensures CallClosedAt(t, j, conVals, rev, Needs(t, keepCompare, conVals, rev, Corrected))
    {
      NeedsCallClosedAt(t, j, keepCompare, conVals, rev);
    }
  }

  /** Step `i - 1` of the whole forward sweep keeps the agreement. */
  lemma RebuildAgreesStep(t: TapeValue, i: nat, keepCompare: bool, need: seq<bool>,
                          r: TapeValue, w: seq<Value>, w': seq<Value>,
                          conVals: seq<Value>, fwd: CallOp.Forward, rev: CallOp.Reverse)
    requires WellFormed(t) && 1 < i <= |t.opVec| && NeedClosed(t, keepCompare, need)
    requires |conVals| == t.nVal && CallOp.ReverseSized(rev) && CallOp.DependencyHonest(fwd, rev)
    requires t.opVec[i - 1].op.Call? ==> CallClosedAt(t, i - 1, conVals, rev, need)
    requires Recorded(r) && Extends(RebuildUpTo(t, |t.opVec|, keepCompare, need).tape, r)
    requires |w| == t.nVal && |w'| == r.nVal && CallOp.KnownIn(conVals, w)
    requires OpHolds(t, i - 1, w, fwd) && forall q :: 0 <= q < |r.opVec| ==> OpHolds(r, q, w', fwd)
    requires Agrees(t, i - 1, need, RebuildUpTo(t, i - 1, keepCompare, need).newIndex, w, w')
    ensures Agrees(t, i, need, RebuildUpTo(t, i, keepCompare, need).newIndex, w, w')
  {
    var s := RebuildUpTo(t, i - 1, keepCompare, need);
    RebuildUpToInv(t, i - 1, keepCompare, need);
    RebuildUpToExtends(t, i, |t.opVec|, keepCompare, need);
    ExtendsTrans(RebuildUpTo(t, i, keepCompare, need).tape, RebuildUpTo(t, |t.opVec|, keepCompare, need).tape, r);
    assert NeedClosedAt(t, i - 1, keepCompare, need);
    AgreesKeep(t, i - 1, keepCompare, need, s, r, w, w', conVals, fwd, rev);
  }

  /** The forward sweep keeps the agreement from its start up to step `i`. */
  lemma {:induction false} RebuildAgrees(t: TapeValue, i: nat, keepCompare: bool, need: seq<bool>,
                                         r: TapeValue, w: seq<Value>, w': seq<Value>,
                                         conVals: seq<Value>, fwd: CallOp.Forward, rev: CallOp.Reverse)
    requires WellFormed(t) && 1 <= i <= |t.opVec| && NeedClosed(t, keepCompare, need)
    requires |conVals| == t.nVal && CallOp.ReverseSized(rev) && CallOp.DependencyHonest(fwd, rev)
    requires CallsClosed(t, conVals, rev, need)
    requires Recorded(r) && Extends(RebuildUpTo(t, |t.opVec|, keepCompare, need).tape, r)
    requires |w| == t.nVal && |w'| == r.nVal && CallOp.KnownIn(conVals, w)
    requires forall j :: 0 <= j < |t.opVec| ==> OpHolds(t, j, w, fwd)
    requires forall q :: 0 <= q < |r.opVec| ==> OpHolds(r, q, w', fwd)
    requires Agrees(t, 1, need, Start(t).newIndex, w, w')
    ensures Agrees(t, i, need, RebuildUpTo(t, i, keepCompare, need).newIndex, w, w')
    decreases i
  {
    if 1 < i {
      RebuildAgrees(t, i - 1, keepCompare, need, r, w, w', conVals, fwd, rev);
      RebuildAgreesStep(t, i, keepCompare, need, r, w, w', conVals, fwd, rev);
    }
  }

  /** The forward sweep starts in agreement: both buffers hold the same
      independents and the not-a-number sentinel right after them. */
  lemma StartAgrees(t: TapeValue, r: TapeValue, need: seq<bool>, w: seq<Value>, w': seq<Value>, fwd: CallOp.Forward)
    requires WellFormed(t) && WellFormed(r) && r.nInd == t.nInd && |need| == t.nVal
    requires |w| == t.nVal && |w'| == r.nVal && OpHolds(t, 0, w, fwd) && OpHolds(r, 0, w', fwd)
    requires forall v :: 0 <= v < t.nInd ==> w'[v] == w[v]
    ensures Agrees(t, 1, need, Start(t).newIndex, w, w')
  {
    FrontierStep(t, 0);
    ResBounds(t, 0);
    ResBounds(r, 0);
  }

  /** The independent values `ind` followed by not-a-number in every other of
      the `n` slots. */
  function Padded(ind: seq<Value>, n: nat): (vals: seq<Value>)
    requires |ind| <= n
    ensures |vals| == n && vals[..|ind|] == ind
    ensures forall v :: |ind| <= v < n ==> vals[v].Nan?
  {
    ind + seq(n - |ind|, _ => Nan)
  }

  /** dead_code keeps what the tape computes: on the same independent
      values, each dependent of the rebuilt tape evaluates to the value of
      the corresponding dependent of the original tape. The need sweep
      consults the known values of the all-NaN evaluation, as dead_code
      does; the forward bridge must not launder NaN, and each reverse
      bridge must be honest about its forward bridge on inputs that carry
      those known values. */
  lemma DeadCodePreservesValues(t: TapeValue, keepCompare: bool, rev: CallOp.Reverse, fwd: CallOp.Forward, ind: seq<Value>)
    requires WellFormed(t) && CallOp.ReverseSized(rev) && CallOp.ForwardSized(fwd) && CallOp.ForwardMonotone(fwd)
    requires CallOp.DependencyHonest(fwd, rev) && |ind| == t.nInd
    ensures var r := DeadCodeResult(t, keepCompare, NanValues(t, fwd), rev, Corrected);
            WellFormed(r) && r.nInd == t.nInd && |r.depVec| == |t.depVec|
    ensures var r := DeadCodeResult(t, keepCompare, NanValues(t, fwd), rev, Corrected);
            forall k :: 0 <= k < |t.depVec| ==>
              EvalAll(r, Padded(ind, r.nVal), fwd)[r.depVec[k]] == EvalAll(t, Padded(ind, t.nVal), fwd)[t.depVec[k]]
  {
    var conVals := NanValues(t, fwd);
    var need := Needs(t, keepCompare, conVals, rev, Corrected);
    DeadCodeWellFormed(t, keepCompare, conVals, rev);
    NeedsClosed(t, keepCompare, conVals, rev);
    NeedsCallsClosed(t, keepCompare, conVals, rev);
    var n := |t.opVec|;
    var s := RebuildUpTo(t, n, keepCompare, need);
    var r := DeadCodeResult(t, keepCompare, conVals, rev, Corrected);
    assert r == s.tape.(depVec := MapThrough(s.newIndex, t.depVec));
    assert Extends(s.tape, r);
    var vals, vals' := Padded(ind, t.nVal), Padded(ind, r.nVal);
    var w, w' := EvalAll(t, vals, fwd), EvalAll(r, vals', fwd);
    EvalAllSolves(t, vals, fwd);
    EvalAllSolves(r, vals', fwd);
    NanPoisonSound(t, vals, fwd);
    assert CallOp.KnownIn(conVals, w);
    forall v | 0 <= v < t.nInd
      ensures w'[v] == w[v]
    {
      assert vals[..|ind|][v] == vals'[..|ind|][v];
    }
    StartAgrees(t, r, need, w, w', fwd);
    RebuildAgrees(t, n, keepCompare, need, r, w, w', conVals, fwd, rev);
    forall k | 0 <= k < |t.depVec|
      ensures w'[r.depVec[k]] == w[t.depVec[k]]
    {
      assert need[t.depVec[k]];
    }
  }
}
