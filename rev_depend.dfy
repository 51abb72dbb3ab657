/** Reverse dependency analysis of a value-graph tape (tape_t::rev_depend).
    Sweeping the invocations from last to first, every value gets a use case:
    0 when nothing that matters reads it, 1 after one counted use, 2 when it
    is a dependent or has been counted more than once. An invocation counts
    as a use of its operands only when its own result is in use; a call asks
    its atomic function which arguments its used outputs depend on. */
module RevDependPass {
  import opened Values
  import opened Runs
  import opened OpKinds
  import CallOp
  import opened ValGraph

  /** One more use of a value: none becomes one, anything else becomes many. */
  function Bump(u: nat): (r: nat)
    ensures 0 < r <= 2
    ensures u <= 2 ==> u <= r
  {
    if u == 0 then 1 else 2
  }

  /** Every count is 0, 1 or 2. */
  ghost predicate Within(use: seq<nat>)
  {
    forall v :: 0 <= v < |use| ==> use[v] <= 2
  }

  /** Counts only grow from `use` to `r`. */
  ghost predicate Grows(use: seq<nat>, r: seq<nat>)
  {
    |use| == |r| && forall v :: 0 <= v < |use| ==> use[v] <= r[v]
  }

  /** Counts one use of each value named by `argVec[lo..hi)`, in order. */
  function BumpRun(use: seq<nat>, argVec: seq<nat>, lo: nat, hi: nat): (r: seq<nat>)
    requires lo <= hi <= |argVec| && IndicesBelow(argVec, lo, hi, |use|)
    ensures |r| == |use|
    ensures forall p :: lo <= p < hi ==> r[argVec[p]] != 0
    ensures forall v :: 0 <= v < |use| && Untouched(argVec, lo, hi, v) ==> r[v] == use[v]
    ensures Within(use) ==> Within(r) && Grows(use, r)
    decreases hi - lo
  {
    if hi == lo then use
    else
      var prev := BumpRun(use, argVec, lo, hi - 1);
      prev[argVec[hi - 1] := Bump(prev[argVec[hi - 1]])]
  }

  /** Counts one use of the value named by `argVec[lo + k]` for each `k` whose flag is set. */
  function BumpSelected(use: seq<nat>, argVec: seq<nat>, lo: nat, flags: seq<bool>): (r: seq<nat>)
    requires lo + |flags| <= |argVec| && IndicesBelow(argVec, lo, lo + |flags|, |use|)
    ensures |r| == |use|
    ensures forall k :: 0 <= k < |flags| && flags[k] ==> r[argVec[lo + k]] != 0
    ensures forall v :: 0 <= v < |use| && Untouched(argVec, lo, lo + |flags|, v) ==> r[v] == use[v]
    ensures Within(use) ==> Within(r) && Grows(use, r)
    decreases |flags|
  {
    if |flags| == 0 then use
    else
      var last := lo + |flags| - 1;
      var prev := BumpSelected(use, argVec, lo, flags[..|flags| - 1]);
      if flags[|flags| - 1] then prev[argVec[last] := Bump(prev[argVec[last]])] else prev
  }

  /** Which of the `n` results starting at `res` are in use. */
  function Used(use: seq<nat>, res: nat, n: nat): (dy: seq<bool>)
    requires res + n <= |use|
    ensures |dy| == n && forall i :: 0 <= i < n ==> dy[i] == (use[res + i] != 0)
  {
    seq(n, i requires 0 <= i < n => use[res + i] != 0)
  }

  /** The arguments of call `j` that its in-use results depend on. */
  function CallDepend(t: TapeValue, j: nat, conVals: seq<Value>, rev: CallOp.Reverse, use: seq<nat>): (dx: seq<bool>)
    requires Recorded(t) && j < |t.opVec| && t.opVec[j].op.Call?
    requires |conVals| == t.nVal && |use| == t.nVal && CallOp.ReverseSized(rev)
    ensures HeaderOk(t, j) && FirstOperand(t, j) + |dx| == LastOperand(t, j)
  {
    ResBounds(t, j);
    var o := t.opVec[j];
    CallOp.DependX(o.argIndex, t.argVec, o.resIndex, conVals, Used(use, o.resIndex, ResCount(t, j)), rev)
  }

  /** A value-producing invocation other than a call: if its result is in
      use, each of its value operands gains a use. */
  function OperandUse(t: TapeValue, j: nat, use: seq<nat>): (r: seq<nat>)
    requires Recorded(t) && j < |t.opVec| && !t.opVec[j].op.Call? && 0 < ResCount(t, j)
    requires |use| == t.nVal
    ensures |r| == |use|
    ensures forall v :: t.opVec[j].resIndex <= v < |use| ==> r[v] == use[v]
    ensures Within(use) ==> Within(r) && Grows(use, r)
  {
    ResBounds(t, j);
    if use[t.opVec[j].resIndex] != 0 then BumpRun(use, t.argVec, FirstOperand(t, j), LastOperand(t, j)) else use
  }

  /** A call with results: each argument its in-use results depend on gains a use. */
  function CallUse(t: TapeValue, j: nat, conVals: seq<Value>, rev: CallOp.Reverse, use: seq<nat>): (r: seq<nat>)
    requires Recorded(t) && j < |t.opVec| && t.opVec[j].op.Call?
    requires |conVals| == t.nVal && |use| == t.nVal && CallOp.ReverseSized(rev)
    ensures |r| == |use|
    ensures forall v :: t.opVec[j].resIndex <= v < |use| ==> r[v] == use[v]
    ensures Within(use) ==> Within(r) && Grows(use, r)
  {
    ResBounds(t, j);
    BumpSelected(use, t.argVec, FirstOperand(t, j), CallDepend(t, j, conVals, rev, use))
  }

  /** The counts after invocation `j` is processed: it touches only its own
      operands, all of which precede its results; one without results
      (a comparison, or a call with no results) changes nothing. */
  function UseStep(t: TapeValue, j: nat, conVals: seq<Value>, rev: CallOp.Reverse, use: seq<nat>): (r: seq<nat>)
    requires Recorded(t) && j < |t.opVec|
    requires |conVals| == t.nVal && |use| == t.nVal && CallOp.ReverseSized(rev)
    ensures |r| == |use|
    ensures forall v :: t.opVec[j].resIndex <= v < |use| ==> r[v] == use[v]
    ensures Within(use) ==> Within(r) && Grows(use, r)
  {
    HeaderAt(t, j);
    if 0 < ResCount(t, j) && !t.opVec[j].op.Call? then OperandUse(t, j, use)
    else if 0 < ResCount(t, j) then CallUse(t, j, conVals, rev, use)
    else use
  }

  /** What one step changes: nothing for an invocation without results or
      for an unused add, sub or constant load; otherwise only the counts of
      its own value operands (never a header word or a pool index), which
      become nonzero when the step counts them. */
  lemma UseStepEffect(t: TapeValue, j: nat, conVals: seq<Value>, rev: CallOp.Reverse, use: seq<nat>)
    requires Recorded(t) && j < |t.opVec|
    requires |conVals| == t.nVal && |use| == t.nVal && CallOp.ReverseSized(rev)
    ensures HeaderOk(t, j) && t.opVec[j].resIndex + ResCount(t, j) <= t.nVal
    ensures FirstOperand(t, j) <= LastOperand(t, j) <= |t.argVec|
    ensures IndicesBelow(t.argVec, FirstOperand(t, j), LastOperand(t, j), t.nVal)
    ensures var r := UseStep(t, j, conVals, rev, use);
            (ResCount(t, j) == 0 || (!t.opVec[j].op.Call? && use[t.opVec[j].resIndex] == 0)) ==> r == use
    ensures var r := UseStep(t, j, conVals, rev, use);
            forall v :: 0 <= v < |use| && Untouched(t.argVec, FirstOperand(t, j), LastOperand(t, j), v) ==> r[v] == use[v]
    ensures var r := UseStep(t, j, conVals, rev, use);
            0 < ResCount(t, j) && !t.opVec[j].op.Call? && use[t.opVec[j].resIndex] != 0 ==>
              forall p :: FirstOperand(t, j) <= p < LastOperand(t, j) ==> r[t.argVec[p]] != 0
    ensures 0 < ResCount(t, j) && t.opVec[j].op.Call? ==>
              var r := UseStep(t, j, conVals, rev, use);
              var dx := CallDepend(t, j, conVals, rev, use);
              forall k :: 0 <= k < |dx| && dx[k] ==> r[t.argVec[FirstOperand(t, j) + k]] != 0
  {
    ResBounds(t, j);
  }

  /** Before the sweep: dependents are 2, everything else 0. */
  function InitUse(t: TapeValue): (r: seq<nat>)
    requires Recorded(t)
    ensures |r| == t.nVal
    ensures forall k :: 0 <= k < |t.depVec| ==> r[t.depVec[k]] == 2
    ensures forall v :: 0 <= v < t.nVal && v !in t.depVec ==> r[v] == 0
  {
    SetAll(seq(t.nVal, _ => 0), t.depVec, 2)
  }

  /** The counts once invocations `|opVec| - 1` down to `i` are processed. */
  function UseFrom(t: TapeValue, i: nat, conVals: seq<Value>, rev: CallOp.Reverse): (r: seq<nat>)
    requires Recorded(t) && i <= |t.opVec| && |conVals| == t.nVal && CallOp.ReverseSized(rev)
    ensures |r| == t.nVal
    decreases |t.opVec| - i
  {
    if i == |t.opVec| then InitUse(t) else UseStep(t, i, conVals, rev, UseFrom(t, i + 1, conVals, rev))
  }

  /** The result of the sweep, given the values `conVals` known without the independents. */
  function UseCases(t: TapeValue, conVals: seq<Value>, rev: CallOp.Reverse): (r: seq<nat>)
    requires Recorded(t) && |conVals| == t.nVal && CallOp.ReverseSized(rev)
    ensures |r| == t.nVal && Within(r)
    ensures forall k :: 0 <= k < |t.depVec| ==> r[t.depVec[k]] == 2
  {
    UseFromWithin(t, 0, conVals, rev);
    UseFrom(t, 0, conVals, rev)
  }

  // ---------------------------------------------------------------------
  // What the sweep guarantees

  /** Counts stay within 0..2 and dependents stay at 2. */
  lemma {:induction false} UseFromWithin(t: TapeValue, i: nat, conVals: seq<Value>, rev: CallOp.Reverse)
    requires Recorded(t) && i <= |t.opVec| && |conVals| == t.nVal && CallOp.ReverseSized(rev)
    ensures Within(UseFrom(t, i, conVals, rev))
    ensures forall k :: 0 <= k < |t.depVec| ==> UseFrom(t, i, conVals, rev)[t.depVec[k]] == 2
    decreases |t.opVec| - i
  {
    if i < |t.opVec| {
      UseFromWithin(t, i + 1, conVals, rev);
    }
  }

  /** Counts only grow as the sweep moves to earlier invocations. */
  lemma {:induction false} UseFromGrows(t: TapeValue, i: nat, j: nat, conVals: seq<Value>, rev: CallOp.Reverse)
    requires Recorded(t) && i <= j <= |t.opVec| && |conVals| == t.nVal && CallOp.ReverseSized(rev)
    ensures Grows(UseFrom(t, j, conVals, rev), UseFrom(t, i, conVals, rev))
    decreases j - i
  {
    if i < j {
      UseFromGrows(t, i + 1, j, conVals, rev);
      UseFromWithin(t, i + 1, conVals, rev);
    }
  }

  /** Once invocation `j` is processed, no count at or above its results changes again. */
  lemma {:induction false} UseFromFrame(t: TapeValue, i: nat, j: nat, conVals: seq<Value>, rev: CallOp.Reverse)
    requires Recorded(t) && i <= j < |t.opVec| && |conVals| == t.nVal && CallOp.ReverseSized(rev)
    ensures forall v :: t.opVec[j].resIndex <= v < t.nVal ==>
              UseFrom(t, i, conVals, rev)[v] == UseFrom(t, j + 1, conVals, rev)[v]
    decreases j - i
  {
    if i < j {
      UseFromFrame(t, i + 1, j, conVals, rev);
      ResOrder(t, i, j);
      ResBounds(t, i);
      var later := UseFrom(t, i + 1, conVals, rev);
      UseStepEffect(t, i, conVals, rev, later);
      assert UseFrom(t, i, conVals, rev) == UseStep(t, i, conVals, rev, later);
      assert forall v :: t.opVec[j].resIndex <= v < t.nVal ==>
        Untouched(t.argVec, FirstOperand(t, i), LastOperand(t, i), v);
    }
  }

  /** Invocation `j` is accounted for in `use`: if it has results and the
      ones it reads are in use, so is everything it reads. */
  ghost predicate ClosedAt(t: TapeValue, j: nat, conVals: seq<Value>, rev: CallOp.Reverse, use: seq<nat>)
    requires Recorded(t) && j < |t.opVec|
    requires |conVals| == t.nVal && |use| == t.nVal && CallOp.ReverseSized(rev)
  {
    ResBounds(t, j);
    var o := t.opVec[j];
    0 < ResCount(t, j) ==>
      if !o.op.Call? then
        use[o.resIndex] != 0 ==>
          forall p :: FirstOperand(t, j) <= p < LastOperand(t, j) ==> use[t.argVec[p]] != 0
      else
        var dx := CallDepend(t, j, conVals, rev, use);
        forall k :: 0 <= k < |dx| && dx[k] ==> use[t.argVec[FirstOperand(t, j) + k]] != 0
  }

  /** The sweep accounts for invocation `j`. */
  lemma UseCasesClosedAt(t: TapeValue, j: nat, conVals: seq<Value>, rev: CallOp.Reverse)
    requires Recorded(t) && j < |t.opVec| && |conVals| == t.nVal && CallOp.ReverseSized(rev)
    ensures ClosedAt(t, j, conVals, rev, UseCases(t, conVals, rev))
  {
    ResBounds(t, j);
    var before := UseFrom(t, j + 1, conVals, rev);
    var after := UseFrom(t, j, conVals, rev);
    var final := UseCases(t, conVals, rev);
    UseFromFrame(t, 0, j, conVals, rev);
    UseFromGrows(t, 0, j, conVals, rev);
    UseFromWithin(t, j, conVals, rev);
    var o := t.opVec[j];
    if 0 < ResCount(t, j) && o.op.Call? {
      assert Used(final, o.resIndex, ResCount(t, j)) == Used(before, o.resIndex, ResCount(t, j));
      assert CallDepend(t, j, conVals, rev, final) == CallDepend(t, j, conVals, rev, before);
    }
  }

  /** What rev_depend promises: every count is 0, 1 or 2; every dependent is
      2; and whatever an in-use invocation reads is in use, so a value whose
      count is 0 is needed by nothing that reaches a dependent. */
  lemma UseCasesSound(t: TapeValue, conVals: seq<Value>, rev: CallOp.Reverse)
    requires Recorded(t) && |conVals| == t.nVal && CallOp.ReverseSized(rev)
    ensures Within(UseCases(t, conVals, rev))
    ensures forall k :: 0 <= k < |t.depVec| ==> UseCases(t, conVals, rev)[t.depVec[k]] == 2
    ensures forall j :: 0 <= j < |t.opVec| ==> ClosedAt(t, j, conVals, rev, UseCases(t, conVals, rev))
  {
    UseFromWithin(t, 0, conVals, rev);
    forall j | 0 <= j < |t.opVec|
      ensures ClosedAt(t, j, conVals, rev, UseCases(t, conVals, rev))
    {
      UseCasesClosedAt(t, j, conVals, rev);
    }
  }

  // ---------------------------------------------------------------------
  // What each class means

  /** A count saturated at 2 ("many"). */
  function Cap(n: nat): nat
  {
    if n < 2 then n else 2
  }

  /** How many words of `argVec[lo..hi)` name `v`. */
  function RunCount(argVec: seq<nat>, lo: nat, hi: nat, v: nat): nat
    requires lo <= hi <= |argVec|
    decreases hi - lo
  {
    if hi == lo then 0 else RunCount(argVec, lo, hi - 1, v) + (if argVec[hi - 1] == v then 1 else 0)
  }

  /** How many `k` with `flags[k]` set have `argVec[lo + k]` naming `v`. */
  function SelCount(argVec: seq<nat>, lo: nat, flags: seq<bool>, v: nat): nat
    requires lo + |flags| <= |argVec|
    decreases |flags|
  {
    if |flags| == 0 then 0
    else
      var k := |flags| - 1;
      SelCount(argVec, lo, flags[..k], v) + (if flags[k] && argVec[lo + k] == v then 1 else 0)
  }

  /** Counting the run `argVec[lo..hi)` adds one use of `v` per word naming it. */
  lemma {:induction false} BumpRunCount(use: seq<nat>, argVec: seq<nat>, lo: nat, hi: nat, v: nat)
    requires lo <= hi <= |argVec| && IndicesBelow(argVec, lo, hi, |use|)
    requires v < |use| && use[v] <= 2
    ensures BumpRun(use, argVec, lo, hi)[v] == Cap(use[v] + RunCount(argVec, lo, hi, v))
    decreases hi - lo
  {
    if lo < hi {
      BumpRunCount(use, argVec, lo, hi - 1, v);
    }
  }

  /** Counting the selected arguments adds one use of `v` per selected word naming it. */
  lemma {:induction false} BumpSelectedCount(use: seq<nat>, argVec: seq<nat>, lo: nat, flags: seq<bool>, v: nat)
    requires lo + |flags| <= |argVec| && IndicesBelow(argVec, lo, lo + |flags|, |use|)
    requires v < |use| && use[v] <= 2
    ensures BumpSelected(use, argVec, lo, flags)[v] == Cap(use[v] + SelCount(argVec, lo, flags, v))
    decreases |flags|
  {
    if 0 < |flags| {
      BumpSelectedCount(use, argVec, lo, flags[..|flags| - 1], v);
    }
  }

  /** The uses of `v` that invocation `j` counts when its results have the counts in `use`:
      each operand word naming `v` if its result is in use, and for a call each
      argument naming `v` that its in-use results depend on. */
  ghost function StepUses(t: TapeValue, j: nat, conVals: seq<Value>, rev: CallOp.Reverse, use: seq<nat>, v: nat): nat
    requires Recorded(t) && j < |t.opVec|
    requires |conVals| == t.nVal && |use| == t.nVal && CallOp.ReverseSized(rev)
  {
    ResBounds(t, j);
    if ResCount(t, j) == 0 then 0
    else if !t.opVec[j].op.Call? then
      (if use[t.opVec[j].resIndex] != 0 then RunCount(t.argVec, FirstOperand(t, j), LastOperand(t, j), v) else 0)
    else SelCount(t.argVec, FirstOperand(t, j), CallDepend(t, j, conVals, rev, use), v)
  }

  /** One step adds the uses it counts to the count of `v`, saturating at 2. */
  lemma UseStepCount(t: TapeValue, j: nat, conVals: seq<Value>, rev: CallOp.Reverse, use: seq<nat>, v: nat)
    requires Recorded(t) && j < |t.opVec|
    requires |conVals| == t.nVal && |use| == t.nVal && CallOp.ReverseSized(rev)
    requires v < t.nVal && use[v] <= 2
    ensures UseStep(t, j, conVals, rev, use)[v] == Cap(use[v] + StepUses(t, j, conVals, rev, use, v))
  {
    UseStepEffect(t, j, conVals, rev, use);
    var lo, hi := FirstOperand(t, j), LastOperand(t, j);
    if 0 < ResCount(t, j) && !t.opVec[j].op.Call? && use[t.opVec[j].resIndex] != 0 {
      BumpRunCount(use, t.argVec, lo, hi, v);
    } else if 0 < ResCount(t, j) && t.opVec[j].op.Call? {
      BumpSelectedCount(use, t.argVec, lo, CallDepend(t, j, conVals, rev, use), v);
    }
  }

  /** The uses a step counts depend only on the counts of its own results and later slots. */
  lemma StepUsesLocal(t: TapeValue, j: nat, conVals: seq<Value>, rev: CallOp.Reverse, use: seq<nat>, use': seq<nat>, v: nat)
    requires Recorded(t) && j < |t.opVec|
    requires |conVals| == t.nVal && |use| == t.nVal && |use'| == t.nVal && CallOp.ReverseSized(rev)
    requires forall w :: t.opVec[j].resIndex <= w < t.nVal ==> use[w] == use'[w]
    ensures StepUses(t, j, conVals, rev, use, v) == StepUses(t, j, conVals, rev, use', v)
  {
    ResBounds(t, j);
    var o := t.opVec[j];
    if 0 < ResCount(t, j) && o.op.Call? {
      assert Used(use, o.resIndex, ResCount(t, j)) == Used(use', o.resIndex, ResCount(t, j));
    }
  }

  /** The uses of `v` counted by invocations `i` onwards, each judged by the counts `final`. */
  ghost function UsesFrom(t: TapeValue, i: nat, conVals: seq<Value>, rev: CallOp.Reverse, final: seq<nat>, v: nat): nat
    requires Recorded(t) && i <= |t.opVec| && |conVals| == t.nVal && |final| == t.nVal && CallOp.ReverseSized(rev)
    decreases |t.opVec| - i
  {
    if i == |t.opVec| then 0
    else StepUses(t, i, conVals, rev, final, v) + UsesFrom(t, i + 1, conVals, rev, final, v)
  }

  /** The uses of `v` that reach the dependents: one per operand word naming `v`
      of an invocation whose result is in use in the final counts (for a call,
      per argument that its in-use results depend on). */
  ghost function Uses(t: TapeValue, conVals: seq<Value>, rev: CallOp.Reverse, v: nat): nat
    requires Recorded(t) && |conVals| == t.nVal && CallOp.ReverseSized(rev)
  {
    UsesFrom(t, 0, conVals, rev, UseCases(t, conVals, rev), v)
  }

  /** The presets: 2 exactly for the dependents. */
  lemma InitUseValue(t: TapeValue, v: nat)
    requires Recorded(t) && v < t.nVal
    ensures InitUse(t)[v] == if v in t.depVec then 2 else 0
  {
    if v in t.depVec {
      var k :| 0 <= k < |t.depVec| && t.depVec[k] == v;
    }
  }

  /** Part way through the sweep, a count is its preset plus the uses counted so far, saturated at 2. */
  lemma {:induction false} UseFromCount(t: TapeValue, i: nat, conVals: seq<Value>, rev: CallOp.Reverse, v: nat)
    requires Recorded(t) && i <= |t.opVec| && |conVals| == t.nVal && CallOp.ReverseSized(rev) && v < t.nVal
    ensures UseFrom(t, i, conVals, rev)[v] == Cap(InitUse(t)[v] + UsesFrom(t, i, conVals, rev, UseCases(t, conVals, rev), v))
    decreases |t.opVec| - i
  {
    InitUseValue(t, v);
    if i < |t.opVec| {
      var later := UseFrom(t, i + 1, conVals, rev);
      var final := UseCases(t, conVals, rev);
      UseFromCount(t, i + 1, conVals, rev, v);
      UseFromWithin(t, i + 1, conVals, rev);
      UseStepCount(t, i, conVals, rev, later, v);
      UseFromFrame(t, 0, i, conVals, rev);
      StepUsesLocal(t, i, conVals, rev, later, final, v);
      assert UseFrom(t, i, conVals, rev) == UseStep(t, i, conVals, rev, later);
    }
  }

  /** The count of every value is 2 for a dependent and otherwise its number
      of uses, saturated at 2. */
  lemma UseCasesCount(t: TapeValue, conVals: seq<Value>, rev: CallOp.Reverse)
    requires Recorded(t) && |conVals| == t.nVal && CallOp.ReverseSized(rev)
    ensures forall v :: 0 <= v < t.nVal ==>
              UseCases(t, conVals, rev)[v] == if v in t.depVec then 2 else Cap(Uses(t, conVals, rev, v))
  {
    forall v | 0 <= v < t.nVal
      ensures UseCases(t, conVals, rev)[v] == if v in t.depVec then 2 else Cap(Uses(t, conVals, rev, v))
    {
      UseFromCount(t, 0, conVals, rev, v);
      InitUseValue(t, v);
    }
  }

  /** The three classes: 0 when `v` is no dependent and nothing in use reads it;
      1 when it is no dependent and read exactly once; 2 when it is a dependent
      or read more than once. */
  lemma UseCaseClasses(t: TapeValue, conVals: seq<Value>, rev: CallOp.Reverse, v: nat)
    requires Recorded(t) && |conVals| == t.nVal && CallOp.ReverseSized(rev) && v < t.nVal
    ensures UseCases(t, conVals, rev)[v] == 0 <==> v !in t.depVec && Uses(t, conVals, rev, v) == 0
    ensures UseCases(t, conVals, rev)[v] == 1 <==> v !in t.depVec && Uses(t, conVals, rev, v) == 1
    ensures UseCases(t, conVals, rev)[v] == 2 <==> v in t.depVec || 2 <= Uses(t, conVals, rev, v)
  {
    UseCasesCount(t, conVals, rev);
  }

  /** Operand word `p` of invocation `j` names `v` and counts as a use of it:
      `j` has results, its result is in use (for a call, the argument at `p`
      is one its in-use results depend on). */
  ghost predicate CountedRead(t: TapeValue, conVals: seq<Value>, rev: CallOp.Reverse, use: seq<nat>, j: nat, p: nat, v: nat)
    requires Recorded(t) && j < |t.opVec|
    requires |conVals| == t.nVal && |use| == t.nVal && CallOp.ReverseSized(rev)
  {
    ResBounds(t, j);
    0 < ResCount(t, j) && FirstOperand(t, j) <= p < LastOperand(t, j) && t.argVec[p] == v &&
    if !t.opVec[j].op.Call? then use[t.opVec[j].resIndex] != 0
    else CallDepend(t, j, conVals, rev, use)[p - FirstOperand(t, j)]
  }

  /** Some word of the run names `v` iff it is counted at least once. */
  lemma {:induction false} RunCountPositive(argVec: seq<nat>, lo: nat, hi: nat, v: nat)
    requires lo <= hi <= |argVec|
    ensures 0 < RunCount(argVec, lo, hi, v) <==> exists p :: lo <= p < hi && argVec[p] == v
    decreases hi - lo
  {
    if lo < hi {
      RunCountPositive(argVec, lo, hi - 1, v);
    }
  }

  /** Some selected word names `v` iff it is counted at least once. */
  lemma {:induction false} SelCountPositive(argVec: seq<nat>, lo: nat, flags: seq<bool>, v: nat)
    requires lo + |flags| <= |argVec|
    ensures 0 < SelCount(argVec, lo, flags, v) <==> exists k :: 0 <= k < |flags| && flags[k] && argVec[lo + k] == v
    decreases |flags|
  {
    if 0 < |flags| {
      var init := flags[..|flags| - 1];
      SelCountPositive(argVec, lo, init, v);
      assert forall k :: 0 <= k < |init| ==> init[k] == flags[k];
    }
  }

  /** A step counts a use of `v` iff one of its operand words reads `v` and counts. */
  lemma StepUsesPositive(t: TapeValue, j: nat, conVals: seq<Value>, rev: CallOp.Reverse, use: seq<nat>, v: nat)
    requires Recorded(t) && j < |t.opVec|
    requires |conVals| == t.nVal && |use| == t.nVal && CallOp.ReverseSized(rev)
    ensures 0 < StepUses(t, j, conVals, rev, use, v) <==> exists p :: CountedRead(t, conVals, rev, use, j, p, v)
  {
    ResBounds(t, j);
    var lo, hi := FirstOperand(t, j), LastOperand(t, j);
    if 0 < ResCount(t, j) && !t.opVec[j].op.Call? {
      RunCountPositive(t.argVec, lo, hi, v);
      if 0 < StepUses(t, j, conVals, rev, use, v) {
        var p :| lo <= p < hi && t.argVec[p] == v;
        assert CountedRead(t, conVals, rev, use, j, p, v);
      }
    } else if 0 < ResCount(t, j) {
      var dx := CallDepend(t, j, conVals, rev, use);
      SelCountPositive(t.argVec, lo, dx, v);
      if 0 < StepUses(t, j, conVals, rev, use, v) {
        var k :| 0 <= k < |dx| && dx[k] && t.argVec[lo + k] == v;
        assert CountedRead(t, conVals, rev, use, j, lo + k, v);
      }
      if p: nat :| CountedRead(t, conVals, rev, use, j, p, v) {
        assert dx[p - lo] && t.argVec[lo + (p - lo)] == v;
      }
    }
  }

  /** Invocations `i` onwards count a use of `v` iff one of them has a counted read of `v`. */
  lemma {:induction false} UsesFromPositive(t: TapeValue, i: nat, conVals: seq<Value>, rev: CallOp.Reverse, final: seq<nat>, v: nat)
    requires Recorded(t) && i <= |t.opVec| && |conVals| == t.nVal && |final| == t.nVal && CallOp.ReverseSized(rev)
    ensures 0 < UsesFrom(t, i, conVals, rev, final, v) <==>
              exists j, p :: i <= j < |t.opVec| && CountedRead(t, conVals, rev, final, j, p, v)
    decreases |t.opVec| - i
  {
    if i < |t.opVec| {
      UsesFromPositive(t, i + 1, conVals, rev, final, v);
      StepUsesPositive(t, i, conVals, rev, final, v);
    }
  }

  /** A value is used iff some invocation in use reads it, as an operand or as
      an argument its in-use results depend on: with UseCaseClasses, a value
      whose class is nonzero is a dependent or read by something in use. */
  lemma UsesJustified(t: TapeValue, conVals: seq<Value>, rev: CallOp.Reverse, v: nat)
    requires Recorded(t) && |conVals| == t.nVal && CallOp.ReverseSized(rev)
    ensures 0 < Uses(t, conVals, rev, v) <==>
              exists j, p :: 0 <= j < |t.opVec| && CountedRead(t, conVals, rev, UseCases(t, conVals, rev), j, p, v)
  {
    UsesFromPositive(t, 0, conVals, rev, UseCases(t, conVals, rev), v);
  }

  /** The liveness reading of the classes: `v` is in use iff it is a
      dependent or some invocation whose result is in use reads it (a call
      through an argument its in-use results depend on). */
  lemma UseCasesJustified(t: TapeValue, conVals: seq<Value>, rev: CallOp.Reverse, v: nat)
    requires Recorded(t) && |conVals| == t.nVal && CallOp.ReverseSized(rev) && v < t.nVal
    ensures UseCases(t, conVals, rev)[v] != 0 <==>
              v in t.depVec ||
              exists j, p :: 0 <= j < |t.opVec| && CountedRead(t, conVals, rev, UseCases(t, conVals, rev), j, p, v)
  {
    UseCaseClasses(t, conVals, rev, v);
    UsesJustified(t, conVals, rev, v);
  }

  // ---------------------------------------------------------------------
  // The sweep

  /** Counts one use of each value named by `argVec[lo..hi)`. */
  method BumpOperands(use: array<nat>, argVec: seq<nat>, lo: nat, hi: nat)
    requires lo <= hi <= |argVec| && IndicesBelow(argVec, lo, hi, use.Length)
    modifies use
    ensures use[..] == BumpRun(old(use[..]), argVec, lo, hi)
  {
    var p := lo;
    while p < hi
      invariant lo <= p <= hi
      invariant use[..] == BumpRun(old(use[..]), argVec, lo, p)
    {
      var v := argVec[p];
      if use[v] == 0 {
        use[v] := 1;
      } else {
        use[v] := 2;
      }
      p := p + 1;
    }
  }

  /** Counts one use of `argVec[lo + k]` for each `k` with `dependX[k]` set. */
  method BumpDepend(use: array<nat>, argVec: seq<nat>, lo: nat, dependX: seq<bool>)
    requires lo + |dependX| <= |argVec| && IndicesBelow(argVec, lo, lo + |dependX|, use.Length)
    modifies use
    ensures use[..] == BumpSelected(old(use[..]), argVec, lo, dependX)
  {
    var k := 0;
    while k < |dependX|
      invariant 0 <= k <= |dependX|
      invariant use[..] == BumpSelected(old(use[..]), argVec, lo, dependX[..k])
    {
      assert dependX[..k + 1][..k] == dependX[..k];
      var v := argVec[lo + k];
      if dependX[k] {
        if use[v] == 0 {
          use[v] := 1;
        } else {
          use[v] := 2;
        }
      }
      k := k + 1;
    }
    assert dependX[..|dependX|] == dependX;
  }

  /** Presets the counts: dependents 2, everything else 0. */
  method InitCounts(t: TapeValue) returns (use: array<nat>)
    requires Recorded(t)
    ensures fresh(use) && use[..] == InitUse(t)
  {
    use := new nat[t.nVal](_ => 0);
    assert use[..] == seq(t.nVal, _ => 0);
    var k := 0;
    while k < |t.depVec|
      invariant 0 <= k <= |t.depVec|
      invariant use[..] == SetAll(seq(t.nVal, _ => 0), t.depVec[..k], 2)
    {
      assert t.depVec[..k + 1][..k] == t.depVec[..k];
      use[t.depVec[k]] := 2;
      k := k + 1;
    }
    assert t.depVec[..|t.depVec|] == t.depVec;
  }

  /** The reverse sweep at a value-producing invocation other than a call. */
  method SweepOperands(t: TapeValue, j: nat, use: array<nat>)
    requires Recorded(t) && j < |t.opVec| && !t.opVec[j].op.Call? && 0 < ResCount(t, j)
    requires use.Length == t.nVal
    modifies use
    ensures use[..] == OperandUse(t, j, old(use[..]))
  {
    ResBounds(t, j);
    var o := t.opVec[j];
    if use[o.resIndex] != 0 {
      BumpOperands(use, t.argVec, o.argIndex + NBefore(o.op), o.argIndex + NArg(o.op, o.argIndex, t.argVec) - NAfter(o.op));
    }
  }

  /** depend_y: which of the `n` results starting at `res` are in use. */
  method UsedFlags(use: array<nat>, res: nat, n: nat) returns (dependY: seq<bool>)
    requires res + n <= use.Length
    ensures dependY == Used(use[..], res, n)
  {
    dependY := [];
    var m := 0;
    while m < n
      invariant 0 <= m <= n
      invariant |dependY| == m && forall q :: 0 <= q < m ==> dependY[q] == (use[res + q] != 0)
    {
      dependY := dependY + [use[res + m] != 0];
      m := m + 1;
    }
  }

  /** The reverse sweep at a call with results. */
  method SweepCall(t: TapeValue, j: nat, conVals: seq<Value>, rev: CallOp.Reverse, use: array<nat>)
    requires Recorded(t) && j < |t.opVec| && t.opVec[j].op.Call?
    requires |conVals| == t.nVal && use.Length == t.nVal && CallOp.ReverseSized(rev)
    modifies use
    ensures use[..] == CallUse(t, j, conVals, rev, old(use[..]))
  {
    ResBounds(t, j);
    var o := t.opVec[j];
    var nRes := NRes(o.op, o.argIndex, t.argVec);
    var dependY := UsedFlags(use, o.resIndex, nRes);
    var dependX := CallOp.RevDependX(o.argIndex, t.argVec, o.resIndex, conVals, dependY, rev);
    BumpDepend(use, t.argVec, o.argIndex + NBefore(o.op), dependX);
  }

  /** One step of the reverse sweep: processes invocation `j`. */
  method SweepOp(t: TapeValue, j: nat, conVals: seq<Value>, rev: CallOp.Reverse, use: array<nat>)
    requires Recorded(t) && j < |t.opVec|
    requires |conVals| == t.nVal && use.Length == t.nVal && CallOp.ReverseSized(rev)
    modifies use
    ensures use[..] == UseStep(t, j, conVals, rev, old(use[..]))
  {
    HeaderAt(t, j);
    var o := t.opVec[j];
    var nRes := NRes(o.op, o.argIndex, t.argVec);
    if 0 < nRes && !o.op.Call? {
      SweepOperands(t, j, use);
    } else if 0 < nRes {
      SweepCall(t, j, conVals, rev, use);
    }
  }

  /** The reverse sweep over a recorded tape whose poisoned values are `conVals`. */
  method Sweep(t: TapeValue, conVals: seq<Value>, rev: CallOp.Reverse) returns (useCase: seq<nat>)
    requires Recorded(t) && |conVals| == t.nVal && CallOp.ReverseSized(rev)
    ensures useCase == UseCases(t, conVals, rev)
  {
    var use := InitCounts(t);
    var i := |t.opVec|;
    assert use[..] == UseFrom(t, i, conVals, rev);
    while 0 < i
      invariant 0 <= i <= |t.opVec| && use.Length == t.nVal
      invariant use[..] == UseFrom(t, i, conVals, rev)
      decreases i
    {
      ghost var later := use[..];
      i := i - 1;
      SweepOp(t, i, conVals, rev, use);
      assert UseFrom(t, i, conVals, rev) == UseStep(t, i, conVals, rev, later);
    }
    useCase := use[..];
  }

  /** tape_t::rev_depend: evaluates the tape with every slot preset to
      not-a-number, then sweeps the invocations from last to first. */
  method RevDepend(tape: Tape, fwd: CallOp.Forward, rev: CallOp.Reverse) returns (useCase: seq<nat>)
    requires tape.Valid() && CallOp.ForwardSized(fwd) && CallOp.ReverseSized(rev)
    ensures useCase == UseCases(tape.Data(), NanValues(tape.Data(), fwd), rev)
  {
    var t := tape.Data();
    var conVals := NanValues(t, fwd);
    useCase := Sweep(t, conVals, rev);
  }
}
