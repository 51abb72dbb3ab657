/** Dead code elimination on a value-graph tape (tape_t::dead_code). A
    reverse sweep marks the values the dependents need; a forward sweep
    re-records on a fresh tape the invocations whose results are needed and
    the comparisons that are kept, renumbering operands through `newIndex`;
    the rebuilt tape then replaces the old one. */
module DeadCodePass {
  import opened Values
  import opened Runs
  import opened OpKinds
  import CallOp
  import opened ValGraph

  /** The reverse sweep as dead_code.hpp writes it, or corrected: a kept
      comparison marks its operands, and a call ors its dependency flags into
      its inputs' need flags instead of overwriting them. */
  datatype Marking = AsWritten | Corrected

  // ---------------------------------------------------------------------
  // Reverse sweep: which values are needed

  /** Marks every value named by `argVec[lo..hi)` as needed. */
  function MarkRun(need: seq<bool>, argVec: seq<nat>, lo: nat, hi: nat): (r: seq<bool>)
    requires lo <= hi <= |argVec| && IndicesBelow(argVec, lo, hi, |need|)
    ensures |r| == |need|
    ensures forall p :: lo <= p < hi ==> r[argVec[p]]
    ensures forall v :: 0 <= v < |need| && need[v] ==> r[v]
    ensures forall v :: 0 <= v < |need| && Untouched(argVec, lo, hi, v) ==> r[v] == need[v]
    decreases hi - lo
  {
    if hi == lo then need else MarkRun(need, argVec, lo, hi - 1)[argVec[hi - 1] := true]
  }

  /** For each `k` in order, sets the need flag of `argVec[lo + k]` to
      `flags[k]` (as written) or ors `flags[k]` into it (corrected). */
  function SetSelected(need: seq<bool>, argVec: seq<nat>, lo: nat, flags: seq<bool>, m: Marking): (r: seq<bool>)
    requires lo + |flags| <= |argVec| && IndicesBelow(argVec, lo, lo + |flags|, |need|)
    ensures |r| == |need|
    ensures forall v :: 0 <= v < |need| && Untouched(argVec, lo, lo + |flags|, v) ==> r[v] == need[v]
    ensures m == Corrected ==> forall v :: 0 <= v < |need| && need[v] ==> r[v]
    ensures m == Corrected ==> forall k :: 0 <= k < |flags| && flags[k] ==> r[argVec[lo + k]]
    decreases |flags|
  {
    if |flags| == 0 then need
    else
      var prev := SetSelected(need, argVec, lo, flags[..|flags| - 1], m);
      var v := argVec[lo + |flags| - 1];
      var f := flags[|flags| - 1];
      prev[v := if m == Corrected then prev[v] || f else f]
  }

  /** The inputs of call `j` its needed results depend on, by the atomic
      function's reverse dependency bridge. */
  function NeedDependX(t: TapeValue, j: nat, conVals: seq<Value>, rev: CallOp.Reverse, need: seq<bool>): (dx: seq<bool>)
    requires Recorded(t) && j < |t.opVec| && t.opVec[j].op.Call?
    requires |conVals| == t.nVal && |need| == t.nVal && CallOp.ReverseSized(rev)
    ensures HeaderOk(t, j) && FirstOperand(t, j) + |dx| == LastOperand(t, j)
  {
    ResBounds(t, j);
    var o := t.opVec[j];
    CallOp.DependX(o.argIndex, t.argVec, o.resIndex, conVals, need[o.resIndex..ResEnd(t, j)], rev)
  }

  /** An invocation without results is kept when comparisons are kept and
      its first operand word is not the "no comparison" tag. */
  predicate KeepsCompare(t: TapeValue, j: nat, keepCompare: bool)
    requires Recorded(t) && j < |t.opVec|
  {
    ResBounds(t, j);
    keepCompare && t.argVec[t.opVec[j].argIndex] != CompareNo
  }

  /** Whether the forward sweep re-records invocation `j`: one with results
      when any of them is needed, one without by `KeepsCompare`. */
  predicate Kept(t: TapeValue, j: nat, keepCompare: bool, need: seq<bool>)
    requires Recorded(t) && j < |t.opVec| && |need| == t.nVal
    ensures HeaderOk(t, j)
    ensures Kept(t, j, keepCompare, need) <==>
              if ResCount(t, j) == 0 then KeepsCompare(t, j, keepCompare)
              else exists v :: t.opVec[j].resIndex <= v < ResEnd(t, j) && v < |need| && need[v]
  {
    ResBounds(t, j);
    if ResCount(t, j) == 0 then KeepsCompare(t, j, keepCompare)
    else true in need[t.opVec[j].resIndex..ResEnd(t, j)]
  }

  /** add or sub: a needed result makes both operands needed. */
  function BinaryNeed(t: TapeValue, j: nat, need: seq<bool>): (r: seq<bool>)
    requires Recorded(t) && j < |t.opVec| && IsBinary(t.opVec[j].op) && |need| == t.nVal
    ensures |r| == |need|
    ensures forall v :: t.opVec[j].resIndex <= v < |need| ==> r[v] == need[v]
    ensures forall v :: 0 <= v < |need| && need[v] ==> r[v]
  {
    ResBounds(t, j);
    if need[t.opVec[j].resIndex] then MarkRun(need, t.argVec, FirstOperand(t, j), LastOperand(t, j)) else need
  }

  /** comp: marks nothing as written; corrected, a kept comparison marks its operands. */
  function CompNeed(t: TapeValue, j: nat, keepCompare: bool, need: seq<bool>, m: Marking): (r: seq<bool>)
    requires Recorded(t) && j < |t.opVec| && t.opVec[j].op.Comp? && |need| == t.nVal
    ensures |r| == |need|
    ensures forall v :: t.opVec[j].resIndex <= v < |need| ==> r[v] == need[v]
    ensures forall v :: 0 <= v < |need| && need[v] ==> r[v]
  {
    ResBounds(t, j);
    if m == Corrected && KeepsCompare(t, j, keepCompare) then
      MarkRun(need, t.argVec, FirstOperand(t, j), LastOperand(t, j))
    else need
  }

  /** call: the bridge's dependency flags set (as written) or raise (corrected) the inputs' flags. */
  function CallNeed(t: TapeValue, j: nat, conVals: seq<Value>, rev: CallOp.Reverse, need: seq<bool>, m: Marking): (r: seq<bool>)
    requires Recorded(t) && j < |t.opVec| && t.opVec[j].op.Call?
    requires |conVals| == t.nVal && |need| == t.nVal && CallOp.ReverseSized(rev)
    ensures |r| == |need|
    ensures forall v :: t.opVec[j].resIndex <= v < |need| ==> r[v] == need[v]
    ensures m == Corrected ==> forall v :: 0 <= v < |need| && need[v] ==> r[v]
  {
    ResBounds(t, j);
    SetSelected(need, t.argVec, FirstOperand(t, j), NeedDependX(t, j, conVals, rev, need), m)
  }

  /** The need flags after invocation `j` is processed; con marks nothing. */
  function NeedStep(t: TapeValue, j: nat, keepCompare: bool, conVals: seq<Value>, rev: CallOp.Reverse,
                    need: seq<bool>, m: Marking): (r: seq<bool>)
    requires Recorded(t) && j < |t.opVec|
    requires |conVals| == t.nVal && |need| == t.nVal && CallOp.ReverseSized(rev)
    ensures |r| == |need|
    ensures forall v :: t.opVec[j].resIndex <= v < |need| ==> r[v] == need[v]
    ensures m == Corrected ==> forall v :: 0 <= v < |need| && need[v] ==> r[v]
  {
    match t.opVec[j].op
    case Add => BinaryNeed(t, j, need)
    case Sub => BinaryNeed(t, j, need)
    case Con => need
    case Comp => CompNeed(t, j, keepCompare, need, m)
    case Call => CallNeed(t, j, conVals, rev, need, m)
  }

  /** What one step changes: a constant load marks nothing, and as written
      neither does a comparison; an add or sub whose result is not needed
      marks nothing, one whose result is needed marks both operands; and no
      step touches a flag outside its own value operands. */
  lemma NeedStepEffect(t: TapeValue, j: nat, keepCompare: bool, conVals: seq<Value>, rev: CallOp.Reverse,
                       need: seq<bool>, m: Marking)
    requires Recorded(t) && j < |t.opVec|
    requires |conVals| == t.nVal && |need| == t.nVal && CallOp.ReverseSized(rev)
    ensures HeaderOk(t, j) && t.opVec[j].resIndex + ResCount(t, j) <= t.nVal
    ensures FirstOperand(t, j) <= LastOperand(t, j) <= |t.argVec|
    ensures IndicesBelow(t.argVec, FirstOperand(t, j), LastOperand(t, j), t.nVal)
    ensures var r := NeedStep(t, j, keepCompare, conVals, rev, need, m);
            t.opVec[j].op.Con? || (t.opVec[j].op.Comp? && m == AsWritten) ==> r == need
    ensures var r := NeedStep(t, j, keepCompare, conVals, rev, need, m);
            IsBinary(t.opVec[j].op) ==>
              if need[t.opVec[j].resIndex] then
                forall p :: FirstOperand(t, j) <= p < LastOperand(t, j) ==> r[t.argVec[p]]
              else r == need
    ensures var r := NeedStep(t, j, keepCompare, conVals, rev, need, m);
            forall v :: 0 <= v < |need| && Untouched(t.argVec, FirstOperand(t, j), LastOperand(t, j), v) ==> r[v] == need[v]
  {
    ResBounds(t, j);
  }

  /** Before the sweep exactly the dependents are needed. */
  function InitNeed(t: TapeValue): (r: seq<bool>)
    requires Recorded(t)
    ensures |r| == t.nVal
    ensures forall v :: 0 <= v < t.nVal ==> (r[v] <==> v in t.depVec)
  {
    SetAll(seq(t.nVal, _ => false), t.depVec, true)
  }

  /** The need flags once invocations `|opVec| - 1` down to `i` are processed. */
  function NeedFrom(t: TapeValue, i: nat, keepCompare: bool, conVals: seq<Value>, rev: CallOp.Reverse, m: Marking): (r: seq<bool>)
    requires Recorded(t) && i <= |t.opVec| && |conVals| == t.nVal && CallOp.ReverseSized(rev)
    ensures |r| == t.nVal
    decreases |t.opVec| - i
  {
    if i == |t.opVec| then InitNeed(t)
    else NeedStep(t, i, keepCompare, conVals, rev, NeedFrom(t, i + 1, keepCompare, conVals, rev, m), m)
  }

  /** The result of the reverse sweep. */
  function Needs(t: TapeValue, keepCompare: bool, conVals: seq<Value>, rev: CallOp.Reverse, m: Marking): (r: seq<bool>)
    requires Recorded(t) && |conVals| == t.nVal && CallOp.ReverseSized(rev)
    ensures |r| == t.nVal
  {
    NeedFrom(t, 0, keepCompare, conVals, rev, m)
  }

  /** Invocation `j` is safe to re-record under `need`: if it is kept and is
      not a call, every value it reads is needed, so its producer is kept too. */
  ghost predicate NeedClosedAt(t: TapeValue, j: nat, keepCompare: bool, need: seq<bool>)
    requires Recorded(t) && j < |t.opVec| && |need| == t.nVal
  {
    ResBounds(t, j);
    Kept(t, j, keepCompare, need) && !t.opVec[j].op.Call? ==>
      forall p :: FirstOperand(t, j) <= p < LastOperand(t, j) ==> need[t.argVec[p]]
  }

  /** `need` covers the dependents and is closed under what kept invocations read. */
  ghost predicate NeedClosed(t: TapeValue, keepCompare: bool, need: seq<bool>)
    requires Recorded(t)
  {
    |need| == t.nVal &&
    (forall k :: 0 <= k < |t.depVec| ==> need[t.depVec[k]]) &&
    (forall j :: 0 <= j < |t.opVec| ==> NeedClosedAt(t, j, keepCompare, need))
  }

  /** Corrected marking: a flag once set stays set as the sweep moves back. */
  lemma {:induction false} NeedFromGrows(t: TapeValue, i: nat, j: nat, keepCompare: bool, conVals: seq<Value>, rev: CallOp.Reverse)
    requires Recorded(t) && i <= j <= |t.opVec| && |conVals| == t.nVal && CallOp.ReverseSized(rev)
    ensures forall v :: 0 <= v < t.nVal && NeedFrom(t, j, keepCompare, conVals, rev, Corrected)[v] ==>
              NeedFrom(t, i, keepCompare, conVals, rev, Corrected)[v]
    decreases j - i
  {
    if i < j {
      NeedFromGrows(t, i + 1, j, keepCompare, conVals, rev);
    }
  }

  /** Once invocation `j` is processed, no flag at or above its results changes again. */
  lemma {:induction false} NeedFromFrame(t: TapeValue, i: nat, j: nat, keepCompare: bool, conVals: seq<Value>,
                                         rev: CallOp.Reverse, m: Marking)
    requires Recorded(t) && i <= j < |t.opVec| && |conVals| == t.nVal && CallOp.ReverseSized(rev)
    ensures forall v :: t.opVec[j].resIndex <= v < t.nVal ==>
              NeedFrom(t, i, keepCompare, conVals, rev, m)[v] == NeedFrom(t, j + 1, keepCompare, conVals, rev, m)[v]
    decreases j - i
  {
    if i < j {
      NeedFromFrame(t, i + 1, j, keepCompare, conVals, rev, m);
      ResOrder(t, i, j);
    }
  }

  /** The corrected sweep accounts for invocation `j`. */
  lemma NeedsClosedAt(t: TapeValue, j: nat, keepCompare: bool, conVals: seq<Value>, rev: CallOp.Reverse)
    requires Recorded(t) && j < |t.opVec| && |conVals| == t.nVal && CallOp.ReverseSized(rev)
    ensures NeedClosedAt(t, j, keepCompare, Needs(t, keepCompare, conVals, rev, Corrected))
  {
    ResBounds(t, j);
    var o := t.opVec[j];
    if !o.op.Call? {
      var before := NeedFrom(t, j + 1, keepCompare, conVals, rev, Corrected);
      var final := Needs(t, keepCompare, conVals, rev, Corrected);
      NeedFromFrame(t, 0, j, keepCompare, conVals, rev, Corrected);
      if 0 < ResCount(t, j) {
        assert final[o.resIndex..ResEnd(t, j)] == before[o.resIndex..ResEnd(t, j)];
      }
      if Kept(t, j, keepCompare, final) {
        StepMarksOperands(t, j, keepCompare, conVals, rev, before);
        NeedFromGrows(t, 0, j, keepCompare, conVals, rev);
      }
    }
  }

  /** A kept invocation other than a call marks every value it reads when
      the corrected sweep processes it. */
  lemma StepMarksOperands(t: TapeValue, j: nat, keepCompare: bool, conVals: seq<Value>, rev: CallOp.Reverse, need: seq<bool>)
    requires Recorded(t) && j < |t.opVec| && !t.opVec[j].op.Call?
    requires |conVals| == t.nVal && |need| == t.nVal && CallOp.ReverseSized(rev)
    requires Kept(t, j, keepCompare, need)
    ensures HeaderOk(t, j) && LastOperand(t, j) <= |t.argVec|
    ensures forall p :: FirstOperand(t, j) <= p < LastOperand(t, j) ==>
              t.argVec[p] < t.nVal && NeedStep(t, j, keepCompare, conVals, rev, need, Corrected)[t.argVec[p]]
  {
    ResBounds(t, j);
    var o := t.opVec[j];
    if IsBinary(o.op) {
      assert need[o.resIndex..ResEnd(t, j)] == [need[o.resIndex]];
    }
  }

  /** The corrected sweep's flags cover the dependents and are closed. */
  lemma NeedsClosed(t: TapeValue, keepCompare: bool, conVals: seq<Value>, rev: CallOp.Reverse)
    requires Recorded(t) && |conVals| == t.nVal && CallOp.ReverseSized(rev)
    ensures NeedClosed(t, keepCompare, Needs(t, keepCompare, conVals, rev, Corrected))
  {
    NeedFromGrows(t, 0, |t.opVec|, keepCompare, conVals, rev);
    forall j | 0 <= j < |t.opVec|
      ensures NeedClosedAt(t, j, keepCompare, Needs(t, keepCompare, conVals, rev, Corrected))
    {
      NeedsClosedAt(t, j, keepCompare, conVals, rev);
    }
  }

  // ---------------------------------------------------------------------
  // Forward sweep: re-recording the kept invocations

  /** The tape being built and the map from old value indices to new ones. */
  datatype Rebuild = Rebuild(tape: TapeValue, newIndex: seq<nat>)

  /** What set_ind(n) leaves in a freshly constructed tape. */
  function FreshSetInd(n: nat): (r: TapeValue)
    ensures WellFormed(r) && r.nInd == n && r.nVal == n + 1
  {
    var r := TapeValue(n, n + 1, [0], [OpInfo(0, n, Con)], [Nan], []);
    assert OpFits(r, 0);
    r
  }

  /** Before the forward sweep: the new tape holds the independents and the
      sentinel; indices up to `nInd` map to themselves and every later one
      to the out-of-range marker `nVal`. */
  function Start(t: TapeValue): (s: Rebuild)
    ensures |s.newIndex| == t.nVal
  {
    Rebuild(FreshSetInd(t.nInd), seq(t.nVal, v => if v <= t.nInd then v else t.nVal))
  }

  /** `newIndex` with the `n` results starting at `res` mapped to the `n`
      results starting at `base`. */
  function Renumber(newIndex: seq<nat>, res: nat, n: nat, base: nat): (r: seq<nat>)
    requires res + n <= |newIndex|
    ensures |r| == |newIndex|
    ensures forall v :: 0 <= v < |r| && !(res <= v < res + n) ==> r[v] == newIndex[v]
    ensures forall v :: res <= v < res + n ==> r[v] == base + (v - res)
  {
    seq(|newIndex|, v requires 0 <= v < |newIndex| => if res <= v < res + n then base + (v - res) else newIndex[v])
  }

  /** The new arguments of call `j`: a needed input through `newIndex`, any
      other input the sentinel at `nInd`. */
  function CallArgs(t: TapeValue, j: nat, need: seq<bool>, newIndex: seq<nat>): (args: seq<nat>)
    requires Recorded(t) && j < |t.opVec| && t.opVec[j].op.Call? && |need| == t.nVal && |newIndex| == t.nVal
    ensures HeaderOk(t, j) && |args| == LastOperand(t, j) - FirstOperand(t, j)
  {
    ResBounds(t, j);
    var lo := FirstOperand(t, j);
    seq(LastOperand(t, j) - lo, k requires 0 <= k < LastOperand(t, j) - lo =>
      var v := t.argVec[lo + k];
      if need[v] then newIndex[v] else t.nInd)
  }

  /** Re-records invocation `j` on the new tape, when it is kept. */
  function KeepStep(t: TapeValue, j: nat, keepCompare: bool, need: seq<bool>, s: Rebuild): (r: Rebuild)
    requires Recorded(t) && j < |t.opVec| && |need| == t.nVal && |s.newIndex| == t.nVal
    ensures |r.newIndex| == t.nVal && r.tape.nInd == s.tape.nInd
  {
    ResBounds(t, j);
    var o := t.opVec[j];
    var a := o.argIndex;
    var ni := s.newIndex;
    if !Kept(t, j, keepCompare, need) then s
    else match o.op
      case Add => Rebuild(Append(s.tape, Add, [ni[t.argVec[a]], ni[t.argVec[a + 1]]], []), ni[o.resIndex := s.tape.nVal])
      case Sub => Rebuild(Append(s.tape, Sub, [ni[t.argVec[a]], ni[t.argVec[a + 1]]], []), ni[o.resIndex := s.tape.nVal])
      case Con => Rebuild(Append(s.tape, Con, [|s.tape.conVec|], [t.conVec[t.argVec[a]]]), ni[o.resIndex := s.tape.nVal])
      case Comp => Rebuild(Append(s.tape, Comp, [t.argVec[a], ni[t.argVec[a + 1]], ni[t.argVec[a + 2]]], []), ni)
      case Call =>
        var run := CallOp.CallRun(CallOp.AtomicIndex(a, t.argVec), CallOp.CallId(a, t.argVec), ResCount(t, j),
                                  CallArgs(t, j, need, ni));
        Rebuild(Append(s.tape, Call, run, []), Renumber(ni, o.resIndex, ResCount(t, j), s.tape.nVal))
  }

  /** The rebuild once invocations 1 through `i - 1` are processed; invocation 0,
      the sentinel, is never re-recorded. */
  function RebuildUpTo(t: TapeValue, i: nat, keepCompare: bool, need: seq<bool>): (s: Rebuild)
    requires Recorded(t) && 1 <= i <= |t.opVec| && |need| == t.nVal
    ensures |s.newIndex| == t.nVal && s.tape.nInd == t.nInd
    decreases i
  {
    if i == 1 then Start(t) else KeepStep(t, i - 1, keepCompare, need, RebuildUpTo(t, i - 1, keepCompare, need))
  }

  /** The dependents mapped through `newIndex`. */
  function MapThrough(newIndex: seq<nat>, dep: seq<nat>): (r: seq<nat>)
    requires forall k :: 0 <= k < |dep| ==> dep[k] < |newIndex|
    ensures |r| == |dep|
  {
    seq(|dep|, k requires 0 <= k < |dep| => newIndex[dep[k]])
  }

  /** The tape dead_code leaves behind, with the reverse sweep `m`. */
  function DeadCodeResult(t: TapeValue, keepCompare: bool, conVals: seq<Value>, rev: CallOp.Reverse, m: Marking): (r: TapeValue)
    requires Recorded(t) && 0 < |t.opVec| && |conVals| == t.nVal && CallOp.ReverseSized(rev)
    ensures r.nInd == t.nInd && |r.depVec| == |t.depVec|
  {
    var s := RebuildUpTo(t, |t.opVec|, keepCompare, Needs(t, keepCompare, conVals, rev, m));
    s.tape.(depVec := MapThrough(s.newIndex, t.depVec))
  }

  /** What holds of the rebuild between steps: the new tape is well formed
      with the same independents; indices up to `nInd` map to themselves;
      every needed value already passed maps into the new tape; and the new
      tape is no larger than the part of the old one passed. */
  ghost predicate RebuildInv(t: TapeValue, i: nat, need: seq<bool>, s: Rebuild)
    requires Recorded(t) && i <= |t.opVec|
  {
    WellFormed(s.tape) && s.tape.nInd == t.nInd && t.nInd < s.tape.nVal &&
    |need| == t.nVal && |s.newIndex| == t.nVal &&
    (forall v :: 0 <= v < |s.newIndex| && v <= t.nInd ==> s.newIndex[v] == v) &&
    (forall v :: t.nInd < v < Frontier(t, i) && v < |need| && need[v] ==> s.newIndex[v] < s.tape.nVal) &&
    |s.tape.opVec| <= i && s.tape.nVal <= Frontier(t, i)
  }

  /** Invocation `j >= 1` produces its results above the sentinel. */
  lemma AboveSentinel(t: TapeValue, j: nat)
    requires WellFormed(t) && 1 <= j < |t.opVec|
    ensures t.nInd < t.opVec[j].resIndex == Frontier(t, j) && Frontier(t, 1) == t.nInd + 1
    ensures HeaderOk(t, j) && Frontier(t, j + 1) == ResEnd(t, j) <= t.nVal
  {
    ResOrder(t, 0, j);
    FrontierStep(t, 0);
    FrontierStep(t, j);
    ResBounds(t, j);
  }

  /** The forward sweep starts in the invariant. */
  lemma StartInv(t: TapeValue, need: seq<bool>)
    requires WellFormed(t) && |need| == t.nVal
    ensures RebuildInv(t, 1, need, Start(t))
  {
    FrontierStep(t, 0);
  }

  /** An operand of a kept invocation that is an independent, the sentinel or
      a needed value maps into the new tape. */
  lemma OperandMaps(t: TapeValue, j: nat, need: seq<bool>, s: Rebuild, v: nat)
    requires WellFormed(t) && 1 <= j < |t.opVec| && RebuildInv(t, j, need, s)
    requires v < t.opVec[j].resIndex && (v <= t.nInd || (v < |need| && need[v]))
    ensures v < |s.newIndex| && s.newIndex[v] < s.tape.nVal
  {
    AboveSentinel(t, j);
  }

  /** A dropped invocation keeps the invariant: none of its results is needed. */
  lemma DropInv(t: TapeValue, j: nat, keepCompare: bool, need: seq<bool>, s: Rebuild)
    requires WellFormed(t) && 1 <= j < |t.opVec| && RebuildInv(t, j, need, s)
    requires !Kept(t, j, keepCompare, need)
    ensures RebuildInv(t, j + 1, need, s)
  {
    AboveSentinel(t, j);
    var res := t.opVec[j].resIndex;
    if 0 < ResCount(t, j) {
      forall v | res <= v < ResEnd(t, j)
        ensures !need[v]
      {
        assert need[res..ResEnd(t, j)][v - res] == need[v];
      }
    }
  }

  /** Re-recording a kept add or sub keeps the invariant. */
  lemma KeepBinaryInv(t: TapeValue, j: nat, keepCompare: bool, need: seq<bool>, s: Rebuild)
    requires WellFormed(t) && 1 <= j < |t.opVec| && RebuildInv(t, j, need, s)
    requires NeedClosedAt(t, j, keepCompare, need) && Kept(t, j, keepCompare, need) && IsBinary(t.opVec[j].op)
    ensures RebuildInv(t, j + 1, need, KeepStep(t, j, keepCompare, need, s))
  {
    AboveSentinel(t, j);
    ResBounds(t, j);
    var o := t.opVec[j];
    var ni := s.newIndex;
    var x, y := t.argVec[o.argIndex], t.argVec[o.argIndex + 1];
    OperandMaps(t, j, need, s, x);
    OperandMaps(t, j, need, s, y);
    AppendBinaryRecorded(s.tape, o.op, ni[x], ni[y]);
  }

  /** Re-recording a kept constant load keeps the invariant. */
  lemma KeepConInv(t: TapeValue, j: nat, keepCompare: bool, need: seq<bool>, s: Rebuild)
    requires WellFormed(t) && 1 <= j < |t.opVec| && RebuildInv(t, j, need, s)
    requires Kept(t, j, keepCompare, need) && t.opVec[j].op.Con?
    ensures RebuildInv(t, j + 1, need, KeepStep(t, j, keepCompare, need, s))
  {
    AboveSentinel(t, j);
    ResBounds(t, j);
    var o := t.opVec[j];
    AppendConRecorded(s.tape, t.conVec[t.argVec[o.argIndex]]);
  }

  /** Re-recording a kept comparison keeps the invariant. */
  lemma KeepCompInv(t: TapeValue, j: nat, keepCompare: bool, need: seq<bool>, s: Rebuild)
    requires WellFormed(t) && 1 <= j < |t.opVec| && RebuildInv(t, j, need, s)
    requires NeedClosedAt(t, j, keepCompare, need) && Kept(t, j, keepCompare, need) && t.opVec[j].op.Comp?
    ensures RebuildInv(t, j + 1, need, KeepStep(t, j, keepCompare, need, s))
  {
    AboveSentinel(t, j);
    ResBounds(t, j);
    var o := t.opVec[j];
    var ni := s.newIndex;
    var x, y := t.argVec[o.argIndex + 1], t.argVec[o.argIndex + 2];
    OperandMaps(t, j, need, s, x);
    OperandMaps(t, j, need, s, y);
    AppendCompRecorded(s.tape, t.argVec[o.argIndex], ni[x], ni[y]);
  }

  /** Every new argument of a kept call is a value of the new tape. */
  lemma CallArgsMap(t: TapeValue, j: nat, need: seq<bool>, s: Rebuild)
    requires WellFormed(t) && 1 <= j < |t.opVec| && RebuildInv(t, j, need, s) && t.opVec[j].op.Call?
    ensures forall k :: 0 <= k < |CallArgs(t, j, need, s.newIndex)| ==> CallArgs(t, j, need, s.newIndex)[k] < s.tape.nVal
  {
    ResBounds(t, j);
    var args := CallArgs(t, j, need, s.newIndex);
    forall k | 0 <= k < |args|
      ensures args[k] < s.tape.nVal
    {
      var v := t.argVec[FirstOperand(t, j) + k];
      if need[v] {
        OperandMaps(t, j, need, s, v);
      }
    }
  }

  /** Re-recording a kept call keeps the invariant: an input that is not
      needed reads the sentinel. */
  lemma KeepCallInv(t: TapeValue, j: nat, keepCompare: bool, need: seq<bool>, s: Rebuild)
    requires WellFormed(t) && 1 <= j < |t.opVec| && RebuildInv(t, j, need, s)
    requires Kept(t, j, keepCompare, need) && t.opVec[j].op.Call?
    ensures RebuildInv(t, j + 1, need, KeepStep(t, j, keepCompare, need, s))
  {
    AboveSentinel(t, j);
    ResBounds(t, j);
    var o := t.opVec[j];
    CallArgsMap(t, j, need, s);
    AppendCallRecorded(s.tape, CallOp.AtomicIndex(o.argIndex, t.argVec), CallOp.CallId(o.argIndex, t.argVec),
                       ResCount(t, j), CallArgs(t, j, need, s.newIndex));
  }

  /** One step of the forward sweep keeps the invariant. */
  lemma KeepStepInv(t: TapeValue, j: nat, keepCompare: bool, need: seq<bool>, s: Rebuild)
    requires WellFormed(t) && 1 <= j < |t.opVec| && RebuildInv(t, j, need, s)
    requires NeedClosedAt(t, j, keepCompare, need)
    ensures RebuildInv(t, j + 1, need, KeepStep(t, j, keepCompare, need, s))
  {
    if !Kept(t, j, keepCompare, need) {
      DropInv(t, j, keepCompare, need, s);
    } else {
      match t.opVec[j].op
      case Add => KeepBinaryInv(t, j, keepCompare, need, s);
      case Sub => KeepBinaryInv(t, j, keepCompare, need, s);
      case Con => KeepConInv(t, j, keepCompare, need, s);
      case Comp => KeepCompInv(t, j, keepCompare, need, s);
      case Call => KeepCallInv(t, j, keepCompare, need, s);
    }
  }

  /** The whole forward sweep stays in the invariant when `need` is closed. */
  lemma {:induction false} RebuildUpToInv(t: TapeValue, i: nat, keepCompare: bool, need: seq<bool>)
    requires WellFormed(t) && 1 <= i <= |t.opVec| && NeedClosed(t, keepCompare, need)
    ensures RebuildInv(t, i, need, RebuildUpTo(t, i, keepCompare, need))
    decreases i
  {
    if i == 1 {
      StartInv(t, need);
    } else {
      RebuildUpToInv(t, i - 1, keepCompare, need);
      KeepStepInv(t, i - 1, keepCompare, need, RebuildUpTo(t, i - 1, keepCompare, need));
    }
  }

  /** What dead_code promises: the rebuilt tape is well formed, keeps the
      independents, is no larger than the original, and has one dependent
      per original dependent, each a value of the new tape; a dependent that
      was an independent or the sentinel stays where it was. */
  lemma DeadCodeWellFormed(t: TapeValue, keepCompare: bool, conVals: seq<Value>, rev: CallOp.Reverse)
    requires WellFormed(t) && |conVals| == t.nVal && CallOp.ReverseSized(rev)
    ensures var r := DeadCodeResult(t, keepCompare, conVals, rev, Corrected);
            WellFormed(r) && r.nInd == t.nInd && r.nVal <= t.nVal && |r.opVec| <= |t.opVec| &&
            |r.depVec| == |t.depVec| &&
            forall k :: 0 <= k < |t.depVec| && t.depVec[k] <= t.nInd ==> r.depVec[k] == t.depVec[k]
  {
    var need := Needs(t, keepCompare, conVals, rev, Corrected);
    NeedsClosed(t, keepCompare, conVals, rev);
    var n := |t.opVec|;
    RebuildUpToInv(t, n, keepCompare, need);
    var s := RebuildUpTo(t, n, keepCompare, need);
    var dep := MapThrough(s.newIndex, t.depVec);
    forall k | 0 <= k < |dep|
      ensures dep[k] < s.tape.nVal
    {
      assert need[t.depVec[k]];
    }
    WithDepsRecorded(s.tape, dep);
  }

  // ---------------------------------------------------------------------
  // The reverse sweep as written

  /** A reverse dependency bridge for an atomic function every output of
      which depends on every input. */
  function AnyOutput(atomicIndex: nat, callId: nat, conX: seq<Value>, typeX: seq<AdType>, dependY: seq<bool>): (dependX: seq<bool>)
    ensures |dependX| == |conX|
    ensures forall k :: 0 <= k < |dependX| ==> dependX[k] == (true in dependY)
  {
    seq(|conX|, _ => true in dependY)
  }

  /** n_ind = 1; slot 1 is the sentinel; v2 = v0 + v0; v3 = f(v2) for an
      atomic f; v4 = v2 + v2; the one dependent is v4. */
  const CallTape: TapeValue :=
    TapeValue(1, 5, [0, 0, 0, 5, 1, 1, 0, 2, 2, 2],
              [OpInfo(0, 1, Con), OpInfo(1, 2, Add), OpInfo(3, 3, Call), OpInfo(8, 4, Add)],
              [Nan], [4])

  /** n_ind = 1; slot 1 is the sentinel; v2 = 3; the comparison v0 < v2;
      the one dependent is v0. */
  const CompTape: TapeValue :=
    TapeValue(1, 3, [0, 1, 2, 0, 2],
              [OpInfo(0, 1, Con), OpInfo(1, 2, Con), OpInfo(2, 3, Comp)],
              [Nan, Num(3)], [0])

  /** CallTape is what the recorders produce after set_ind(1). */
  lemma CallTapeWellFormed()
    ensures WellFormed(CallTape)
  {
    var t0 := FreshSetInd(1);
    AppendBinaryRecorded(t0, Add, 0, 0);
    var t1 := Append(t0, Add, [0, 0], []);
    AppendCallRecorded(t1, 1, 0, 1, [2]);
    var t2 := Append(t1, Call, CallOp.CallRun(1, 0, 1, [2]), []);
    AppendBinaryRecorded(t2, Add, 2, 2);
    var t3 := Append(t2, Add, [2, 2], []);
    assert t3.argVec == CallTape.argVec && t3.opVec == CallTape.opVec && t3.nVal == 5;
    WithDepsRecorded(t3, [4]);
    assert t3.(depVec := [4]) == CallTape;
  }

  /** CompTape is what the recorders produce after set_ind(1). */
  lemma CompTapeWellFormed()
    ensures WellFormed(CompTape)
  {
    var t0 := FreshSetInd(1);
    AppendConRecorded(t0, Num(3));
    var t1 := Append(t0, Con, [1], [Num(3)]);
    AppendCompRecorded(t1, 2, 0, 2);
    var t2 := Append(t1, Comp, [2, 0, 2], []);
    assert t2.argVec == CompTape.argVec && t2.opVec == CompTape.opVec && t2.conVec == CompTape.conVec;
    WithDepsRecorded(t2, [0]);
    assert t2.(depVec := [0]) == CompTape;
  }

  /** On CallTape the as-written call step clears the flag of v2. */
  lemma CallTapeCallStep()
    ensures WellFormed(CallTape)
    ensures NeedStep(CallTape, 2, false, AllNan(5), AnyOutput, [false, false, true, false, true], AsWritten)
            == [false, false, false, false, true]
  {
    CallTapeWellFormed();
    var t := CallTape;
    var need := [false, false, true, false, true];
    var dx := NeedDependX(t, 2, AllNan(5), AnyOutput, need);
    assert need[3..4] == [false];
    assert dx == [false];
  }

  /** The as-written sweep over CallTape: the call clears the flag of v2. */
  lemma CallTapeNeedsAsWritten()
    ensures WellFormed(CallTape)
    ensures Needs(CallTape, false, AllNan(5), AnyOutput, AsWritten) == [false, false, false, false, true]
  {
    CallTapeCallStep();
    var t, c := CallTape, AllNan(5);
    var init := InitNeed(t);
    assert init == [false, false, false, false, true];
    var w3 := NeedStep(t, 3, false, c, AnyOutput, init, AsWritten);
    assert w3 == [false, false, true, false, true];
    assert NeedFrom(t, 2, false, c, AnyOutput, AsWritten) == init;
    assert NeedStep(t, 1, false, c, AnyOutput, init, AsWritten) == init;
  }

  /** The as-written sweep over CompTape marks only the dependent v0. */
  lemma CompTapeNeedsAsWritten()
    ensures WellFormed(CompTape)
    ensures Needs(CompTape, true, AllNan(3), AnyOutput, AsWritten) == [true, false, false]
  {
    CompTapeWellFormed();
    var t, c := CompTape, AllNan(3);
    var init := InitNeed(t);
    assert init == [true, false, false];
    assert NeedStep(t, 2, true, c, AnyOutput, init, AsWritten) == init;
  }

  /** Under the as-written flags neither v2's add nor the call is re-recorded. */
  lemma CallTapeDrops()
    ensures WellFormed(CallTape)
    ensures var need := [false, false, false, false, true];
            KeepStep(CallTape, 2, false, need, KeepStep(CallTape, 1, false, need, Start(CallTape))) == Start(CallTape)
  {
    CallTapeWellFormed();
    var t := CallTape;
    var need := [false, false, false, false, true];
    assert !Kept(t, 1, false, need);
    assert need[3..4] == [false];
    assert !Kept(t, 2, false, need);
  }

  /** Rebuilding v4's producer after both earlier invocations were dropped
      records the sum of the out-of-range marker 5 with itself. */
  lemma CallTapeKeepsSum()
    ensures WellFormed(CallTape)
    ensures var need := [false, false, false, false, true];
            var s4 := KeepStep(CallTape, 3, false, need, Start(CallTape));
            1 < |s4.tape.opVec| && s4.tape.opVec[1] == OpInfo(1, 2, Add) && 1 < |s4.tape.argVec| && s4.tape.argVec[1] == 5
  {
    CallTapeWellFormed();
    var t := CallTape;
    var need := [false, false, false, false, true];
    var s0 := Start(t);
    assert s0.newIndex[2] == 5;
    assert need[4..5] == [true];
    assert Kept(t, 3, false, need);
  }

  /** The as-written rebuild of CallTape drops v2's producer and records v4
      as the sum of the out-of-range marker 5 with itself. */
  lemma CallTapeRebuildAsWritten()
    ensures WellFormed(CallTape)
    ensures var r := DeadCodeResult(CallTape, false, AllNan(5), AnyOutput, AsWritten);
            1 < |r.opVec| && r.opVec[1] == OpInfo(1, 2, Add) && 1 < |r.argVec| && r.argVec[1] == 5
  {
    CallTapeNeedsAsWritten();
    CallTapeDrops();
    CallTapeKeepsSum();
    var t := CallTape;
    var need := [false, false, false, false, true];
    assert RebuildUpTo(t, 3, false, need) == Start(t);
  }

  /** The as-written rebuild of CompTape records the comparison of v0 with
      the out-of-range marker 3. */
  lemma CompTapeRebuildAsWritten()
    ensures WellFormed(CompTape)
    ensures var r := DeadCodeResult(CompTape, true, AllNan(3), AnyOutput, AsWritten);
            1 < |r.opVec| && r.opVec[1] == OpInfo(1, 2, Comp) && 3 < |r.argVec| && r.argVec[3] == 3
  {
    CompTapeNeedsAsWritten();
    var t := CompTape;
    var need := [true, false, false];
    var s2 := KeepStep(t, 1, true, need, Start(t));
    assert s2 == Start(t);
    var s3 := KeepStep(t, 2, true, need, s2);
    assert s3.tape.opVec[1] == OpInfo(1, 2, Comp) && s3.tape.argVec[3] == 3;
  }

  /** The call overwrites the need flag of v2, which v4 needs, with "not
      needed" because v3 is unused; the add producing v2 is then dropped and
      the rebuilt v4 reads the out-of-range marker 5, so the rebuilt tape is
      not well formed. The corrected sweep keeps v2 needed. */
  lemma CallOverwritesNeed()
    ensures WellFormed(CallTape)
    ensures !NeedClosed(CallTape, false, Needs(CallTape, false, AllNan(5), AnyOutput, AsWritten))
    ensures !Recorded(DeadCodeResult(CallTape, false, AllNan(5), AnyOutput, AsWritten))
  {
    CallTapeUnclosed();
    CallTapeRebuildBroken();
  }

  /** As written, v4's add is kept but its operand v2 is not needed. */
  lemma CallTapeUnclosed()
    ensures WellFormed(CallTape)
    ensures !NeedClosed(CallTape, false, Needs(CallTape, false, AllNan(5), AnyOutput, AsWritten))
  {
    CallTapeNeedsAsWritten();
    var t := CallTape;
    var need := [false, false, false, false, true];
    assert Kept(t, 3, false, need) && t.argVec[8] == 2 && !need[2];
    assert !NeedClosedAt(t, 3, false, need);
  }

  /** As written, the rebuilt v4 reads a value index above its own result. */
  lemma CallTapeRebuildBroken()
    ensures WellFormed(CallTape)
    ensures !Recorded(DeadCodeResult(CallTape, false, AllNan(5), AnyOutput, AsWritten))
  {
    CallTapeRebuildAsWritten();
    var r := DeadCodeResult(CallTape, false, AllNan(5), AnyOutput, AsWritten);
    assert !OpFits(r, 1);
  }

  /** On CallTape the corrected sweep keeps v2 needed, and the rebuilt tape is well formed. */
  lemma CallTapeCorrected()
    ensures WellFormed(CallTape)
    ensures Needs(CallTape, false, AllNan(5), AnyOutput, Corrected)[2]
    ensures WellFormed(DeadCodeResult(CallTape, false, AllNan(5), AnyOutput, Corrected))
  {
    CallTapeWellFormed();
    var t, c := CallTape, AllNan(5);
    var w3 := NeedStep(t, 3, false, c, AnyOutput, InitNeed(t), Corrected);
    assert InitNeed(t)[4];
    assert w3[2];
    NeedFromGrows(t, 0, 3, false, c, AnyOutput);
    DeadCodeWellFormed(t, false, c, AnyOutput);
  }

  /** With comparisons kept, the comparison is re-recorded, but as written
      nothing marks its operand v2; the constant load producing v2 is
      dropped and the rebuilt comparison reads the out-of-range marker 3.
      The corrected sweep marks v2. */
  lemma KeptCompareUnmarked()
    ensures WellFormed(CompTape)
    ensures !NeedClosed(CompTape, true, Needs(CompTape, true, AllNan(3), AnyOutput, AsWritten))
    ensures !Recorded(DeadCodeResult(CompTape, true, AllNan(3), AnyOutput, AsWritten))
  {
    CompTapeUnclosed();
    CompTapeRebuildBroken();
  }

  /** As written, the kept comparison reads v2, which is not needed. */
  lemma CompTapeUnclosed()
    ensures WellFormed(CompTape)
    ensures !NeedClosed(CompTape, true, Needs(CompTape, true, AllNan(3), AnyOutput, AsWritten))
  {
    CompTapeNeedsAsWritten();
    var t := CompTape;
    var need := [true, false, false];
    assert KeepsCompare(t, 2, true) && Kept(t, 2, true, need);
    assert t.argVec[4] == 2 && !need[2];
    assert !NeedClosedAt(t, 2, true, need);
  }

  /** As written, the rebuilt comparison reads a value index above its own position. */
  lemma CompTapeRebuildBroken()
    ensures WellFormed(CompTape)
    ensures !Recorded(DeadCodeResult(CompTape, true, AllNan(3), AnyOutput, AsWritten))
  {
    CompTapeRebuildAsWritten();
    var r := DeadCodeResult(CompTape, true, AllNan(3), AnyOutput, AsWritten);
    assert !OpFits(r, 1);
  }

  /** On CompTape the corrected sweep marks v2, and the rebuilt tape is well formed. */
  lemma CompTapeCorrected()
    ensures WellFormed(CompTape)
    ensures Needs(CompTape, true, AllNan(3), AnyOutput, Corrected)[2]
    ensures WellFormed(DeadCodeResult(CompTape, true, AllNan(3), AnyOutput, Corrected))
  {
    CompTapeWellFormed();
    var t, c := CompTape, AllNan(3);
    assert KeepsCompare(t, 2, true);
    var w2 := NeedStep(t, 2, true, c, AnyOutput, InitNeed(t), Corrected);
    assert w2[2];
    NeedFromGrows(t, 0, 2, true, c, AnyOutput);
    DeadCodeWellFormed(t, true, c, AnyOutput);
  }

  // ---------------------------------------------------------------------
  // dead_code

  /** need_val_index before the reverse sweep: exactly the dependents. */
  method InitNeedFlags(nVal: nat, depVec: seq<nat>) returns (need: array<bool>)
    requires forall k :: 0 <= k < |depVec| ==> depVec[k] < nVal
    ensures fresh(need) && need[..] == SetAll(seq(nVal, _ => false), depVec, true)
  {
    need := new bool[nVal](_ => false);
    assert need[..] == seq(nVal, _ => false);
    var k := 0;
    while k < |depVec|
      invariant 0 <= k <= |depVec|
      invariant need[..] == SetAll(seq(nVal, _ => false), depVec[..k], true)
    {
      assert depVec[..k + 1][..k] == depVec[..k];
      need[depVec[k]] := true;
      k := k + 1;
    }
    assert depVec[..|depVec|] == depVec;
  }

  /** Marks every value named by `argVec[lo..hi)` as needed. */
  method MarkOperands(need: array<bool>, argVec: seq<nat>, lo: nat, hi: nat)
    requires lo <= hi <= |argVec| && IndicesBelow(argVec, lo, hi, need.Length)
    modifies need
    ensures need[..] == MarkRun(old(need[..]), argVec, lo, hi)
  {
    var p := lo;
    while p < hi
      invariant lo <= p <= hi
      invariant need[..] == MarkRun(old(need[..]), argVec, lo, p)
    {
      need[argVec[p]] := true;
      p := p + 1;
    }
  }

  /** Ors the call's dependency flags into its inputs' need flags. */
  method OrDepend(need: array<bool>, argVec: seq<nat>, lo: nat, dependX: seq<bool>)
    requires lo + |dependX| <= |argVec| && IndicesBelow(argVec, lo, lo + |dependX|, need.Length)
    modifies need
    ensures need[..] == SetSelected(old(need[..]), argVec, lo, dependX, Corrected)
  {
    var k := 0;
    while k < |dependX|
      invariant 0 <= k <= |dependX|
      invariant need[..] == SetSelected(old(need[..]), argVec, lo, dependX[..k], Corrected)
    {
      assert dependX[..k + 1][..k] == dependX[..k];
      var v := argVec[lo + k];
      need[v] := need[v] || dependX[k];
      k := k + 1;
    }
    assert dependX[..|dependX|] == dependX;
  }

  /** The corrected reverse sweep at a call whose run starts at `argIndex`
      and whose results start at `resIndex`: the flags of its results are
      its depend_y, and the bridge's depend_x is or-ed into its inputs. */
  method CallNeedRun(argIndex: nat, argVec: seq<nat>, resIndex: nat, conVals: seq<Value>,
                     rev: CallOp.Reverse, need: array<bool>)
    requires CallOp.CallFits(argIndex, argVec, resIndex, |conVals|) && need.Length == |conVals|
    requires CallOp.ReverseSized(rev)
    modifies need
    ensures need[..] == SetSelected(old(need[..]), argVec, argIndex + CallOp.NAux,
                                    CallOp.DependX(argIndex, argVec, resIndex, conVals,
                                                   old(need[..])[resIndex..resIndex + CallOp.NRes(argIndex, argVec)], rev),
                                    Corrected)
  {
    var dependY := need[resIndex..resIndex + argVec[argIndex + 1]];
    var dependX := CallOp.RevDependX(argIndex, argVec, resIndex, conVals, dependY, rev);
    OrDepend(need, argVec, argIndex + CallOp.NAux, dependX);
  }

  /** The reverse sweep at call `j`. */
  method CallNeedOp(t: TapeValue, j: nat, conVals: seq<Value>, rev: CallOp.Reverse, need: array<bool>)
    requires Recorded(t) && j < |t.opVec| && t.opVec[j].op.Call?
    requires |conVals| == t.nVal && need.Length == t.nVal && CallOp.ReverseSized(rev)
    modifies need
    ensures need[..] == CallNeed(t, j, conVals, rev, old(need[..]), Corrected)
  {
    ResBounds(t, j);
    var o := t.opVec[j];
    CallNeedRun(o.argIndex, t.argVec, o.resIndex, conVals, rev, need);
  }

  /** The reverse sweep at invocation `j`. */
  method NeedOp(t: TapeValue, j: nat, keepCompare: bool, conVals: seq<Value>, rev: CallOp.Reverse, need: array<bool>)
    requires Recorded(t) && j < |t.opVec|
    requires |conVals| == t.nVal && need.Length == t.nVal && CallOp.ReverseSized(rev)
    modifies need
    ensures need[..] == NeedStep(t, j, keepCompare, conVals, rev, old(need[..]), Corrected)
  {
    ResBounds(t, j);
    var o := t.opVec[j];
    match o.op
    case Add =>
      if need[o.resIndex] {
        MarkOperands(need, t.argVec, o.argIndex, o.argIndex + 2);
      }
    case Sub =>
      if need[o.resIndex] {
        MarkOperands(need, t.argVec, o.argIndex, o.argIndex + 2);
      }
    case Con =>
    case Comp =>
      if keepCompare && t.argVec[o.argIndex] != CompareNo {
        MarkOperands(need, t.argVec, o.argIndex + 1, o.argIndex + 3);
      }
    case Call =>
      CallNeedOp(t, j, conVals, rev, need);
  }

  /** The reverse sweep of dead_code, corrected. */
  method NeedSweep(t: TapeValue, keepCompare: bool, conVals: seq<Value>, rev: CallOp.Reverse) returns (need: seq<bool>)
    requires Recorded(t) && |conVals| == t.nVal && CallOp.ReverseSized(rev)
    ensures need == Needs(t, keepCompare, conVals, rev, Corrected)
  {
    var flags := InitNeedFlags(t.nVal, t.depVec);
    var i := |t.opVec|;
    while 0 < i
      invariant 0 <= i <= |t.opVec| && flags.Length == t.nVal
      invariant flags[..] == NeedFrom(t, i, keepCompare, conVals, rev, Corrected)
    {
      i := i - 1;
      NeedOp(t, i, keepCompare, conVals, rev, flags);
    }
    need := flags[..];
  }

  /** need_op: whether the forward sweep keeps invocation `j`. */
  method KeptOp(t: TapeValue, j: nat, keepCompare: bool, need: seq<bool>) returns (needOp: bool)
    requires Recorded(t) && j < |t.opVec| && |need| == t.nVal
    ensures needOp == Kept(t, j, keepCompare, need)
  {
    ResBounds(t, j);
    var o := t.opVec[j];
    var nRes := NRes(o.op, o.argIndex, t.argVec);
    needOp := false;
    if nRes == 0 {
      needOp := keepCompare;
      needOp := needOp && t.argVec[o.argIndex] != CompareNo;
    } else {
      var k := 0;
      while k < nRes
        invariant 0 <= k <= nRes
        invariant needOp == (true in need[o.resIndex..o.resIndex + k])
      {
        assert need[o.resIndex..o.resIndex + k + 1] == need[o.resIndex..o.resIndex + k] + [need[o.resIndex + k]];
        needOp := needOp || need[o.resIndex + k];
        k := k + 1;
      }
    }
  }

  /** Re-records a kept add or sub. */
  method RecordBinary(t: TapeValue, j: nat, keepCompare: bool, need: seq<bool>, nt: Tape, ni: array<nat>)
    requires WellFormed(t) && 1 <= j < |t.opVec| && RebuildInv(t, j, need, Rebuild(nt.Data(), ni[..]))
    requires NeedClosedAt(t, j, keepCompare, need) && Kept(t, j, keepCompare, need) && IsBinary(t.opVec[j].op)
    modifies nt, ni
    ensures Rebuild(nt.Data(), ni[..]) == KeepStep(t, j, keepCompare, need, Rebuild(old(nt.Data()), old(ni[..])))
  {
    ResBounds(t, j);
    var o := t.opVec[j];
    var x, y := t.argVec[o.argIndex], t.argVec[o.argIndex + 1];
    OperandMaps(t, j, need, Rebuild(nt.Data(), ni[..]), x);
    OperandMaps(t, j, need, Rebuild(nt.Data(), ni[..]), y);
    var opArg := [ni[x], ni[y]];
    var r := nt.RecordOp(o.op, opArg);
    assert opArg[..2] == opArg;
    ni[o.resIndex] := r;
  }

  /** Re-records a kept constant load, with the same pool value. */
  method RecordCon(t: TapeValue, j: nat, keepCompare: bool, need: seq<bool>, nt: Tape, ni: array<nat>)
    requires WellFormed(t) && 1 <= j < |t.opVec| && RebuildInv(t, j, need, Rebuild(nt.Data(), ni[..]))
    requires Kept(t, j, keepCompare, need) && t.opVec[j].op.Con?
    modifies nt, ni
    ensures Rebuild(nt.Data(), ni[..]) == KeepStep(t, j, keepCompare, need, Rebuild(old(nt.Data()), old(ni[..])))
  {
    ResBounds(t, j);
    var o := t.opVec[j];
    var r := nt.RecordConOp(t.conVec[t.argVec[o.argIndex]]);
    ni[o.resIndex] := r;
  }

  /** Re-records a kept comparison. */
  method RecordComp(t: TapeValue, j: nat, keepCompare: bool, need: seq<bool>, nt: Tape, ni: array<nat>)
    requires WellFormed(t) && 1 <= j < |t.opVec| && RebuildInv(t, j, need, Rebuild(nt.Data(), ni[..]))
    requires NeedClosedAt(t, j, keepCompare, need) && Kept(t, j, keepCompare, need) && t.opVec[j].op.Comp?
    modifies nt
    ensures Rebuild(nt.Data(), ni[..]) == KeepStep(t, j, keepCompare, need, Rebuild(old(nt.Data()), ni[..]))
  {
    ResBounds(t, j);
    var o := t.opVec[j];
    var x, y := t.argVec[o.argIndex + 1], t.argVec[o.argIndex + 2];
    OperandMaps(t, j, need, Rebuild(nt.Data(), ni[..]), x);
    OperandMaps(t, j, need, Rebuild(nt.Data(), ni[..]), y);
    nt.RecordCompOp(t.argVec[o.argIndex], ni[x], ni[y]);
  }

  /** call_op_arg: a needed input through `newIndex`, any other the sentinel. */
  method CallArgsOf(t: TapeValue, j: nat, need: seq<bool>, ni: array<nat>) returns (args: seq<nat>)
    requires Recorded(t) && j < |t.opVec| && t.opVec[j].op.Call? && |need| == t.nVal && ni.Length == t.nVal
    ensures args == CallArgs(t, j, need, ni[..])
  {
    ResBounds(t, j);
    var o := t.opVec[j];
    var lo := o.argIndex + CallOp.NAux;
    var nX := CallOp.NArg(o.argIndex, t.argVec) - CallOp.NAux;
    args := [];
    var k := 0;
    while k < nX
      invariant 0 <= k <= nX && |args| == k
      invariant forall q :: 0 <= q < k ==> args[q] == (if need[t.argVec[lo + q]] then ni[t.argVec[lo + q]] else t.nInd)
    {
      var v := t.argVec[lo + k];
      args := args + [if need[v] then ni[v] else t.nInd];
      k := k + 1;
    }
  }

  /** Maps the `n` results starting at `res` to the `n` new results starting at `base`. */
  method RenumberResults(ni: array<nat>, res: nat, n: nat, base: nat)
    requires res + n <= ni.Length
    modifies ni
    ensures ni[..] == Renumber(old(ni[..]), res, n, base)
  {
    var k := 0;
    while k < n
      invariant 0 <= k <= n
      invariant ni[..] == Renumber(old(ni[..]), res, k, base)
    {
      ni[res + k] := base + k;
      k := k + 1;
    }
  }

  /** Re-records a kept call and maps its results to the new ones. */
  method RecordCall(t: TapeValue, j: nat, keepCompare: bool, need: seq<bool>, nt: Tape, ni: array<nat>)
    requires WellFormed(t) && 1 <= j < |t.opVec| && RebuildInv(t, j, need, Rebuild(nt.Data(), ni[..]))
    requires Kept(t, j, keepCompare, need) && t.opVec[j].op.Call?
    modifies nt, ni
    ensures Rebuild(nt.Data(), ni[..]) == KeepStep(t, j, keepCompare, need, Rebuild(old(nt.Data()), old(ni[..])))
  {
    ResBounds(t, j);
    var o := t.opVec[j];
    CallArgsMap(t, j, need, Rebuild(nt.Data(), ni[..]));
    var args := CallArgsOf(t, j, need, ni);
    var nRes := CallOp.NRes(o.argIndex, t.argVec);
    var r := nt.RecordCallOp(CallOp.AtomicIndex(o.argIndex, t.argVec), CallOp.CallId(o.argIndex, t.argVec), nRes, args);
    RenumberResults(ni, o.resIndex, nRes, r);
  }

  /** The forward sweep at invocation `j`. */
  method KeepOp(t: TapeValue, j: nat, keepCompare: bool, need: seq<bool>, nt: Tape, ni: array<nat>)
    requires WellFormed(t) && 1 <= j < |t.opVec| && RebuildInv(t, j, need, Rebuild(nt.Data(), ni[..]))
    requires NeedClosedAt(t, j, keepCompare, need)
    modifies nt, ni
    ensures Rebuild(nt.Data(), ni[..]) == KeepStep(t, j, keepCompare, need, Rebuild(old(nt.Data()), old(ni[..])))
  {
    var needOp := KeptOp(t, j, keepCompare, need);
    if needOp {
      match t.opVec[j].op
      case Add => RecordBinary(t, j, keepCompare, need, nt, ni);
      case Sub => RecordBinary(t, j, keepCompare, need, nt, ni);
      case Con => RecordCon(t, j, keepCompare, need, nt, ni);
      case Comp => RecordComp(t, j, keepCompare, need, nt, ni);
      case Call => RecordCall(t, j, keepCompare, need, nt, ni);
    }
  }

  /** dep_vec: the dependents mapped through `newIndex`. */
  method MapDeps(ni: array<nat>, dep: seq<nat>) returns (r: seq<nat>)
    requires forall k :: 0 <= k < |dep| ==> dep[k] < ni.Length
    ensures r == MapThrough(ni[..], dep)
  {
    r := [];
    var k := 0;
    while k < |dep|
      invariant 0 <= k <= |dep| && |r| == k
      invariant forall q :: 0 <= q < k ==> r[q] == ni[dep[q]]
    {
      r := r + [ni[dep[k]]];
      k := k + 1;
    }
  }

  /** The forward sweep over invocations 1 onward, re-recording onto `nt`. */
  method ForwardSweep(t: TapeValue, keepCompare: bool, need: seq<bool>, nt: Tape, ni: array<nat>)
    requires WellFormed(t) && NeedClosed(t, keepCompare, need)
    requires Rebuild(nt.Data(), ni[..]) == RebuildUpTo(t, 1, keepCompare, need)
    modifies nt, ni
    ensures Rebuild(nt.Data(), ni[..]) == RebuildUpTo(t, |t.opVec|, keepCompare, need)
  {
    var i := 1;
    while i < |t.opVec|
      invariant 1 <= i <= |t.opVec|
      invariant Rebuild(nt.Data(), ni[..]) == RebuildUpTo(t, i, keepCompare, need)
    {
      RebuildUpToInv(t, i, keepCompare, need);
      KeepOp(t, i, keepCompare, need, nt, ni);
      i := i + 1;
    }
  }

  /** tape_t::dead_code: marks what the dependents need (with the corrected
      sweep), re-records the kept invocations on a fresh tape, maps the
      dependents, and swaps the fresh tape in. */
  method DeadCode(tape: Tape, keepCompare: bool, fwd: CallOp.Forward, rev: CallOp.Reverse)
    requires tape.Valid() && SentinelFirst(tape.Data()) && CallOp.ForwardSized(fwd) && CallOp.ReverseSized(rev)
    modifies tape
    ensures tape.Data() == DeadCodeResult(old(tape.Data()), keepCompare, NanValues(old(tape.Data()), fwd), rev, Corrected)
    ensures tape.Valid() && SentinelFirst(tape.Data())
  {
    var t := tape.Data();
    var conVals := NanValues(t, fwd);
    var need := NeedSweep(t, keepCompare, conVals, rev);
    NeedsClosed(t, keepCompare, conVals, rev);
    //
    // new_tape, new_val_index
    var newTape := new Tape();
    var nanAddr := newTape.SetInd(t.nInd);
    var newIndex := new nat[t.nVal](v => if v <= t.nInd then v else t.nVal);
    assert newIndex[..] == Start(t).newIndex;
    ForwardSweep(t, keepCompare, need, newTape, newIndex);
    //
    // dep_vec
    RebuildUpToInv(t, |t.opVec|, keepCompare, need);
    var dep := MapDeps(newIndex, t.depVec);
    DeadCodeWellFormed(t, keepCompare, conVals, rev);
    newTape.SetDep(dep);
    tape.Swap(newTape);
  }
}
