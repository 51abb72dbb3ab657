/** Dead code elimination is idempotent on tapes without calls: running it
    a second time, with the same choice about comparisons, gives back the
    tape the first run produced. Every value the first run needed is needed
    again, at its new index, in the rebuilt tape; so the second forward
    sweep keeps every invocation and re-records each exactly as it stands. */
module DeadCodeIdempotence {
  import opened Values
  import opened OpKinds
  import CallOp
  import opened Runs
  import opened ValGraph
  import opened DeadCodePass
  import opened DeadCodeSemantics

  /** No invocation of `t` is a call. */
  ghost predicate CallFree(t: TapeValue)
  {
    forall j :: 0 <= j < |t.opVec| ==> !t.opVec[j].op.Call?
  }

  // ---------------------------------------------------------------------
  // Why a value is needed

  /** Operand word `p` of invocation `j`, which is no call and is kept under
      `need`, names `v`. */
  ghost predicate KeptRead(t: TapeValue, j: nat, keepCompare: bool, need: seq<bool>, p: nat, v: nat)
    requires Recorded(t) && j < |t.opVec| && |need| == t.nVal
  {
    HeaderAt(t, j);
    !t.opVec[j].op.Call? && Kept(t, j, keepCompare, need) &&
    FirstOperand(t, j) <= p < LastOperand(t, j) && p < |t.argVec| && t.argVec[p] == v
  }

  /** Whether an invocation is kept depends only on the flags of its results. */
  lemma KeptLocal(t: TapeValue, j: nat, keepCompare: bool, n1: seq<bool>, n2: seq<bool>)
    requires Recorded(t) && j < |t.opVec| && |n1| == t.nVal && |n2| == t.nVal
    requires forall v :: t.opVec[j].resIndex <= v < t.nVal ==> n1[v] == n2[v]
    ensures Kept(t, j, keepCompare, n1) == Kept(t, j, keepCompare, n2)
  {
    ResBounds(t, j);
  }

  /** A flag the corrected sweep raises at a step other than a call's comes
      from a word of that step's kept invocation. */
  lemma NeedStepFrom(t: TapeValue, j: nat, keepCompare: bool, conVals: seq<Value>, rev: CallOp.Reverse,
                     need: seq<bool>, v: nat)
    requires Recorded(t) && j < |t.opVec| && !t.opVec[j].op.Call?
    requires |conVals| == t.nVal && |need| == t.nVal && CallOp.ReverseSized(rev) && v < t.nVal
    requires NeedStep(t, j, keepCompare, conVals, rev, need, Corrected)[v] && !need[v]
    ensures exists p :: KeptRead(t, j, keepCompare, need, p, v)
  {
    ResBounds(t, j);
    NeedStepEffect(t, j, keepCompare, conVals, rev, need, Corrected);
    var lo, hi := FirstOperand(t, j), LastOperand(t, j);
    assert !Untouched(t.argVec, lo, hi, v);
    var p :| lo <= p < hi && t.argVec[p] == v;
    var o := t.opVec[j];
    if IsBinary(o.op) {
      assert need[o.resIndex];
      assert Kept(t, j, keepCompare, need);
    } else {
      assert o.op.Comp? && KeepsCompare(t, j, keepCompare);
    }
    assert KeptRead(t, j, keepCompare, need, p, v);
  }

  /** On a tape without calls, a value the corrected sweep has marked by step
      `i` is a dependent, or is read by a kept invocation from `i` on (kept
      under the final flags). */
  lemma {:induction false} NeedFromJustified(t: TapeValue, i: nat, keepCompare: bool, conVals: seq<Value>,
                                             rev: CallOp.Reverse, v: nat)
    requires Recorded(t) && CallFree(t) && i <= |t.opVec| && |conVals| == t.nVal && CallOp.ReverseSized(rev)
    requires v < t.nVal && NeedFrom(t, i, keepCompare, conVals, rev, Corrected)[v]
    ensures v in t.depVec ||
            exists j, p :: i <= j < |t.opVec| &&
                           KeptRead(t, j, keepCompare, Needs(t, keepCompare, conVals, rev, Corrected), p, v)
    decreases |t.opVec| - i
  {
    var final := Needs(t, keepCompare, conVals, rev, Corrected);
    if i < |t.opVec| {
      var later := NeedFrom(t, i + 1, keepCompare, conVals, rev, Corrected);
      if later[v] {
        NeedFromJustified(t, i + 1, keepCompare, conVals, rev, v);
      } else {
        NeedStepFrom(t, i, keepCompare, conVals, rev, later, v);
        var p :| KeptRead(t, i, keepCompare, later, p, v);
        NeedFromFrame(t, 0, i, keepCompare, conVals, rev, Corrected);
        KeptLocal(t, i, keepCompare, later, final);
        assert KeptRead(t, i, keepCompare, final, p, v);
      }
    }
  }

  /** On a tape without calls, every needed value is a dependent or is read
      by a kept invocation. */
  lemma NeedsJustified(t: TapeValue, keepCompare: bool, conVals: seq<Value>, rev: CallOp.Reverse, v: nat)
    requires Recorded(t) && CallFree(t) && |conVals| == t.nVal && CallOp.ReverseSized(rev) && v < t.nVal
    ensures Needs(t, keepCompare, conVals, rev, Corrected)[v] <==>
              v in t.depVec ||
              exists j, p :: 0 <= j < |t.opVec| &&
                             KeptRead(t, j, keepCompare, Needs(t, keepCompare, conVals, rev, Corrected), p, v)
  {
    var final := Needs(t, keepCompare, conVals, rev, Corrected);
    if final[v] {
      NeedFromJustified(t, 0, keepCompare, conVals, rev, v);
    } else {
      NeedsClosed(t, keepCompare, conVals, rev);
      if j, p :| 0 <= j < |t.opVec| && KeptRead(t, j, keepCompare, final, p, v) {
        assert NeedClosedAt(t, j, keepCompare, final);
      }
    }
  }

  // ---------------------------------------------------------------------
  // The renumbering settles as the forward sweep passes

  /** Step `j` of the forward sweep changes `newIndex` only at its own results. */
  lemma KeepStepFrame(t: TapeValue, j: nat, keepCompare: bool, need: seq<bool>, s: Rebuild)
    requires Recorded(t) && j < |t.opVec| && |need| == t.nVal && |s.newIndex| == t.nVal
    ensures forall v :: 0 <= v < t.opVec[j].resIndex && v < t.nVal ==>
              KeepStep(t, j, keepCompare, need, s).newIndex[v] == s.newIndex[v]
  {
    ResBounds(t, j);
  }

  /** Once the sweep has passed the frontier of `i`, `newIndex` below it never changes. */
  lemma {:induction false} NewIndexSettled(t: TapeValue, i: nat, k: nat, keepCompare: bool, need: seq<bool>)
    requires Recorded(t) && 1 <= i <= k <= |t.opVec| && |need| == t.nVal
    ensures forall v :: 0 <= v < Frontier(t, i) && v < t.nVal ==>
              RebuildUpTo(t, k, keepCompare, need).newIndex[v] == RebuildUpTo(t, i, keepCompare, need).newIndex[v]
    decreases k
  {
    if i < k {
      NewIndexSettled(t, i, k - 1, keepCompare, need);
      KeepStepFrame(t, k - 1, keepCompare, need, RebuildUpTo(t, k - 1, keepCompare, need));
      if i < k - 1 {
        ResOrder(t, i, k - 1);
        ResBounds(t, i);
      }
    }
  }

  // ---------------------------------------------------------------------
  // Where a kept invocation lands in the rebuilt tape

  /** The operand run the forward sweep records for invocation `j`, no
      call, onto `s`: operands renumbered through `s.newIndex`, a constant
      load naming the next pool entry, a comparison keeping its tag. */
  function ImageRun(t: TapeValue, j: nat, s: Rebuild): (run: seq<nat>)
    requires Recorded(t) && j < |t.opVec| && !t.opVec[j].op.Call? && |s.newIndex| == t.nVal
    ensures |run| == NArg(t.opVec[j].op, 0, [])
  {
    ResBounds(t, j);
    var a := t.opVec[j].argIndex;
    var ni := s.newIndex;
    match t.opVec[j].op
    case Con => [|s.tape.conVec|]
    case Comp => [t.argVec[a], ni[t.argVec[a + 1]], ni[t.argVec[a + 2]]]
    case Add => [ni[t.argVec[a]], ni[t.argVec[a + 1]]]
    case Sub => [ni[t.argVec[a]], ni[t.argVec[a + 1]]]
  }

  /** The pool entries the forward sweep records for invocation `j`: the
      constant a load reads, nothing for any other kind. */
  function ImageCons(t: TapeValue, j: nat): (cons: seq<Value>)
    requires Recorded(t) && j < |t.opVec|
  {
    ResBounds(t, j);
    if t.opVec[j].op.Con? then [t.conVec[t.argVec[t.opVec[j].argIndex]]] else []
  }

  /** Keeping invocation `j`, no call, appends its image run and moves its
      result, if any, to the new tape's frontier. */
  lemma KeepStepAppends(t: TapeValue, j: nat, keepCompare: bool, need: seq<bool>, s: Rebuild)
    requires Recorded(t) && j < |t.opVec| && |need| == t.nVal && |s.newIndex| == t.nVal
    requires Kept(t, j, keepCompare, need) && !t.opVec[j].op.Call?
    ensures OpFits(t, j) && ResEnd(t, j) <= t.nVal
    ensures KeepStep(t, j, keepCompare, need, s).tape == Append(s.tape, t.opVec[j].op, ImageRun(t, j, s), ImageCons(t, j))
    ensures t.opVec[j].op.Comp? ==> KeepStep(t, j, keepCompare, need, s).newIndex == s.newIndex
    ensures !t.opVec[j].op.Comp? ==>
              KeepStep(t, j, keepCompare, need, s).newIndex == s.newIndex[t.opVec[j].resIndex := s.tape.nVal]
  {
    ResBounds(t, j);
  }

  /** Value operand `k` of the image run is operand `k` of `j` renumbered. */
  lemma ImageRunOperand(t: TapeValue, j: nat, s: Rebuild, k: nat)
    requires Recorded(t) && j < |t.opVec| && !t.opVec[j].op.Call? && |s.newIndex| == t.nVal
    requires HeaderOk(t, j) && k < LastOperand(t, j) - FirstOperand(t, j)
    ensures OpFits(t, j) && NBefore(t.opVec[j].op) + k < |ImageRun(t, j, s)|
    ensures t.argVec[FirstOperand(t, j) + k] < t.nVal
    ensures ImageRun(t, j, s)[NBefore(t.opVec[j].op) + k] == s.newIndex[t.argVec[FirstOperand(t, j) + k]]
  {
    ResBounds(t, j);
  }

  /** An invocation appended to `p`, no call, reads back from any extension `r`. */
  lemma AppendedImage(p: TapeValue, op: OpKind, run: seq<nat>, cons: seq<Value>, r: TapeValue)
    requires !op.Call? && Extends(Append(p, op, run, cons), r)
    ensures |p.opVec| < |r.opVec| && r.opVec[|p.opVec|] == OpInfo(|p.argVec|, p.nVal, op)
    ensures |p.argVec| + |run| <= |r.argVec| && forall k :: 0 <= k < |run| ==> r.argVec[|p.argVec| + k] == run[k]
    ensures |p.conVec| + |cons| <= |r.conVec| && forall c :: 0 <= c < |cons| ==> r.conVec[|p.conVec| + c] == cons[c]
  {
    var t' := Append(p, op, run, cons);
    assert t'.opVec[|p.opVec|] == OpInfo(|p.argVec|, p.nVal, op);
    forall k | 0 <= k < |run|
      ensures r.argVec[|p.argVec| + k] == run[k]
    {
      assert t'.argVec[|p.argVec| + k] == run[k];
    }
    forall c | 0 <= c < |cons|
      ensures r.conVec[|p.conVec| + c] == cons[c]
    {
      assert t'.conVec[|p.conVec| + c] == cons[c];
    }
  }

  /** The image `q` of kept invocation `j` in an extension `r`: same kind,
      results at the frontier of `s`, value operand `k` renumbered, the
      comparison tag kept. */
  lemma ImageAt(t: TapeValue, j: nat, s: Rebuild, r: TapeValue, k: nat)
    requires Recorded(t) && j < |t.opVec| && !t.opVec[j].op.Call? && |s.newIndex| == t.nVal
    requires Extends(Append(s.tape, t.opVec[j].op, ImageRun(t, j, s), ImageCons(t, j)), r)
    requires HeaderOk(t, j) && k < LastOperand(t, j) - FirstOperand(t, j)
    ensures OpFits(t, j) && ResEnd(t, j) <= t.nVal
    ensures var q := |s.tape.opVec|;
            q < |r.opVec| && r.opVec[q] == OpInfo(|s.tape.argVec|, s.tape.nVal, t.opVec[j].op) &&
            FirstOperand(r, q) + k < LastOperand(r, q) <= |r.argVec| &&
            r.argVec[FirstOperand(r, q) + k] == s.newIndex[t.argVec[FirstOperand(t, j) + k]]
  {
    ResBounds(t, j);
    var run := ImageRun(t, j, s);
    AppendedImage(s.tape, t.opVec[j].op, run, ImageCons(t, j), r);
    ImageRunOperand(t, j, s, k);
    assert r.argVec[|s.tape.argVec| + (NBefore(t.opVec[j].op) + k)] == run[NBefore(t.opVec[j].op) + k];
  }

  /** The image of a kept comparison carries its tag. */
  lemma ImageTag(t: TapeValue, j: nat, s: Rebuild, r: TapeValue)
    requires Recorded(t) && j < |t.opVec| && t.opVec[j].op.Comp? && |s.newIndex| == t.nVal
    requires Extends(Append(s.tape, Comp, ImageRun(t, j, s), ImageCons(t, j)), r)
    ensures OpFits(t, j) && |s.tape.argVec| < |r.argVec| && r.argVec[|s.tape.argVec|] == t.argVec[t.opVec[j].argIndex]
  {
    ResBounds(t, j);
    AppendedImage(s.tape, Comp, ImageRun(t, j, s), ImageCons(t, j), r);
    assert ImageRun(t, j, s)[0] == t.argVec[t.opVec[j].argIndex];
  }

  /** The rebuild after step `i` is extended by the tape dead_code returns. */
  lemma ResultExtends(t: TapeValue, i: nat, keepCompare: bool, conVals: seq<Value>, rev: CallOp.Reverse)
    requires WellFormed(t) && 1 <= i <= |t.opVec| && |conVals| == t.nVal && CallOp.ReverseSized(rev)
    ensures Extends(RebuildUpTo(t, i, keepCompare, Needs(t, keepCompare, conVals, rev, Corrected)).tape,
                    DeadCodeResult(t, keepCompare, conVals, rev, Corrected))
  {
    var need := Needs(t, keepCompare, conVals, rev, Corrected);
    var n := |t.opVec|;
    var sN := RebuildUpTo(t, n, keepCompare, need);
    RebuildUpToExtends(t, i, n, keepCompare, need);
    ExtendsTrans(RebuildUpTo(t, i, keepCompare, need).tape, sN.tape, DeadCodeResult(t, keepCompare, conVals, rev, Corrected));
  }

  // ---------------------------------------------------------------------
  // What was needed stays needed

  /** A read by kept invocation `j` carries over to the tape `r` that holds
      its image: the image of a comparison is kept again, that of an add or
      sub is kept when its result is needed, and flags `need'` closed on `r`
      then need the image of what `j` reads, at its index `ni[v]` (which
      `ni` takes from `s` below the results of `j`). */
  lemma ReadCarries(t: TapeValue, keepCompare: bool, need: seq<bool>, j: nat, p: nat, v: nat,
                    s: Rebuild, ni: seq<nat>, r: TapeValue, need': seq<bool>)
    requires WellFormed(t) && 1 <= j < |t.opVec| && |need| == t.nVal && KeptRead(t, j, keepCompare, need, p, v)
    requires |s.newIndex| == t.nVal && |ni| == t.nVal
    requires Extends(Append(s.tape, t.opVec[j].op, ImageRun(t, j, s), ImageCons(t, j)), r)
    requires forall w :: 0 <= w < t.opVec[j].resIndex && w < t.nVal ==> ni[w] == s.newIndex[w]
    requires Recorded(r) && NeedClosed(r, keepCompare, need')
    requires IsBinary(t.opVec[j].op) ==> s.tape.nVal < r.nVal && need'[s.tape.nVal]
    ensures v < t.nVal && ni[v] < r.nVal && need'[ni[v]]
  {
    ResBounds(t, j);
    var o := t.opVec[j];
    var k := p - FirstOperand(t, j);
    assert t.argVec[p] < o.resIndex;
    ImageAt(t, j, s, r, k);
    var q := |s.tape.opVec|;
    ResBounds(r, q);
    assert r.argVec[FirstOperand(r, q) + k] < r.nVal;
    if IsBinary(o.op) {
      assert Kept(r, q, keepCompare, need');
    } else {
      ImageTag(t, j, s, r);
      assert KeepsCompare(r, q, keepCompare);
    }
    assert NeedClosedAt(r, q, keepCompare, need');
    assert need'[r.argVec[FirstOperand(r, q) + k]];
  }

  /** Value `v` of `t` is needed, at its new index, by flags `need'` on the
      tape `r` the corrected dead_code returns for `t`. */
  ghost predicate Carried(t: TapeValue, keepCompare: bool, conVals: seq<Value>, rev: CallOp.Reverse,
                          r: TapeValue, need': seq<bool>, v: nat)
    requires WellFormed(t) && |conVals| == t.nVal && CallOp.ReverseSized(rev) && |need'| == r.nVal
  {
    v < t.nVal &&
    var ni := RebuildUpTo(t, |t.opVec|, keepCompare, Needs(t, keepCompare, conVals, rev, Corrected)).newIndex;
    ni[v] < r.nVal && need'[ni[v]]
  }

  /** The sentinel constant load at invocation 0 reads no value. */
  lemma SentinelReadsNothing(t: TapeValue, keepCompare: bool, need: seq<bool>)
    requires WellFormed(t) && |need| == t.nVal
    ensures forall p: nat, v: nat :: !KeptRead(t, 0, keepCompare, need, p, v)
  {
    HeaderAt(t, 0);
    assert FirstOperand(t, 0) == LastOperand(t, 0);
  }

  /** One step of the carry-over: what kept invocation `j` reads is carried
      once, for an add or sub, its result is. */
  lemma CarryRead(t: TapeValue, keepCompare: bool, conVals: seq<Value>, rev: CallOp.Reverse,
                  r: TapeValue, need': seq<bool>, j: nat, p: nat, v: nat)
    requires WellFormed(t) && CallFree(t) && |conVals| == t.nVal && CallOp.ReverseSized(rev)
    requires r == DeadCodeResult(t, keepCompare, conVals, rev, Corrected)
    requires Recorded(r) && NeedClosed(r, keepCompare, need')
    requires 1 <= j < |t.opVec| && KeptRead(t, j, keepCompare, Needs(t, keepCompare, conVals, rev, Corrected), p, v)
    requires IsBinary(t.opVec[j].op) ==> Carried(t, keepCompare, conVals, rev, r, need', t.opVec[j].resIndex)
    ensures Carried(t, keepCompare, conVals, rev, r, need', v)
  {
    var need := Needs(t, keepCompare, conVals, rev, Corrected);
    var n := |t.opVec|;
    var ni := RebuildUpTo(t, n, keepCompare, need).newIndex;
    AboveSentinel(t, j);
    var s := RebuildUpTo(t, j, keepCompare, need);
    KeepStepAppends(t, j, keepCompare, need, s);
    var s1 := RebuildUpTo(t, j + 1, keepCompare, need);
    assert s1 == KeepStep(t, j, keepCompare, need, s);
    ResultExtends(t, j + 1, keepCompare, conVals, rev);
    NewIndexSettled(t, j, n, keepCompare, need);
    if IsBinary(t.opVec[j].op) {
      NewIndexSettled(t, j + 1, n, keepCompare, need);
      assert ni[t.opVec[j].resIndex] == s.tape.nVal;
    }
    ReadCarries(t, keepCompare, need, j, p, v, s, ni, r, need');
  }

  /** On a tape without calls, every value the corrected sweep needs is
      needed again, at its new index, in the tape dead_code returns, by any
      flags `need'` closed on that tape. */
  lemma {:induction false} NeedsCarryOver(t: TapeValue, keepCompare: bool, conVals: seq<Value>, rev: CallOp.Reverse,
                                          r: TapeValue, need': seq<bool>, v: nat)
    requires WellFormed(t) && CallFree(t) && |conVals| == t.nVal && CallOp.ReverseSized(rev)
    requires r == DeadCodeResult(t, keepCompare, conVals, rev, Corrected)
    requires Recorded(r) && NeedClosed(r, keepCompare, need')
    requires v < t.nVal && Needs(t, keepCompare, conVals, rev, Corrected)[v]
    ensures Carried(t, keepCompare, conVals, rev, r, need', v)
    decreases t.nVal - v
  {
    var need := Needs(t, keepCompare, conVals, rev, Corrected);
    var ni := RebuildUpTo(t, |t.opVec|, keepCompare, need).newIndex;
    NeedFromJustified(t, 0, keepCompare, conVals, rev, v);
    if v in t.depVec {
      var k :| 0 <= k < |t.depVec| && t.depVec[k] == v;
      assert r.depVec[k] == ni[v];
    } else {
      SentinelReadsNothing(t, keepCompare, need);
      var j, p :| 1 <= j < |t.opVec| && 0 <= p && KeptRead(t, j, keepCompare, need, p, v);
      AboveSentinel(t, j);
      var res := t.opVec[j].resIndex;
      ResBounds(t, j);
      assert v == t.argVec[p] < res;
      if IsBinary(t.opVec[j].op) {
        assert need[res..ResEnd(t, j)] == [need[res]];
        NeedsCarryOver(t, keepCompare, conVals, rev, r, need', res);
      }
      CarryRead(t, keepCompare, conVals, rev, r, need', j, p, v);
    }
  }

  // ---------------------------------------------------------------------
  // The second sweep replays the first

  /** Re-recording the image of `j` from a rebuild `S` that holds the same
      tape as `s` and maps its values to themselves gives the same run and
      pool entries again. */
  lemma ImageReplays(t: TapeValue, j: nat, s: Rebuild, r: TapeValue, S: Rebuild)
    requires Recorded(t) && j < |t.opVec| && !t.opVec[j].op.Call? && |s.newIndex| == t.nVal
    requires Recorded(r) && Extends(Append(s.tape, t.opVec[j].op, ImageRun(t, j, s), ImageCons(t, j)), r)
    requires NBefore(t.opVec[j].op) <= |ImageRun(t, j, s)| &&
             IndicesBelow(ImageRun(t, j, s), NBefore(t.opVec[j].op), |ImageRun(t, j, s)|, s.tape.nVal)
    requires S.tape == s.tape && |S.newIndex| == r.nVal
    requires forall w :: 0 <= w < s.tape.nVal && w < r.nVal ==> S.newIndex[w] == w
    ensures |s.tape.opVec| < |r.opVec| && !r.opVec[|s.tape.opVec|].op.Call?
    ensures ImageRun(r, |s.tape.opVec|, S) == ImageRun(t, j, s)
    ensures ImageCons(r, |s.tape.opVec|) == ImageCons(t, j)
  {
    ResBounds(t, j);
    var run := ImageRun(t, j, s);
    var q := |s.tape.opVec|;
    var b := |s.tape.argVec|;
    AppendedImage(s.tape, t.opVec[j].op, run, ImageCons(t, j), r);
    assert r.opVec[q].argIndex == b;
    assert s.tape.nVal <= r.nVal;
    forall k | NBefore(t.opVec[j].op) <= k < |run|
      ensures S.newIndex[r.argVec[b + k]] == run[k]
    {
      assert r.argVec[b + k] == run[k] < s.tape.nVal;
    }
    assert r.argVec[b] == run[0];
    if t.opVec[j].op.Con? {
      assert ImageCons(t, j)[0] == r.conVec[|s.tape.conVec|];
    }
  }

  /** The first `i` steps of the sweep over `t` are replayed by the first
      steps of a sweep over `r`: same tape, values mapped to themselves. */
  ghost predicate Replays(t: TapeValue, keepCompare: bool, need: seq<bool>, r: TapeValue, need': seq<bool>, i: nat)
    requires Recorded(t) && 1 <= i <= |t.opVec| && |need| == t.nVal && Recorded(r) && |need'| == r.nVal
  {
    var s := RebuildUpTo(t, i, keepCompare, need);
    1 <= |s.tape.opVec| <= |r.opVec| &&
    var S := RebuildUpTo(r, |s.tape.opVec|, keepCompare, need');
    S.tape == s.tape && s.tape.nVal <= r.nVal &&
    forall w :: 0 <= w < s.tape.nVal ==> S.newIndex[w] == w
  }

  /** Both sweeps start from set_ind alone. */
  lemma ReplayStart(t: TapeValue, keepCompare: bool, conVals: seq<Value>, rev: CallOp.Reverse, r: TapeValue, need': seq<bool>)
    requires WellFormed(t) && |conVals| == t.nVal && CallOp.ReverseSized(rev)
    requires r == DeadCodeResult(t, keepCompare, conVals, rev, Corrected)
    requires Recorded(r) && |need'| == r.nVal
    ensures Replays(t, keepCompare, Needs(t, keepCompare, conVals, rev, Corrected), r, need', 1)
  {
    ResultExtends(t, 1, keepCompare, conVals, rev);
  }

  /** The image of a kept invocation is kept again by flags closed on `r`. */
  lemma ImageKept(t: TapeValue, keepCompare: bool, conVals: seq<Value>, rev: CallOp.Reverse,
                  r: TapeValue, need': seq<bool>, i: nat)
    requires WellFormed(t) && CallFree(t) && |conVals| == t.nVal && CallOp.ReverseSized(rev)
    requires r == DeadCodeResult(t, keepCompare, conVals, rev, Corrected)
    requires Recorded(r) && NeedClosed(r, keepCompare, need')
    requires 1 <= i < |t.opVec| && Kept(t, i, keepCompare, Needs(t, keepCompare, conVals, rev, Corrected))
    ensures var s := RebuildUpTo(t, i, keepCompare, Needs(t, keepCompare, conVals, rev, Corrected));
            |s.tape.opVec| < |r.opVec| && Kept(r, |s.tape.opVec|, keepCompare, need')
  {
    var need := Needs(t, keepCompare, conVals, rev, Corrected);
    var n := |t.opVec|;
    var s := RebuildUpTo(t, i, keepCompare, need);
    var s1 := RebuildUpTo(t, i + 1, keepCompare, need);
    assert s1 == KeepStep(t, i, keepCompare, need, s);
    KeepStepAppends(t, i, keepCompare, need, s);
    ResultExtends(t, i + 1, keepCompare, conVals, rev);
    var o := t.opVec[i];
    var m := |s.tape.opVec|;
    AppendedImage(s.tape, o.op, ImageRun(t, i, s), ImageCons(t, i), r);
    assert r.opVec[m] == OpInfo(|s.tape.argVec|, s.tape.nVal, o.op);
    if o.op.Comp? {
      ImageTag(t, i, s, r);
      assert KeepsCompare(r, m, keepCompare);
    } else {
      AboveSentinel(t, i);
      assert need[o.resIndex..ResEnd(t, i)] == [need[o.resIndex]];
      NeedsCarryOver(t, keepCompare, conVals, rev, r, need', o.resIndex);
      NewIndexSettled(t, i + 1, n, keepCompare, need);
      assert need'[s.tape.nVal];
    }
  }

  /** The image run of a kept invocation reads only values already on the new tape. */
  lemma ImageOperandsBelow(t: TapeValue, keepCompare: bool, need: seq<bool>, i: nat)
    requires WellFormed(t) && NeedClosed(t, keepCompare, need) && 1 <= i < |t.opVec|
    requires Kept(t, i, keepCompare, need) && !t.opVec[i].op.Call?
    ensures var s := RebuildUpTo(t, i, keepCompare, need);
            NBefore(t.opVec[i].op) <= |ImageRun(t, i, s)| &&
            IndicesBelow(ImageRun(t, i, s), NBefore(t.opVec[i].op), |ImageRun(t, i, s)|, s.tape.nVal)
  {
    var s := RebuildUpTo(t, i, keepCompare, need);
    RebuildUpToInv(t, i, keepCompare, need);
    ResBounds(t, i);
    var run := ImageRun(t, i, s);
    var nb := NBefore(t.opVec[i].op);
    assert NeedClosedAt(t, i, keepCompare, need);
    forall p | nb <= p < |run|
      ensures run[p] < s.tape.nVal
    {
      ImageRunOperand(t, i, s, p - nb);
      var x := t.argVec[FirstOperand(t, i) + (p - nb)];
      assert x < t.opVec[i].resIndex;
      OperandMaps(t, i, need, s, x);
    }
  }

  /** One step of the replay. */
  lemma ReplayStep(t: TapeValue, keepCompare: bool, conVals: seq<Value>, rev: CallOp.Reverse,
                   r: TapeValue, need': seq<bool>, i: nat)
    requires WellFormed(t) && CallFree(t) && |conVals| == t.nVal && CallOp.ReverseSized(rev)
    requires r == DeadCodeResult(t, keepCompare, conVals, rev, Corrected)
    requires Recorded(r) && NeedClosed(r, keepCompare, need')
    requires 1 <= i < |t.opVec| && Replays(t, keepCompare, Needs(t, keepCompare, conVals, rev, Corrected), r, need', i)
    ensures Replays(t, keepCompare, Needs(t, keepCompare, conVals, rev, Corrected), r, need', i + 1)
  {
    var need := Needs(t, keepCompare, conVals, rev, Corrected);
    var s := RebuildUpTo(t, i, keepCompare, need);
    var s1 := RebuildUpTo(t, i + 1, keepCompare, need);
    assert s1 == KeepStep(t, i, keepCompare, need, s);
    if Kept(t, i, keepCompare, need) {
      var o := t.opVec[i];
      var m := |s.tape.opVec|;
      var S := RebuildUpTo(r, m, keepCompare, need');
      KeepStepAppends(t, i, keepCompare, need, s);
      ResultExtends(t, i + 1, keepCompare, conVals, rev);
      NeedsClosed(t, keepCompare, conVals, rev);
      ImageOperandsBelow(t, keepCompare, need, i);
      ImageReplays(t, i, s, r, S);
      ImageKept(t, keepCompare, conVals, rev, r, need', i);
      KeepStepAppends(r, m, keepCompare, need', S);
      assert RebuildUpTo(r, m + 1, keepCompare, need') == KeepStep(r, m, keepCompare, need', S);
      assert r.opVec[m].resIndex == s.tape.nVal;
    }
  }

  /** The whole first sweep is replayed. */
  lemma {:induction false} ReplayUpTo(t: TapeValue, keepCompare: bool, conVals: seq<Value>, rev: CallOp.Reverse,
                                      r: TapeValue, need': seq<bool>, i: nat)
    requires WellFormed(t) && CallFree(t) && |conVals| == t.nVal && CallOp.ReverseSized(rev)
    requires r == DeadCodeResult(t, keepCompare, conVals, rev, Corrected)
    requires Recorded(r) && NeedClosed(r, keepCompare, need')
    requires 1 <= i <= |t.opVec|
    ensures Replays(t, keepCompare, Needs(t, keepCompare, conVals, rev, Corrected), r, need', i)
    decreases i
  {
    if i == 1 {
      ReplayStart(t, keepCompare, conVals, rev, r, need');
    } else {
      ReplayUpTo(t, keepCompare, conVals, rev, r, need', i - 1);
      ReplayStep(t, keepCompare, conVals, rev, r, need', i - 1);
    }
  }

  /** dead_code is idempotent on a tape without calls: a second pass, with
      any values for the result's variables and any reverse-mode bridge,
      returns the result unchanged. */
  lemma DeadCodeIdempotent(t: TapeValue, keepCompare: bool, conVals: seq<Value>, rev: CallOp.Reverse,
                           conVals': seq<Value>, rev': CallOp.Reverse)
    requires WellFormed(t) && CallFree(t) && |conVals| == t.nVal && CallOp.ReverseSized(rev)
    requires |conVals'| == DeadCodeResult(t, keepCompare, conVals, rev, Corrected).nVal && CallOp.ReverseSized(rev')
    ensures var r := DeadCodeResult(t, keepCompare, conVals, rev, Corrected);
            WellFormed(r) && DeadCodeResult(r, keepCompare, conVals', rev', Corrected) == r
  {
    var r := DeadCodeResult(t, keepCompare, conVals, rev, Corrected);
    DeadCodeWellFormed(t, keepCompare, conVals, rev);
    var need' := Needs(r, keepCompare, conVals', rev', Corrected);
    NeedsClosed(r, keepCompare, conVals', rev');
    ReplayUpTo(t, keepCompare, conVals, rev, r, need', |t.opVec|);
    var sN := RebuildUpTo(t, |t.opVec|, keepCompare, Needs(t, keepCompare, conVals, rev, Corrected));
    var S := RebuildUpTo(r, |r.opVec|, keepCompare, need');
    assert S.tape == sN.tape;
    assert MapThrough(S.newIndex, r.depVec) == r.depVec;
  }
}
