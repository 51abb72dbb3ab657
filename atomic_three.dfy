/** A concrete atomic function with three arguments and four results,
    g(x) = [x0 * x0, x0 * x1, x1 * x2, x2 * x2], and its two dependency
    callbacks: for_type (how variable each result is) and rev_depend (which
    arguments the needed results depend on). The latter is an instance of
    the reverse-dependency bridge the tape analyses consult. */
module AtomicThree {
  import opened Values
  import CallOp

  /** Result i is the product of arguments Factors[i].0 and Factors[i].1. */
  const Factors: seq<(nat, nat)> := [(0, 0), (0, 1), (1, 2), (2, 2)]

  /** Result `i` of g uses argument `k`. */
  predicate Uses(i: nat, k: nat)
    requires i < |Factors|
  {
    Factors[i].0 == k || Factors[i].1 == k
  }

  /** for_type: when there are three argument types and room for four
      result types, each result is as variable as the more variable of its
      two factors; otherwise it fails and leaves `typeY` as it was. */
  function ForType(parameterX: seq<Value>, typeX: seq<AdType>, typeY: seq<AdType>): (r: (bool, seq<AdType>))
    requires |parameterX| == |typeX|
    ensures r.0 <==> |typeX| == 3 && |typeY| == 4
    ensures !r.0 ==> r.1 == typeY
    ensures r.0 ==> |r.1| == 4
  {
    var ok := |typeX| == 3 && |typeY| == 4;
    if !ok then (false, typeY)
    else (true, [typeX[0], MaxType(typeX[0], typeX[1]), MaxType(typeX[1], typeX[2]), typeX[2]])
  }

  /** The type for_type gives result `i` is the type of one of the arguments
      it uses, and at least as variable as every argument it uses. */
  lemma ForTypeOfUses(parameterX: seq<Value>, typeX: seq<AdType>, typeY: seq<AdType>)
    requires |parameterX| == |typeX| == 3 && |typeY| == 4
    ensures var ty := ForType(parameterX, typeX, typeY).1;
            forall i :: 0 <= i < 4 ==>
              (exists k :: 0 <= k < 3 && Uses(i, k) && ty[i] == typeX[k]) &&
              (forall k :: 0 <= k < 3 && Uses(i, k) ==> Rank(typeX[k]) <= Rank(ty[i]))
  {
    var ty := ForType(parameterX, typeX, typeY).1;
    forall i | 0 <= i < 4
      ensures exists k :: 0 <= k < 3 && Uses(i, k) && ty[i] == typeX[k]
    {
      var a := Factors[i].0;
      var b := Factors[i].1;
      assert ty[i] == MaxType(typeX[a], typeX[b]) by {
        if a == b {
          assert MaxType(typeX[a], typeX[a]) == typeX[a];
        }
      }
      if ty[i] == typeX[a] {
        assert Uses(i, a);
      } else {
        assert Uses(i, b);
      }
    }
  }

  /** rev_depend: when there are three argument flags and four result
      flags, argument k is needed iff a needed result is adjacent to it in
      the chain g0, g1, g2, g3; otherwise it fails and leaves `dependX` as it
      was. */
  function RevDepend(parameterX: seq<Value>, dependX: seq<bool>, dependY: seq<bool>): (r: (bool, seq<bool>))
    requires |parameterX| == |dependX|
    ensures r.0 <==> |dependX| == 3 && |dependY| == 4
    ensures !r.0 ==> r.1 == dependX
    ensures |r.1| == |dependX|
  {
    var ok := |dependX| == 3 && |dependY| == 4;
    if !ok then (false, dependX)
    else (true, [dependY[0] || dependY[1], dependY[1] || dependY[2], dependY[2] || dependY[3]])
  }

  /** rev_depend is exact for g: argument k is needed iff some needed result
      uses it. */
  lemma RevDependExact(parameterX: seq<Value>, dependX: seq<bool>, dependY: seq<bool>)
    requires |parameterX| == |dependX| == 3 && |dependY| == 4
    ensures var dx := RevDepend(parameterX, dependX, dependY).1;
            forall k :: 0 <= k < 3 ==> (dx[k] <==> exists i :: 0 <= i < 4 && dependY[i] && Uses(i, k))
  {
    var dx := RevDepend(parameterX, dependX, dependY).1;
    forall k | 0 <= k < 3
      ensures dx[k] <==> exists i :: 0 <= i < 4 && dependY[i] && Uses(i, k)
    {
      if dx[k] {
        if dependY[k] {
          assert Uses(k, k);
        } else {
          assert Uses(k + 1, k);
        }
      } else {
        forall i | 0 <= i < 4 && Uses(i, k)
          ensures !dependY[i]
        {
          assert i == k || i == k + 1;
        }
      }
    }
  }

  /** More needed results never make fewer arguments needed. */
  lemma RevDependMonotone(parameterX: seq<Value>, dependX: seq<bool>, dependY: seq<bool>, dependY': seq<bool>)
    requires |parameterX| == |dependX| == 3 && |dependY| == 4 && |dependY'| == 4
    requires forall i :: 0 <= i < 4 && dependY[i] ==> dependY'[i]
    ensures var dx := RevDepend(parameterX, dependX, dependY).1;
            var dx' := RevDepend(parameterX, dependX, dependY').1;
            forall k :: 0 <= k < 3 && dx[k] ==> dx'[k]
  {
    RevDependExact(parameterX, dependX, dependY);
    RevDependExact(parameterX, dependX, dependY');
  }

  /** rev_depend as the tape's reverse-dependency bridge: the argument flags
      start cleared, and a failed call leaves them cleared. */
  function AsReverse(): (rev: CallOp.Reverse)
    ensures CallOp.ReverseSized(rev)
  {
    (a: nat, c: nat, cx: seq<Value>, tx: seq<AdType>, dy: seq<bool>) =>
      RevDepend(cx, seq(|cx|, _ => false), dy).1
  }

  /** Through the bridge, a call none of whose results is needed needs none
      of its arguments. */
  lemma NothingNeededThroughBridge(a: nat, c: nat, cx: seq<Value>, tx: seq<AdType>, dy: seq<bool>)
    requires forall i :: 0 <= i < |dy| ==> !dy[i]
    ensures forall k :: 0 <= k < |cx| ==> !AsReverse()(a, c, cx, tx, dy)[k]
  {
    var dx0 := seq(|cx|, _ => false);
    if |cx| == 3 && |dy| == 4 {
      RevDependExact(cx, dx0, dy);
    }
  }
}
