/** Moving values between a value buffer and the contiguous runs that
    variable-arity operators use: gathering the arguments named by a run of
    operand indices, and writing a result vector back into a run of slots. */
module Runs {
  import opened Values

  /** Every operand index stored in `argVec[lo..hi)` names a slot below `bound`. */
  predicate IndicesBelow(argVec: seq<nat>, lo: nat, hi: nat, bound: nat)
    requires lo <= hi <= |argVec|
  {
    forall p :: lo <= p < hi ==> argVec[p] < bound
  }

  /** `run` is stored in the operand array starting at `argIndex`. */
  predicate RunAt(argIndex: nat, argVec: seq<nat>, run: seq<nat>)
  {
    argIndex + |run| <= |argVec| && forall p :: argIndex <= p < argIndex + |run| ==> argVec[p] == run[p - argIndex]
  }

  /** The values named by the operand indices `argVec[lo..hi)`, in order. */
  function Gather(vals: seq<Value>, argVec: seq<nat>, lo: nat, hi: nat): (x: seq<Value>)
    requires lo <= hi <= |argVec| && IndicesBelow(argVec, lo, hi, |vals|)
    ensures |x| == hi - lo
  {
    seq(hi - lo, i requires 0 <= i < hi - lo => vals[argVec[lo + i]])
  }

  /** `vals` with the run starting at `res` overwritten by `y`. */
  function Scatter(vals: seq<Value>, res: nat, y: seq<Value>): (r: seq<Value>)
    requires res + |y| <= |vals|
    ensures |r| == |vals|
    ensures forall v :: res <= v < res + |y| ==> r[v] == y[v - res]
    ensures forall v :: 0 <= v < |vals| && !(res <= v < res + |y|) ==> r[v] == vals[v]
  {
    vals[..res] + y + vals[res + |y|..]
  }

  /** Two buffers that agree below `bound` gather the same arguments from a
      run whose indices are all below `bound`. */
  lemma GatherLocal(v1: seq<Value>, v2: seq<Value>, argVec: seq<nat>, lo: nat, hi: nat, bound: nat)
    requires lo <= hi <= |argVec| && IndicesBelow(argVec, lo, hi, bound)
    requires bound <= |v1| && bound <= |v2|
    requires forall v :: 0 <= v < bound ==> v1[v] == v2[v]
    ensures Gather(v1, argVec, lo, hi) == Gather(v2, argVec, lo, hi)
  {
  }

  /** Gathering from a buffer below another gives arguments below the other's. */
  lemma GatherMonotone(v1: seq<Value>, v2: seq<Value>, argVec: seq<nat>, lo: nat, hi: nat)
    requires lo <= hi <= |argVec| && IndicesBelow(argVec, lo, hi, |v1|)
    requires BelowSeq(v1, v2)
    ensures BelowSeq(Gather(v1, argVec, lo, hi), Gather(v2, argVec, lo, hi))
  {
  }

  /** Builds the argument vector x with x[i - lo] = val[argVec[i]] for lo <= i < hi. */
  method GatherArgs(val: array<Value>, argVec: seq<nat>, lo: nat, hi: nat) returns (x: seq<Value>)
    requires lo <= hi <= |argVec| && IndicesBelow(argVec, lo, hi, val.Length)
    ensures x == Gather(val[..], argVec, lo, hi)
  {
    x := [];
    var i := lo;
    while i < hi
      invariant lo <= i <= hi
      invariant |x| == i - lo
      invariant forall k :: 0 <= k < |x| ==> x[k] == val[argVec[lo + k]]
    {
      x := x + [val[argVec[i]]];
      i := i + 1;
    }
  }

  /** Writes y[i] into val[res + i] for every i < |y| and nothing else. */
  method ScatterResults(val: array<Value>, res: nat, y: seq<Value>)
    requires res + |y| <= val.Length
    modifies val
    ensures val[..] == Scatter(old(val[..]), res, y)
  {
    var i := 0;
    while i < |y|
      invariant 0 <= i <= |y|
      invariant forall k :: 0 <= k < i ==> val[res + k] == y[k]
      invariant forall v :: 0 <= v < val.Length && !(res <= v < res + i) ==> val[v] == old(val[v])
    {
      val[res + i] := y[i];
      i := i + 1;
    }
  }

  /** `s` with every slot named in `idx` set to `x`, in order. */
  function SetAll<T>(s: seq<T>, idx: seq<nat>, x: T): (r: seq<T>)
    requires forall k :: 0 <= k < |idx| ==> idx[k] < |s|
    ensures |r| == |s|
    ensures forall k :: 0 <= k < |idx| ==> r[idx[k]] == x
    ensures forall v :: 0 <= v < |s| && v !in idx ==> r[v] == s[v]
  {
    if |idx| == 0 then s else SetAll(s, idx[..|idx| - 1], x)[idx[|idx| - 1] := x]
  }

  /** No word in `argVec[lo..hi)` names slot `v`. */
  ghost predicate Untouched(argVec: seq<nat>, lo: nat, hi: nat, v: nat)
    requires lo <= hi <= |argVec|
  {
    forall p :: lo <= p < hi ==> argVec[p] != v
  }
}
