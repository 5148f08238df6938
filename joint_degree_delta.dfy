// The delta joint degree distribution: every degree of a range other than a
// target degree k* is a single-topology key (k, 0, ..., 0) weighted fp(k);
// the target degree is split over all topologies as in the split-degree
// model.

module Delta {
  import opened Common
  import opened JointDegrees
  import opened SplitDegree
  import EjkExtraction

  /** (k, 0, ..., 0) with n entries: `zeros` with its first entry set. */
  function Axis(k: int, n: nat): (r: Row)
    requires n >= 1
    ensures |r| == n && r[0] == k
    ensures forall j :: 1 <= j < n ==> r[j] == 0
  {
    [k] + Repeat(0, n - 1)
  }

  /** An axis key carries its whole degree in the first topology. */
  lemma {:induction false} WeightedAxis(k: int, n: nat)
    requires n >= 1
    ensures Weighted(Axis(k, n)) == k
  {
    if n == 1 {
      assert Axis(k, 1) == [] + [k];
      WeightedAppend([], k);
    } else {
      WeightedAxis(k, n - 1);
      assert Axis(k, n) == Axis(k, n - 1) + [0];
      WeightedAppend(Axis(k, n - 1), 0);
    }
  }

  /** The axis entries of the degrees a .. b - 1. */
  function AxisMap(a: int, b: int, n: nat, fp: int -> real): map<Row, real>
    requires n >= 1 || b <= a
  {
    map k | a <= k < b :: Axis(k, n) := fp(k)
  }

  lemma AxisMapStep(a: int, k: int, n: nat, fp: int -> real)
    requires n >= 1 && a <= k
    ensures AxisMap(a, k + 1, n, fp) == AxisMap(a, k, n, fp)[Axis(k, n) := fp(k)]
  {
  }

  /** The first failure of `create_jdd`'s loop from degree k on: an axis
      key needs a first entry, and the target's resolution may divide by
      zero. */
  function DeltaFailure(k: int, hi: int, target: int, n: nat, T: nat, fp: int -> real, prob: Row -> real): Option<Error>
    decreases hi - k
  {
    if k >= hi then None
    else if k != target then
      if n == 0 then Some(IndexError) else DeltaFailure(k + 1, hi, target, n, T, fp, prob)
    else match Resolved(k, fp(k), T, prob)
      case Err(e) => Some(e)
      case Ok(_) => DeltaFailure(k + 1, hi, target, n, T, fp, prob)
  }

  /** Without motif sizes the loop can only get through the target itself. */
  lemma NoAxisWithoutSizes(k: int, hi: int, target: int, T: nat, fp: int -> real, prob: Row -> real)
    requires DeltaFailure(k, hi, target, 0, T, fp, prob).None?
    ensures hi <= k || (k == target && hi == k + 1)
  {
  }

  /** Whether the target degree lies in lo .. k - 1. */
  predicate Passed(lo: int, k: int, target: int)
  {
    lo <= target < k
  }

  /** `_jdd` after the degrees lo .. k - 1: resolving the target resets the
      dict, so once it is passed only its splits and the later axis keys
      remain. */
  function DeltaPrefix(lo: int, k: int, target: int, n: nat, T: nat, fp: int -> real, prob: Row -> real): map<Row, real>
    requires Passed(lo, k, target) ==> Resolved(target, fp(target), T, prob).Ok? && (n >= 1 || k <= target + 1)
    requires !Passed(lo, k, target) ==> n >= 1 || k <= lo
  {
    if Passed(lo, k, target) then Resolved(target, fp(target), T, prob).value + AxisMap(target + 1, k, n, fp)
    else AxisMap(lo, k, n, fp)
  }

  /** One more axis key after degree k. */
  lemma AxisStep(lo: int, k: int, target: int, n: nat, T: nat, fp: int -> real, prob: Row -> real)
    requires lo <= k && k != target && n >= 1
    requires Passed(lo, k, target) ==> Resolved(target, fp(target), T, prob).Ok?
    ensures Passed(lo, k + 1, target) ==> Resolved(target, fp(target), T, prob).Ok?
    ensures DeltaPrefix(lo, k + 1, target, n, T, fp, prob) == DeltaPrefix(lo, k, target, n, T, fp, prob)[Axis(k, n) := fp(k)]
  {
    if Passed(lo, k, target) {
      AxisStepPassed(lo, k, target, n, Resolved(target, fp(target), T, prob).value, fp);
    } else {
      AxisMapStep(lo, k, n, fp);
    }
  }

  /** After the target: the splits stay and the new axis key is added. */
  lemma AxisStepPassed(lo: int, k: int, target: int, n: nat, splits: map<Row, real>, fp: int -> real)
    requires lo <= target < k && n >= 1
    ensures splits + AxisMap(target + 1, k + 1, n, fp) == (splits + AxisMap(target + 1, k, n, fp))[Axis(k, n) := fp(k)]
  {
    AxisMapStep(target + 1, k, n, fp);
    MergeUpdate(splits, AxisMap(target + 1, k, n, fp), Axis(k, n), fp(k));
  }

  lemma MergeUpdate<K, V>(a: map<K, V>, b: map<K, V>, key: K, v: V)
    ensures a + b[key := v] == (a + b)[key := v]
  {
  }

  /** Right after the target only its splits are left. */
  lemma TargetStep(lo: int, target: int, n: nat, T: nat, fp: int -> real, prob: Row -> real)
    requires lo <= target && Resolved(target, fp(target), T, prob).Ok?
    ensures DeltaPrefix(lo, target + 1, target, n, T, fp, prob) == Resolved(target, fp(target), T, prob).value
  {
    assert AxisMap(target + 1, target + 1, n, fp) == map[];
  }

  /** The distribution `create_jdd` builds before normalising. */
  function DeltaJdd(lo: int, hi: int, target: int, n: nat, T: nat, fp: int -> real, prob: Row -> real): Result<map<Row, real>>
  {
    match DeltaFailure(lo, hi, target, n, T, fp, prob)
      case Some(e) => Err(e)
      case None =>
        FailureFreeTarget(lo, hi, target, n, T, fp, prob);
        Ok(DeltaPrefix(lo, hi, target, n, T, fp, prob))
  }

  /** Getting through the loop means the target resolved and every axis key
      had a first entry. */
  lemma FailureFreeTarget(lo: int, hi: int, target: int, n: nat, T: nat, fp: int -> real, prob: Row -> real)
    requires DeltaFailure(lo, hi, target, n, T, fp, prob).None?
    ensures Passed(lo, hi, target) ==> Resolved(target, fp(target), T, prob).Ok? && (n >= 1 || hi <= target + 1)
    ensures !Passed(lo, hi, target) ==> n >= 1 || hi <= lo
  {
    if n == 0 {
      NoAxisWithoutSizes(lo, hi, target, T, fp, prob);
    }
    if Passed(lo, hi, target) {
      FailureFreeFrom(lo, hi, target, n, T, fp, prob);
    }
  }

  lemma {:induction false} FailureFreeFrom(k: int, hi: int, target: int, n: nat, T: nat, fp: int -> real, prob: Row -> real)
    requires DeltaFailure(k, hi, target, n, T, fp, prob).None? && k <= target < hi
    ensures Resolved(target, fp(target), T, prob).Ok?
    decreases hi - k
  {
    if k != target {
      FailureFreeFrom(k + 1, hi, target, n, T, fp, prob);
    }
  }

  /** The normalised outcome of `create_jdd`, once the bound is known. */
  ghost function DeltaOutcome(lo: int, hi: int, target: int, n: nat, T: nat, fp: int -> real, prob: Row -> real): Result<map<Row, real>>
  {
    match DeltaJdd(lo, hi, target, n, T, fp, prob)
      case Err(e) => Err(e)
      case Ok(m) => Normalised(m)
  }

  /** The keys of the delta distribution: when the target lies in the range,
      its splits plus the axis keys of the degrees above it; otherwise the
      axis keys of the whole range. Every key's degree lies in lo .. hi - 1,
      so hi itself never occurs, and no degree below the target survives. */
  lemma DeltaKeys(lo: int, hi: int, target: int, n: nat, T: nat, fp: int -> real, prob: Row -> real, key: Row)
    requires DeltaOutcome(lo, hi, target, n, T, fp, prob).Ok?
    ensures lo <= target < hi ==> T >= 1
    ensures var keys := DeltaOutcome(lo, hi, target, n, T, fp, prob).value.Keys;
      (lo <= target < hi ==>
        (key in keys <==> key in Valid(target, T) || exists k :: target < k < hi && n >= 1 && key == Axis(k, n))) &&
      (!(lo <= target < hi) ==>
        (key in keys <==> exists k :: lo <= k < hi && n >= 1 && key == Axis(k, n))) &&
      (key in keys ==> lo <= Weighted(key) < hi) &&
      (key in keys && lo <= target < hi ==> Weighted(key) >= target)
  {
    var m := DeltaJdd(lo, hi, target, n, T, fp, prob).value;
    FailureFreeTarget(lo, hi, target, n, T, fp, prob);
    if m != map[] {
      assert DeltaOutcome(lo, hi, target, n, T, fp, prob).value.Keys == m.Keys;
    }
    if Passed(lo, hi, target) {
      ResolvedKeys(target, fp(target), T, prob, key);
    }
    if key in m && !(Passed(lo, hi, target) && key in Valid(target, T)) {
      var k :| (if Passed(lo, hi, target) then target < k else lo <= k) && k < hi && key == Axis(k, n);
      WeightedAxis(k, n);
    }
  }

  /** The constructor's parameters; None marks a missing key. */
  datatype DeltaParams = DeltaParams(
    target: Option<int>,
    fp: Option<int -> real>,
    probs: Option<seq<real>>,
    motifSizes: Option<seq<int>>,
    bound: Option<(int, int)>)

  /** `JointDegreeDelta`. */
  class DeltaLoader {
    /** `_jdd`; None while the attribute has never been assigned. */
    var jdd: Option<map<Row, real>>
    const target: int
    const fp: int -> real
    const probs: seq<real>
    const motifSizes: seq<int>
    /** `_low_high_degree_bound`; None when the parameters lack it. */
    const bound: Option<(int, int)>
    /** `calc_prob_of_joint_degree`, inherited from the split-degree
        loader and left opaque. */
    const prob: Row -> real

    constructor (target: int, fp: int -> real, probs: seq<real>, motifSizes: seq<int>, bound: Option<(int, int)>, prob: Row -> real)
      ensures this.target == target && this.fp == fp && this.probs == probs
      ensures this.motifSizes == motifSizes && this.bound == bound && this.prob == prob && jdd == None
    {
      this.target := target;
      this.fp := fp;
      this.probs := probs;
      this.motifSizes := motifSizes;
      this.bound := bound;
      this.prob := prob;
      jdd := None;
    }

    /** `create_jdd`: axis keys for the other degrees, the target's splits
        (after a reset) for the target, then normalisation. */
    method CreateJdd() returns (res: Result<()>)
      modifies this
      ensures bound.None? ==> res == Err(AttributeError)
      ensures bound.Some? ==>
        var out := DeltaOutcome(bound.value.0, bound.value.1, target, |motifSizes|, |probs|, fp, prob);
        (res.Ok? <==> out.Ok?) &&
        (res.Err? ==> res.error == out.error) &&
        (res.Ok? ==> jdd == Some(out.value))
    {
      jdd := Some(map[]);
      if bound.None? {
        return Err(AttributeError);
      }
      var lo, hi := bound.value.0, bound.value.1;
      var n, T := |motifSizes|, |probs|;
      var k := lo;
      while k < hi
        invariant lo <= hi ==> lo <= k <= hi
        invariant lo > hi ==> k == lo
        invariant DeltaFailure(lo, hi, target, n, T, fp, prob) == DeltaFailure(k, hi, target, n, T, fp, prob)
        invariant Passed(lo, k, target) ==> Resolved(target, fp(target), T, prob).Ok? && (n >= 1 || k <= target + 1)
        invariant !Passed(lo, k, target) ==> n >= 1 || k <= lo
        invariant jdd == Some(DeltaPrefix(lo, k, target, n, T, fp, prob))
        decreases hi - k
      {
        if k != target {
          if n == 0 {
            return Err(IndexError);
          }
          AxisStep(lo, k, target, n, T, fp, prob);
          jdd := Some(jdd.value[Axis(k, n) := fp(k)]);
        } else {
          jdd := Some(map[]);
          var r := ResolveRows(k, fp(k), T, prob);
          if r.Err? {
            assert DeltaJdd(lo, hi, target, n, T, fp, prob) == Err(r.error);
            return Err(r.error);
          }
          jdd := Some(r.value);
          TargetStep(lo, target, n, T, fp, prob);
        }
        k := k + 1;
      }
      assert lo < hi ==> k == hi;
      var m := NormaliseJdd(jdd.value);
      if m.Err? {
        return Err(m.error);
      }
      jdd := Some(m.value);
      return Ok(());
    }
  }

  /** `JointDegreeDelta(params)`: the target, fp, probs and motif sizes are
      looked up directly (KeyError when absent); a missing bound surfaces
      only in `create_jdd`, as AttributeError. */
  method NewDelta(params: DeltaParams, prob: Row -> real) returns (res: Result<DeltaLoader>)
    ensures params.target.None? || params.fp.None? || params.probs.None? || params.motifSizes.None? ==>
      res == Err(KeyError)
    ensures params.target.Some? && params.fp.Some? && params.probs.Some? && params.motifSizes.Some? && params.bound.None? ==>
      res == Err(AttributeError)
    ensures params.target.Some? && params.fp.Some? && params.probs.Some? && params.motifSizes.Some? && params.bound.Some? ==>
      var out := DeltaOutcome(params.bound.value.0, params.bound.value.1, params.target.value,
        |params.motifSizes.value|, |params.probs.value|, params.fp.value, prob);
      (res.Ok? <==> out.Ok?) &&
      (res.Err? ==> res.error == out.error) &&
      (res.Ok? ==> fresh(res.value) && res.value.jdd == Some(out.value) && res.value.motifSizes == params.motifSizes.value)
  {
    if params.target.None? || params.fp.None? || params.probs.None? || params.motifSizes.None? {
      return Err(KeyError);
    }
    var loader := new DeltaLoader(params.target.value, params.fp.value, params.probs.value, params.motifSizes.value, params.bound, prob);
    var r := loader.CreateJdd();
    if r.Err? {
      return Err(r.error);
    }
    return Ok(loader);
  }
}
