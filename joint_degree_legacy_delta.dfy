// The first version's delta model: every degree of the range other than
// the target is the tuple text of (k, 0, ..., 0) weighted fp(k); the
// target's splits are resolved into the same dict as lists, and nothing
// written before the target is cleared.

module LegacyDelta {
  import opened Common
  import opened JointDegrees
  import opened PyText
  import opened LegacyJdd
  import SplitDegree
  import Delta

  /** `str(tuple(zeros))` once `zeros[0] = k`. */
  function AxisText(k: int, n: nat): string
    requires n >= 1
  {
    TupleText(Delta.Axis(k, n))
  }

  /** The axis texts of the degrees k .. hi - 1 other than the target. */
  function AxisTexts(k: int, hi: int, target: int, n: nat): set<string>
  {
    if n == 0 then {} else set j | k <= j < hi && j != target :: AxisText(j, n)
  }

  /** What the loop may still write from degree k on. */
  function LaterTexts(k: int, hi: int, target: int, n: nat, T: nat): set<string>
  {
    AxisTexts(k, hi, target, n) + (if k <= target < hi then SplitTexts(target, T) else {})
  }

  /** `create_jdd`'s loop from degree k on, writing into acc. */
  function DeltaAcc(k: int, hi: int, target: int, n: nat, T: nat, fp: int -> real, prob: Row -> real, acc: Jdd): Result<Jdd>
    decreases hi - k
  {
    if k >= hi then Ok(acc)
    else if k != target then
      if n == 0 then Err(IndexError)
      else DeltaAcc(k + 1, hi, target, n, T, fp, prob, acc[AxisText(k, n) := fp(k)])
    else match SplitDegree.Resolved(k, fp(k), T, prob)
      case Err(e) => Err(e)
      case Ok(m) => DeltaAcc(k + 1, hi, target, n, T, fp, prob, acc + ListKeyed(m))
  }

  lemma AxisTextsStep(k: int, hi: int, target: int, n: nat)
    requires k < hi && n >= 1
    ensures AxisTexts(k, hi, target, n) ==
      (if k != target then {AxisText(k, n)} else {}) + AxisTexts(k + 1, hi, target, n)
  {
  }

  /** The dict ends up with what it had plus every text the loop writes. */
  lemma {:induction false} DeltaAccKeys(k: int, hi: int, target: int, n: nat, T: nat, fp: int -> real, prob: Row -> real, acc: Jdd)
    requires DeltaAcc(k, hi, target, n, T, fp, prob, acc).Ok?
    ensures DeltaAcc(k, hi, target, n, T, fp, prob, acc).value.Keys == acc.Keys + LaterTexts(k, hi, target, n, T)
    decreases hi - k
  {
    if k < hi {
      if k != target {
        AxisTextsStep(k, hi, target, n);
        DeltaAccKeys(k + 1, hi, target, n, T, fp, prob, acc[AxisText(k, n) := fp(k)]);
      } else {
        ResolvedTexts(k, fp(k), T, prob);
        var m := SplitDegree.Resolved(k, fp(k), T, prob).value;
        if n >= 1 {
          AxisTextsStep(k, hi, target, n);
        }
        DeltaAccKeys(k + 1, hi, target, n, T, fp, prob, acc + ListKeyed(m));
      }
    }
  }

  /** An entry the loop no longer writes keeps its weight. */
  lemma {:induction false} DeltaAccKeeps(k: int, hi: int, target: int, n: nat, T: nat, fp: int -> real, prob: Row -> real, acc: Jdd, s: string)
    requires DeltaAcc(k, hi, target, n, T, fp, prob, acc).Ok?
    requires s in acc && s !in LaterTexts(k, hi, target, n, T)
    ensures s in DeltaAcc(k, hi, target, n, T, fp, prob, acc).value
    ensures DeltaAcc(k, hi, target, n, T, fp, prob, acc).value[s] == acc[s]
    decreases hi - k
  {
    if k < hi {
      if k != target {
        AxisTextsStep(k, hi, target, n);
        DeltaAccKeeps(k + 1, hi, target, n, T, fp, prob, acc[AxisText(k, n) := fp(k)], s);
      } else {
        ResolvedTexts(k, fp(k), T, prob);
        var m := SplitDegree.Resolved(k, fp(k), T, prob).value;
        if n >= 1 {
          AxisTextsStep(k, hi, target, n);
        }
        DeltaAccKeeps(k + 1, hi, target, n, T, fp, prob, acc + ListKeyed(m), s);
      }
    }
  }

  /** An axis text is written by no other degree and is never a split's
      list text. */
  lemma AxisTextOnce(j: int, k: int, hi: int, target: int, n: nat, T: nat)
    requires n >= 1 && j < k
    ensures AxisText(j, n) !in LaterTexts(k, hi, target, n, T)
  {
    if AxisText(j, n) in AxisTexts(k, hi, target, n) {
      var j' :| k <= j' < hi && j' != target && AxisText(j', n) == AxisText(j, n);
      KeyTexts(Delta.Axis(j, n), Delta.Axis(j', n));
    }
    if k <= target < hi && AxisText(j, n) in SplitTexts(target, T) {
      var r :| r in SplitDegree.Valid(target, T) && ListText(r) == AxisText(j, n);
      KeyTexts(r, Delta.Axis(j, n));
    }
  }

  /** A split's list text is never an axis text. */
  lemma SplitTextOnce(r: Row, k: int, hi: int, target: int, n: nat, T: nat)
    requires target < k
    ensures ListText(r) !in LaterTexts(k, hi, target, n, T)
  {
    if ListText(r) in AxisTexts(k, hi, target, n) {
      var j :| k <= j < hi && j != target && AxisText(j, n) == ListText(r);
      KeyTexts(r, Delta.Axis(j, n));
    }
  }

  /** Each degree's entries keep the weight written for them. */
  lemma {:induction false} DeltaAccValues(k: int, hi: int, target: int, n: nat, T: nat, fp: int -> real, prob: Row -> real, acc: Jdd, j: int, r: Row)
    requires DeltaAcc(k, hi, target, n, T, fp, prob, acc).Ok?
    ensures var m := DeltaAcc(k, hi, target, n, T, fp, prob, acc).value;
      (k <= j < hi && j != target ==> n >= 1 && AxisText(j, n) in m && m[AxisText(j, n)] == fp(j)) &&
      (k <= target < hi && T >= 1 && r in SplitDegree.Valid(target, T) ==>
        SplitDegree.Resolved(target, fp(target), T, prob).Ok? &&
        ListText(r) in m && m[ListText(r)] == SplitDegree.Resolved(target, fp(target), T, prob).value[r])
    decreases hi - k
  {
    if k < hi {
      if k != target {
        var acc' := acc[AxisText(k, n) := fp(k)];
        DeltaAccValues(k + 1, hi, target, n, T, fp, prob, acc', j, r);
        if j == k {
          AxisTextOnce(k, k + 1, hi, target, n, T);
          DeltaAccKeeps(k + 1, hi, target, n, T, fp, prob, acc', AxisText(k, n));
        }
      } else {
        var m := SplitDegree.Resolved(k, fp(k), T, prob).value;
        var acc' := acc + ListKeyed(m);
        DeltaAccValues(k + 1, hi, target, n, T, fp, prob, acc', j, r);
        if T >= 1 && r in SplitDegree.Valid(target, T) {
          SplitDegree.ResolvedKeys(k, fp(k), T, prob, r);
          SplitTextOnce(r, k + 1, hi, target, n, T);
          DeltaAccKeeps(k + 1, hi, target, n, T, fp, prob, acc', ListText(r));
        }
      }
    }
  }

  /** The delta distribution before normalising: the axis text of every
      degree of the range other than the target, weighted fp(k), and the
      list texts of the target's splits with their resolved weights; the
      degrees below the target are kept. */
  lemma LegacyDeltaMeaning(lo: int, hi: int, target: int, n: nat, T: nat, fp: int -> real, prob: Row -> real, j: int, r: Row)
    requires DeltaAcc(lo, hi, target, n, T, fp, prob, map[]).Ok?
    ensures var m := DeltaAcc(lo, hi, target, n, T, fp, prob, map[]).value;
      (forall s :: s in m <==>
        (n >= 1 && exists k :: lo <= k < hi && k != target && s == AxisText(k, n)) ||
        (lo <= target < hi && s in SplitTexts(target, T))) &&
      (lo <= j < hi && j != target ==> n >= 1 && AxisText(j, n) in m && m[AxisText(j, n)] == fp(j)) &&
      (lo <= target < hi && T >= 1 && r in SplitDegree.Valid(target, T) ==>
        SplitDegree.Resolved(target, fp(target), T, prob).Ok? &&
        ListText(r) in m && m[ListText(r)] == SplitDegree.Resolved(target, fp(target), T, prob).value[r])
  {
    DeltaAccKeys(lo, hi, target, n, T, fp, prob, map[]);
    DeltaAccValues(lo, hi, target, n, T, fp, prob, map[], j, r);
  }

  /** What `create_jdd` leaves in `_jdd`, starting from acc. */
  ghost function DeltaOutcome(lo: int, hi: int, target: int, n: nat, T: nat, fp: int -> real, prob: Row -> real, acc: Jdd): Result<Jdd>
  {
    match DeltaAcc(lo, hi, target, n, T, fp, prob, acc)
    case Err(e) => Err(e)
    case Ok(m) => Normalised(m)
  }

  /** `JDD_delta_model`. */
  class LegacyDeltaModel {
    var jdd: Jdd
    const fp: int -> real
    const motifSizes: seq<int>
    const probs: seq<real>
    const target: int
    const kmin: int
    const kmax: int
    /** `calc_prob_of_joint_degree`, a float computation left opaque. */
    const prob: Row -> real

    constructor (fp: int -> real, motifSizes: seq<int>, probs: seq<real>, target: int, kmin: int, kmax: int, prob: Row -> real)
      ensures this.fp == fp && this.motifSizes == motifSizes && this.probs == probs && this.target == target
      ensures this.kmin == kmin && this.kmax == kmax && this.prob == prob && jdd == map[]
    {
      this.fp := fp;
      this.motifSizes := motifSizes;
      this.probs := probs;
      this.target := target;
      this.kmin := kmin;
      this.kmax := kmax;
      this.prob := prob;
      jdd := map[];
    }

    /** `create_jdd`: the axis entries and the target's splits, into the
        dict as it stands, then the dict normalised. */
    method CreateJdd() returns (res: Result<()>)
      modifies this
      ensures var out := DeltaOutcome(kmin, kmax, target, |motifSizes|, |probs|, fp, prob, old(jdd));
        (res.Ok? <==> out.Ok?) &&
        (res.Err? ==> res.error == out.error) &&
        (res.Ok? ==> jdd == out.value)
    {
      var n := |motifSizes|;
      var k := kmin;
      while k < kmax
        invariant kmin <= kmax ==> kmin <= k <= kmax
        invariant kmin > kmax ==> k == kmin
        invariant DeltaAcc(kmin, kmax, target, n, |probs|, fp, prob, old(jdd))
          == DeltaAcc(k, kmax, target, n, |probs|, fp, prob, jdd)
        decreases kmax - k
      {
        if k != target {
          if n == 0 {
            return Err(IndexError);
          }
          var zeros := Repeat(0, n);
          zeros := zeros[0 := k];
          assert zeros == Delta.Axis(k, n);
          jdd := jdd[TupleText(zeros) := fp(k)];
        } else {
          var r := ResolveInto(jdd, k, fp(k), |probs|, prob);
          if r.Err? {
            return Err(r.error);
          }
          jdd := r.value;
        }
        k := k + 1;
      }
      var normalised := NormaliseJdd(jdd);
      if normalised.Err? {
        return Err(normalised.error);
      }
      jdd := normalised.value;
      return Ok(());
    }
  }

  /** `JDD_delta_model(fp, motif_sizes, probs, target_k, kmin, kmax)`. */
  method NewLegacyDeltaModel(fp: int -> real, motifSizes: seq<int>, probs: seq<real>, target: int, kmin: int, kmax: int, prob: Row -> real)
    returns (res: Result<LegacyDeltaModel>)
    ensures var out := DeltaOutcome(kmin, kmax, target, |motifSizes|, |probs|, fp, prob, map[]);
      (res.Ok? <==> out.Ok?) &&
      (res.Err? ==> res.error == out.error) &&
      (res.Ok? ==> fresh(res.value) && res.value.jdd == out.value && res.value.target == target)
  {
    var model := new LegacyDeltaModel(fp, motifSizes, probs, target, kmin, kmax, prob);
    var r := model.CreateJdd();
    if r.Err? {
      return Err(r.error);
    }
    return Ok(model);
  }
}
