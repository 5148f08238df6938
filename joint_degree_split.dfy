// The split-degree joint degree distribution: every overall degree k in a
// range is split over T clique topologies in all possible ways (a vertex in
// j+1-cliques gains j+1 edges per clique), and each split is weighted by the
// probability of k times its share of the split probabilities.

module SplitDegree {
  import opened Common
  import opened JointDegrees
  import EjkExtraction

  // ----- weighted compositions -----

  /** The overall degree of a joint degree: entry j counts cliques of j+2
      vertices, each of which gives the vertex j+1 edges. */
  function Weighted(row: Row): int
  {
    if row == [] then 0 else Weighted(row[..|row| - 1]) + |row| * row[|row| - 1]
  }

  predicate NonNegative(row: Row)
  {
    forall j :: 0 <= j < |row| ==> row[j] >= 0
  }

  lemma WeightedAppend(p: Row, i: int)
    ensures Weighted(p + [i]) == Weighted(p) + (|p| + 1) * i
  {
    assert (p + [i])[..|p|] == p;
  }

  lemma {:induction false} WeightedNonNegative(row: Row)
    requires NonNegative(row)
    ensures Weighted(row) >= 0
  {
    if row != [] {
      WeightedNonNegative(row[..|row| - 1]);
      MulNonNegative(|row|, row[|row| - 1]);
    }
  }

  lemma MulNonNegative(a: int, b: int)
    requires a >= 0 && b >= 0
    ensures a * b >= 0
  {
  }

  /** i <= k / t exactly when i * t <= k, for a positive t. */
  lemma DivBound(k: int, t: int, i: int)
    requires t > 0
    ensures i <= k / t <==> i * t <= k
  {
    var q, r := k / t, k % t;
    assert k == q * t + r;
    if i <= q {
      assert q * t - i * t == (q - i) * t;
      MulNonNegative(q - i, t);
    } else {
      assert i * t - q * t == (i - q) * t;
      assert (i - q) * t >= t by {
        MulNonNegative(i - q - 1, t);
        assert (i - q) * t == (i - q - 1) * t + t;
      }
    }
  }

  /** Each row with one more entry i appended. */
  function Appended(rows: seq<Row>, i: int): (r: seq<Row>)
    ensures |r| == |rows|
    ensures forall n :: 0 <= n < |r| ==> r[n] == rows[n] + [i]
  {
    seq(|rows|, n requires 0 <= n < |rows| => rows[n] + [i])
  }

  /** `get_valid_joint_degrees(k, T)` for T >= 1, in the order it yields:
      one topology takes the whole degree; otherwise the last entry i runs
      over 0 .. k // T and the first T - 1 entries split k - i * T. */
  function Valid(k: int, T: nat): seq<Row>
    requires T >= 1
    decreases T, if k >= 0 then k / T + 2 else 1
  {
    if T == 1 then [[k]] else Extended(k, T, 0)
  }

  /** The rows of `Valid(k, T)` whose last entry is at least i. */
  function Extended(k: int, T: nat, i: nat): seq<Row>
    requires T >= 2
    decreases T, if i <= k / T then k / T - i + 1 else 0
  {
    if i > k / T then [] else Appended(Valid(k - i * T, T - 1), i) + Extended(k, T, i + 1)
  }

  /** `get_valid_joint_degrees` as called with T = len(probs): zero
      topologies divide by zero in `k // 0`. */
  function ValidJointDegrees(k: int, T: nat): (r: Result<seq<Row>>)
    ensures r.Err? <==> T == 0
    ensures r.Err? ==> r.error == ZeroDivisionError
    ensures r.Ok? ==> r.value == Valid(k, T)
  {
    if T == 0 then Err(ZeroDivisionError) else Ok(Valid(k, T))
  }

  /** A split of k over T topologies. */
  predicate Splits(row: Row, k: int, T: nat)
  {
    |row| == T && Weighted(row) == k && (k >= 0 ==> NonNegative(row))
  }

  lemma {:induction false} ValidSound(k: int, T: nat)
    requires T >= 1
    ensures forall row :: row in Valid(k, T) ==> Splits(row, k, T)
    decreases T, 1
  {
    if T == 1 {
      assert [] + [k] == [k];
      WeightedAppend([], k);
    } else {
      ExtendedSound(k, T, 0);
    }
  }

  /** Appending i >= 0 to a split of k - i * T over T - 1 topologies gives a
      split of k over T. */
  lemma AppendSplits(p: Row, i: nat, k: int, T: nat)
    requires T >= 2 && i * T <= k && Splits(p, k - i * T, T - 1)
    ensures Splits(p + [i], k, T) && (p + [i])[T - 1] == i
  {
    WeightedAppend(p, i);
    var row := p + [i];
    forall j | 0 <= j < |row| ensures row[j] >= 0 {
      if j < T - 1 {
        assert row[j] == p[j];
      }
    }
  }

  lemma {:induction false} ExtendedSound(k: int, T: nat, i: nat)
    requires T >= 2
    ensures forall row :: row in Extended(k, T, i) ==> Splits(row, k, T) && row[T - 1] >= i
    decreases T, 0, if i <= k / T then k / T - i + 1 else 0
  {
    if i <= k / T {
      var rows := Valid(k - i * T, T - 1);
      ValidSound(k - i * T, T - 1);
      ExtendedSound(k, T, i + 1);
      DivBound(k, T, i);
      forall row | row in Appended(rows, i)
        ensures Splits(row, k, T) && row[T - 1] >= i
      {
        var n :| 0 <= n < |rows| && row == rows[n] + [i];
        assert rows[n] in rows;
        AppendSplits(rows[n], i, k, T);
      }
    }
  }

  lemma {:induction false} ExtendedContains(k: int, T: nat, i0: nat, i: nat, p: Row)
    requires T >= 2 && i0 <= i <= k / T && p in Valid(k - i * T, T - 1)
    ensures p + [i] in Extended(k, T, i0)
    decreases i - i0
  {
    if i0 == i {
      var rows := Valid(k - i * T, T - 1);
      var n :| 0 <= n < |rows| && rows[n] == p;
      assert Appended(rows, i)[n] == p + [i];
    } else {
      ExtendedContains(k, T, i0 + 1, i, p);
    }
  }

  /** Every non-negative split of k over T topologies is produced. */
  lemma {:induction false} ValidComplete(k: int, T: nat, v: Row)
    requires T >= 1 && |v| == T && NonNegative(v) && Weighted(v) == k
    ensures v in Valid(k, T)
    decreases T
  {
    if T == 1 {
      assert v == [] + [v[0]];
      WeightedAppend([], v[0]);
    } else {
      var p, i := v[..T - 1], v[T - 1];
      assert v == p + [i];
      WeightedAppend(p, i);
      WeightedNonNegative(p);
      DivBound(k, T, i);
      ValidComplete(k - i * T, T - 1, p);
      ExtendedContains(k, T, 0, i, p);
    }
  }

  lemma NoDuplicatesConcat<T>(a: seq<T>, b: seq<T>)
    requires NoDuplicates(a) && NoDuplicates(b)
    requires forall x :: x in a ==> x !in b
    ensures NoDuplicates(a + b)
  {
    forall i, j | 0 <= i < j < |a + b| ensures (a + b)[i] != (a + b)[j] {
      if j < |a| {
      } else if i >= |a| {
        assert (a + b)[i] == b[i - |a|] && (a + b)[j] == b[j - |a|];
      } else {
        assert (a + b)[j] in b;
      }
    }
  }

  lemma {:induction false} ValidDistinct(k: int, T: nat)
    requires T >= 1
    ensures NoDuplicates(Valid(k, T))
    decreases T, 1
  {
    if T >= 2 {
      ExtendedDistinct(k, T, 0);
    }
  }

  lemma {:induction false} ExtendedDistinct(k: int, T: nat, i: nat)
    requires T >= 2
    ensures NoDuplicates(Extended(k, T, i))
    decreases T, 0, if i <= k / T then k / T - i + 1 else 0
  {
    if i <= k / T {
      var rows := Valid(k - i * T, T - 1);
      var a, b := Appended(rows, i), Extended(k, T, i + 1);
      ValidDistinct(k - i * T, T - 1);
      ValidSound(k - i * T, T - 1);
      ExtendedDistinct(k, T, i + 1);
      ExtendedSound(k, T, i + 1);
      forall m, n | 0 <= m < n < |a| ensures a[m] != a[n] {
        assert rows[m] in rows && rows[n] in rows;
        assert a[m][..T - 1] == rows[m] && a[n][..T - 1] == rows[n];
      }
      forall x | x in a ensures x !in b {
        var n :| 0 <= n < |a| && a[n] == x;
        assert rows[n] in rows;
        assert x[T - 1] == i;
      }
      NoDuplicatesConcat(a, b);
    }
  }

  lemma {:induction false} ValidNegative(k: int, T: nat)
    requires T >= 2 && k < 0
    ensures Valid(k, T) == []
  {
    assert k / T < 0;
  }

  /** `get_valid_joint_degrees` yields each non-negative split of k over T
      topologies exactly once and nothing else; a negative k has only the
      single-topology row [k]. */
  lemma ValidJointDegreesMeaning(k: int, T: nat, v: Row)
    requires T >= 1
    ensures NoDuplicates(Valid(k, T))
    ensures k >= 0 ==> (v in Valid(k, T) <==> |v| == T && NonNegative(v) && Weighted(v) == k)
    ensures k < 0 ==> Valid(k, T) == (if T == 1 then [[k]] else [])
  {
    ValidDistinct(k, T);
    ValidSound(k, T);
    if k >= 0 && |v| == T && NonNegative(v) && Weighted(v) == k {
      ValidComplete(k, T, v);
    }
    if k < 0 && T >= 2 {
      ValidNegative(k, T);
    }
  }

  // ----- resolving one degree -----

  /** Python's `sum` over floats. */
  function RealSum(s: seq<real>): real
  {
    if s == [] then 0.0 else RealSum(s[..|s| - 1]) + s[|s| - 1]
  }

  /** The probability of each row, from `calc_prob_of_joint_degree`. */
  function Probabilities(rows: seq<Row>, prob: Row -> real): (r: seq<real>)
    ensures |r| == |rows| && forall n :: 0 <= n < |r| ==> r[n] == prob(rows[n])
  {
    seq(|rows|, n requires 0 <= n < |rows| => prob(rows[n]))
  }

  /** Each row under its weight f(row). */
  function Weighting(rows: seq<Row>, f: Row -> real): (m: map<Row, real>)
    ensures m.Keys == set r | r in rows
  {
    map r | r in rows :: f(r)
  }

  /** pk times a row's share of the total probability. */
  function Share(prob: Row -> real, pk: real, total: real): Row -> real
    requires total != 0.0
  {
    (r: Row) => pk * (prob(r) / total)
  }

  /** What `resolve_degree(k, pk)` leaves in `_jdd`: each split of k weighted
      by pk times its probability's share of the splits' total. A zero total
      over a non-empty list of splits divides by zero. */
  function Resolved(k: int, pk: real, T: nat, prob: Row -> real): Result<map<Row, real>>
  {
    if T == 0 then Err(ZeroDivisionError)
    else
      var rows := Valid(k, T);
      var total := RealSum(Probabilities(rows, prob));
      if rows == [] then Ok(map[])
      else if total == 0.0 then Err(ZeroDivisionError)
      else Ok(Weighting(rows, Share(prob, pk, total)))
  }

  /** The resolved keys are exactly the splits of k. */
  lemma ResolvedKeys(k: int, pk: real, T: nat, prob: Row -> real, v: Row)
    requires Resolved(k, pk, T, prob).Ok?
    ensures T >= 1
    ensures v in Resolved(k, pk, T, prob).value <==> v in Valid(k, T)
    ensures v in Resolved(k, pk, T, prob).value ==> Splits(v, k, T)
  {
    ValidSound(k, T);
  }

  /** The weights handed out for k add up to pk. */
  lemma ResolvedMass(k: int, pk: real, T: nat, prob: Row -> real)
    requires Resolved(k, pk, T, prob).Ok?
    requires Valid(k, T) != []
    ensures EjkExtraction.Total(Resolved(k, pk, T, prob).value) == pk
  {
    var rows := Valid(k, T);
    var total := RealSum(Probabilities(rows, prob));
    ValidDistinct(k, T);
    TotalOfRows(rows, Share(prob, pk, total));
    SumShares(rows, prob, pk, total);
    assert total / total == 1.0;
  }

  lemma {:induction false} TotalOfRows(rows: seq<Row>, f: Row -> real)
    requires NoDuplicates(rows)
    ensures EjkExtraction.Total(Weighting(rows, f)) == RealSum(Probabilities(rows, f))
  {
    var m := Weighting(rows, f);
    if rows == [] {
      assert m == map[];
      EjkExtraction.TotalEmpty(m);
    } else {
      var init, last := rows[..|rows| - 1], rows[|rows| - 1];
      assert rows == init + [last];
      TotalOfRows(init, f);
      assert last !in init;
      assert m - {last} == Weighting(init, f);
      EjkExtraction.TotalRemove(m, last);
      assert Probabilities(init, f) == Probabilities(rows, f)[..|rows| - 1];
    }
  }

  lemma {:induction false} SumShares(rows: seq<Row>, prob: Row -> real, pk: real, total: real)
    requires total != 0.0
    ensures RealSum(Probabilities(rows, Share(prob, pk, total))) == pk * (RealSum(Probabilities(rows, prob)) / total)
  {
    var f := Share(prob, pk, total);
    if rows != [] {
      var init := rows[..|rows| - 1];
      SumShares(init, prob, pk, total);
      assert Probabilities(init, f) == Probabilities(rows, f)[..|rows| - 1];
      assert Probabilities(init, prob) == Probabilities(rows, prob)[..|rows| - 1];
      ShareStep(RealSum(Probabilities(init, prob)), prob(rows[|rows| - 1]), pk, total);
    } else {
      assert pk * (0.0 / total) == 0.0;
    }
  }

  lemma ShareStep(a: real, b: real, pk: real, total: real)
    requires total != 0.0
    ensures pk * (a / total) + pk * (b / total) == pk * ((a + b) / total)
  {
  }

  lemma WeightingStep(rows: seq<Row>, n: nat, f: Row -> real)
    requires n < |rows|
    ensures Weighting(rows[..n + 1], f) == Weighting(rows[..n], f)[rows[n] := f(rows[n])]
  {
    assert rows[..n + 1] == rows[..n] + [rows[n]];
  }

  /** The first loop of `resolve_degree`: each row's probability. */
  method ProbabilitiesOf(rows: seq<Row>, prob: Row -> real) returns (probabilities: seq<real>)
    ensures probabilities == Probabilities(rows, prob)
  {
    probabilities := [];
    for n := 0 to |rows|
      invariant probabilities == Probabilities(rows[..n], prob)
    {
      assert Probabilities(rows[..n + 1], prob) == probabilities + [prob(rows[n])];
      probabilities := probabilities + [prob(rows[n])];
    }
    assert rows[..|rows|] == rows;
  }

  /** The second loop: every probability divided by the total, in place. */
  method DivideAll(probabilities: seq<real>, total: real) returns (shares: seq<real>)
    requires total != 0.0
    ensures |shares| == |probabilities|
    ensures forall n :: 0 <= n < |shares| ==> shares[n] == probabilities[n] / total
  {
    shares := probabilities;
    for n := 0 to |shares|
      invariant |shares| == |probabilities|
      invariant forall m :: 0 <= m < n ==> shares[m] == probabilities[m] / total
      invariant forall m :: n <= m < |shares| ==> shares[m] == probabilities[m]
    {
      shares := shares[n := shares[n] / total];
    }
  }

  /** The third loop: each row stored under pk times its share. */
  method WeighAll(rows: seq<Row>, shares: seq<real>, pk: real, f: Row -> real) returns (m: map<Row, real>)
    requires |shares| == |rows|
    requires forall n :: 0 <= n < |rows| ==> pk * shares[n] == f(rows[n])
    ensures m == Weighting(rows, f)
  {
    m := map[];
    for n := 0 to |rows|
      invariant m == Weighting(rows[..n], f)
    {
      WeightingStep(rows, n, f);
      m := m[rows[n] := pk * shares[n]];
    }
    assert rows[..|rows|] == rows;
  }

  /** `resolve_degree`'s computation: the splits, their probabilities, the
      probabilities over their total, each written under its row. */
  method ResolveRows(k: int, pk: real, T: nat, prob: Row -> real) returns (res: Result<map<Row, real>>)
    ensures res == Resolved(k, pk, T, prob)
  {
    if T == 0 {
      return Err(ZeroDivisionError);
    }
    var rows := Valid(k, T);
    var probabilities := ProbabilitiesOf(rows, prob);
    var total := RealSum(probabilities);
    if rows == [] {
      return Ok(map[]);
    }
    if total == 0.0 {
      return Err(ZeroDivisionError);
    }
    var shares := DivideAll(probabilities, total);
    var m := WeighAll(rows, shares, pk, Share(prob, pk, total));
    return Ok(m);
  }

  // ----- the loader -----

  /** The constructor's parameters; None marks a missing key. */
  datatype SplitParams = SplitParams(
    fp: Option<int -> real>,
    probs: Option<seq<real>>,
    motifSizes: Option<seq<int>>,
    bound: Option<(int, int)>)

  /** The first degree in lo .. hi - 1 whose resolution fails, if any. */
  function FirstFailure(lo: int, hi: int, T: nat, fp: int -> real, prob: Row -> real): Option<Error>
    decreases hi - lo
  {
    if lo >= hi then None
    else match Resolved(lo, fp(lo), T, prob)
      case Err(e) => Some(e)
      case Ok(_) => FirstFailure(lo + 1, hi, T, fp, prob)
  }

  /** The distribution `create_jdd` has built before it normalises: every
      resolution starts from an empty dict, so only the last degree's
      entries remain, and an empty range never assigns `_jdd` at all. */
  function SplitJdd(lo: int, hi: int, T: nat, fp: int -> real, prob: Row -> real): Result<map<Row, real>>
  {
    if lo >= hi then Err(AttributeError)
    else match FirstFailure(lo, hi, T, fp, prob)
      case Some(e) => Err(e)
      case None => Resolved(hi - 1, fp(hi - 1), T, prob)
  }

  /** Resolving degree k succeeded: the first failure lies further on. */
  lemma FailureAdvances(lo: int, k: int, hi: int, T: nat, fp: int -> real, prob: Row -> real)
    requires lo <= k < hi && FirstFailure(lo, hi, T, fp, prob) == FirstFailure(k, hi, T, fp, prob)
    requires Resolved(k, fp(k), T, prob).Ok?
    ensures FirstFailure(lo, hi, T, fp, prob) == FirstFailure(k + 1, hi, T, fp, prob)
  {
  }

  /** Resolving degree k failed, and no earlier degree did. */
  lemma FailureStops(lo: int, k: int, hi: int, T: nat, fp: int -> real, prob: Row -> real)
    requires lo <= k < hi && FirstFailure(lo, hi, T, fp, prob) == FirstFailure(k, hi, T, fp, prob)
    requires Resolved(k, fp(k), T, prob).Err?
    ensures FirstFailure(lo, hi, T, fp, prob) == Some(Resolved(k, fp(k), T, prob).error)
  {
  }

  /** No degree of a non-empty range failed: the last one's entries remain. */
  lemma SplitLast(lo: int, hi: int, T: nat, fp: int -> real, prob: Row -> real)
    requires lo < hi && FirstFailure(lo, hi, T, fp, prob) == FirstFailure(hi, hi, T, fp, prob)
    ensures SplitJdd(lo, hi, T, fp, prob) == Resolved(hi - 1, fp(hi - 1), T, prob)
  {
  }

  lemma SplitNormalised(lo: int, hi: int, T: nat, fp: int -> real, prob: Row -> real, m: map<Row, real>)
    requires SplitJdd(lo, hi, T, fp, prob) == Ok(m)
    ensures SplitOutcome(lo, hi, T, fp, prob) == Normalised(m)
  {
  }

  /** The normalised outcome of `create_jdd`. */
  ghost function SplitOutcome(lo: int, hi: int, T: nat, fp: int -> real, prob: Row -> real): Result<map<Row, real>>
  {
    match SplitJdd(lo, hi, T, fp, prob)
      case Err(e) => Err(e)
      case Ok(m) => Normalised(m)
  }

  /** Only the last degree of the range survives: the keys are exactly the
      splits of hi - 1, and they carry all of the weight. */
  lemma SplitKeys(lo: int, hi: int, T: nat, fp: int -> real, prob: Row -> real, v: Row)
    requires SplitOutcome(lo, hi, T, fp, prob).Ok?
    ensures lo < hi && T >= 1
    ensures v in SplitOutcome(lo, hi, T, fp, prob).value <==> v in Valid(hi - 1, T)
    ensures v in SplitOutcome(lo, hi, T, fp, prob).value ==> Splits(v, hi - 1, T)
    ensures hi - 1 >= 0 ==>
      (v in SplitOutcome(lo, hi, T, fp, prob).value <==> |v| == T && NonNegative(v) && Weighted(v) == hi - 1)
  {
    var m := SplitJdd(lo, hi, T, fp, prob);
    assert m.Ok?;
    ResolvedKeys(hi - 1, fp(hi - 1), T, prob, v);
    if m.value != map[] {
      assert SplitOutcome(lo, hi, T, fp, prob).value.Keys == m.value.Keys;
    }
    ValidJointDegreesMeaning(hi - 1, T, v);
  }

  /** `JointDegreeSplitDegree`. */
  class SplitDegreeLoader {
    /** `_jdd`; None while the attribute has never been assigned. */
    var jdd: Option<map<Row, real>>
    const fp: int -> real
    const probs: seq<real>
    const motifSizes: seq<int>
    const bound: (int, int)
    /** `calc_prob_of_joint_degree`: the product over i of
        probs[i] ** ((i + 1) * row[i]), a float computation left opaque. */
    const prob: Row -> real

    constructor (fp: int -> real, probs: seq<real>, motifSizes: seq<int>, bound: (int, int), prob: Row -> real)
      ensures this.fp == fp && this.probs == probs && this.motifSizes == motifSizes
      ensures this.bound == bound && this.prob == prob && jdd == None
    {
      this.fp := fp;
      this.probs := probs;
      this.motifSizes := motifSizes;
      this.bound := bound;
      this.prob := prob;
      jdd := None;
    }

    /** `resolve_degree`: `_jdd` is reset to {} before anything can fail. */
    method ResolveDegree(k: int, pk: real) returns (res: Result<()>)
      modifies this
      ensures res.Ok? <==> Resolved(k, pk, |probs|, prob).Ok?
      ensures res.Err? ==> res.error == Resolved(k, pk, |probs|, prob).error
      ensures jdd == Some(if res.Ok? then Resolved(k, pk, |probs|, prob).value else map[])
    {
      jdd := Some(map[]);
      var r := ResolveRows(k, pk, |probs|, prob);
      if r.Err? {
        return Err(r.error);
      }
      jdd := Some(r.value);
      return Ok(());
    }

    /** One pass of the loop of `create_jdd`: degree k is resolved, and a
        failure is the first of the range. */
    method ResolveNext(lo: int, k: int, hi: int) returns (res: Result<()>)
      requires lo <= k < hi && FirstFailure(lo, hi, |probs|, fp, prob) == FirstFailure(k, hi, |probs|, fp, prob)
      modifies this
      ensures res.Err? ==> FirstFailure(lo, hi, |probs|, fp, prob) == Some(res.error)
      ensures res.Ok? ==> FirstFailure(lo, hi, |probs|, fp, prob) == FirstFailure(k + 1, hi, |probs|, fp, prob)
      ensures res.Ok? ==> Resolved(k, fp(k), |probs|, prob).Ok? && jdd == Some(Resolved(k, fp(k), |probs|, prob).value)
    {
      res := ResolveDegree(k, fp(k));
      if res.Err? {
        FailureStops(lo, k, hi, |probs|, fp, prob);
      } else {
        FailureAdvances(lo, k, hi, |probs|, fp, prob);
      }
    }

    /** The loop of `create_jdd`: each degree from lo up to hi is resolved
        in turn, and the first failure ends it. */
    method ResolveRange(lo: int, hi: int) returns (res: Result<()>)
      requires jdd == None
      modifies this
      ensures res.Err? ==> FirstFailure(lo, hi, |probs|, fp, prob) == Some(res.error)
      ensures res.Ok? ==> FirstFailure(lo, hi, |probs|, fp, prob) == None
      ensures res.Ok? && lo >= hi ==> jdd == None
      ensures res.Ok? && lo < hi ==> Resolved(hi - 1, fp(hi - 1), |probs|, prob).Ok?
                                     && jdd == Some(Resolved(hi - 1, fp(hi - 1), |probs|, prob).value)
    {
      var k := lo;
      // the degree resolved last
      ghost var last := lo - 1;
      while k < hi
        invariant lo <= hi ==> lo <= k <= hi
        invariant lo > hi ==> k == lo
        invariant FirstFailure(lo, hi, |probs|, fp, prob) == FirstFailure(k, hi, |probs|, fp, prob)
        invariant last == k - 1
        invariant k == lo ==> jdd == None
        invariant k > lo ==> Resolved(last, fp(last), |probs|, prob).Ok?
        invariant k > lo ==> jdd == Some(Resolved(last, fp(last), |probs|, prob).value)
        decreases hi - k
      {
        var r := ResolveNext(lo, k, hi);
        if r.Err? {
          return Err(r.error);
        }
        last := k;
        k := k + 1;
      }
      return Ok(());
    }

    /** `create_jdd`: resolve every degree of the range, then normalise. */
    method CreateJdd() returns (res: Result<()>)
      requires jdd == None
      modifies this
      ensures var out := SplitOutcome(bound.0, bound.1, |probs|, fp, prob);
        (res.Ok? <==> out.Ok?) &&
        (res.Err? ==> res.error == out.error) &&
        (res.Ok? ==> jdd == Some(out.value))
    {
      var lo, hi := bound.0, bound.1;
      res := ResolveRange(lo, hi);
      if res.Err? {
        return;
      }
      if jdd.None? {
        return Err(AttributeError);
      }
      SplitLast(lo, hi, |probs|, fp, prob);
      SplitNormalised(lo, hi, |probs|, fp, prob, jdd.value);
      var n := NormaliseJdd(jdd.value);
      if n.Err? {
        return Err(n.error);
      }
      jdd := Some(n.value);
      return Ok(());
    }
  }

  /** `JointDegreeSplitDegree(params)`: a missing key is re-raised as a
      plain string, which Python turns into a TypeError; otherwise the
      distribution is built at once, and its failure is the constructor's. */
  method NewSplitDegree(params: SplitParams, prob: Row -> real) returns (res: Result<SplitDegreeLoader>)
    ensures params.fp.None? || params.probs.None? || params.motifSizes.None? || params.bound.None? ==>
      res == Err(TypeError)
    ensures params.fp.Some? && params.probs.Some? && params.motifSizes.Some? && params.bound.Some? ==>
      var out := SplitOutcome(params.bound.value.0, params.bound.value.1, |params.probs.value|, params.fp.value, prob);
      (res.Ok? <==> out.Ok?) &&
      (res.Err? ==> res.error == out.error) &&
      (res.Ok? ==> fresh(res.value) && res.value.jdd == Some(out.value) && res.value.motifSizes == params.motifSizes.value)
  {
    if params.fp.None? || params.probs.None? || params.motifSizes.None? || params.bound.None? {
      return Err(TypeError);
    }
    var loader := new SplitDegreeLoader(params.fp.value, params.probs.value, params.motifSizes.value, params.bound.value, prob);
    var r := loader.CreateJdd();
    if r.Err? {
      return Err(r.error);
    }
    return Ok(loader);
  }
}
