// The first version's loaders that build the distribution from analytical
// functions or from a clique cover: a joint function evaluated on every
// tuple of the inclusive degree box, independent marginals merged either
// by enumeration or by sampling, and the counted joint degrees of the nodes
// of a clique cover. Keys are the tuples printed by `str`.

module LegacyAnalytic {
  import opened Common
  import opened JointDegrees
  import opened PyText
  import opened LegacyJdd
  import Marginal
  import SplitDegree
  import CoverJointDegree
  import EjkExtraction

  // ----- tuple keys -----

  lemma TupleTextsDistinct()
    ensures forall a: Row, b: Row :: TupleText(a) == TupleText(b) ==> a == b
  {
    forall a: Row, b: Row | TupleText(a) == TupleText(b) ensures a == b {
      KeyTexts(a, b);
    }
  }

  /** The entries of a row-keyed map, each under `str` of its row as a tuple. */
  function TupleKeyed(m: map<Row, real>): (r: Jdd)
    ensures forall row :: row in m ==> TupleText(row) in r && r[TupleText(row)] == m[row]
    ensures r.Keys == set row | row in m :: TupleText(row)
  {
    TupleTextsDistinct();
    map row | row in m :: TupleText(row) := m[row]
  }

  /** The texts `str(jd)` of the tuples of a sequence. */
  function TextsOf(rows: seq<Row>): set<string>
  {
    set r | r in rows :: TupleText(r)
  }

  lemma TextsOfStep(rows: seq<Row>, t: nat)
    requires t < |rows|
    ensures TextsOf(rows[..t + 1]) == TextsOf(rows[..t]) + {TupleText(rows[t])}
  {
    assert rows[..t + 1] == rows[..t] + [rows[t]];
  }

  /** A tuple inside the degree bounds, half-open or with kmax included. */
  predicate InBounds(r: Row, bounds: seq<(int, int)>, inclusive: bool)
  {
    |r| == |bounds| &&
    forall i :: 0 <= i < |r| ==>
      bounds[i].0 <= r[i] && (if inclusive then r[i] <= bounds[i].1 else r[i] < bounds[i].1)
  }

  /** The enumerated tuples are the tuples inside the bounds. */
  lemma ProductInBounds(bounds: seq<(int, int)>, inclusive: bool)
    ensures forall r :: r in Marginal.Product(Marginal.Ranges(bounds, inclusive)) <==> InBounds(r, bounds, inclusive)
  {
    Marginal.AllJointDegreesMeaning(bounds, inclusive);
  }

  /** The texts of the enumerated tuples are the texts of the tuples inside
      the bounds. */
  lemma BoxTexts(bounds: seq<(int, int)>, inclusive: bool)
    ensures forall s :: s in TextsOf(Marginal.Product(Marginal.Ranges(bounds, inclusive))) <==>
      exists r :: InBounds(r, bounds, inclusive) && s == TupleText(r)
  {
    var rows := Marginal.Product(Marginal.Ranges(bounds, inclusive));
    ProductInBounds(bounds, inclusive);
    forall s | s in TextsOf(rows) ensures exists r :: InBounds(r, bounds, inclusive) && s == TupleText(r) {
      var r :| r in rows && s == TupleText(r);
      assert InBounds(r, bounds, inclusive);
    }
    forall s | exists r :: InBounds(r, bounds, inclusive) && s == TupleText(r) ensures s in TextsOf(rows) {
      var r :| InBounds(r, bounds, inclusive) && s == TupleText(r);
      assert r in rows;
    }
  }

  // ----- JDD_joint_function -----

  /** jdd0 with the first t tuples of rows written in, each under its text. */
  predicate WrittenUpTo(jdd0: Jdd, jdd: Jdd, rows: seq<Row>, t: nat, fp: Row -> real)
    requires t <= |rows|
  {
    jdd.Keys == jdd0.Keys + TextsOf(rows[..t])
    && (forall r :: r in rows[..t] ==> jdd[TupleText(r)] == fp(r))
    && (forall s :: s in jdd0 && s !in TextsOf(rows[..t]) ==> jdd[s] == jdd0[s])
  }

  lemma WrittenStep(jdd0: Jdd, jdd: Jdd, rows: seq<Row>, t: nat, fp: Row -> real)
    requires t < |rows| && WrittenUpTo(jdd0, jdd, rows, t, fp)
    ensures WrittenUpTo(jdd0, jdd[TupleText(rows[t]) := fp(rows[t])], rows, t + 1, fp)
  {
    var x := rows[t];
    var jdd' := jdd[TupleText(x) := fp(x)];
    TextsOfStep(rows, t);
    assert rows[..t + 1] == rows[..t] + [x];
    forall r | r in rows[..t + 1] ensures jdd'[TupleText(r)] == fp(r) {
      KeyTexts(r, x);
    }
  }

  /** `JDD_joint_function`: the callback takes a whole joint degree. */
  class LegacyJointFunction {
    var jdd: Jdd
    const fp: Row -> real
    const motifSizes: seq<int>
    const bounds: seq<(int, int)>

    constructor (fp: Row -> real, motifSizes: seq<int>, bounds: seq<(int, int)>)
      ensures this.fp == fp && this.motifSizes == motifSizes && this.bounds == bounds && jdd == map[]
    {
      this.fp := fp;
      this.motifSizes := motifSizes;
      this.bounds := bounds;
      jdd := map[];
    }

    /** `create_jdd_directly`: every tuple of the inclusive box, printed, is
        given the callback's value at that tuple; nothing is normalised and
        entries already present stay unless overwritten. */
    method CreateJddDirectly()
      modifies this
      ensures jdd.Keys == old(jdd).Keys + TextsOf(Marginal.Product(Marginal.Ranges(bounds, true)))
      ensures forall r :: r in Marginal.Product(Marginal.Ranges(bounds, true)) ==> jdd[TupleText(r)] == fp(r)
      ensures forall s :: s in old(jdd) && s !in TextsOf(Marginal.Product(Marginal.Ranges(bounds, true))) ==>
        jdd[s] == old(jdd)[s]
    {
      var rows := Marginal.Product(Marginal.Ranges(bounds, true));
      assert rows[..0] == [];
      for t := 0 to |rows|
        invariant WrittenUpTo(old(jdd), jdd, rows, t, fp)
      {
        WrittenStep(old(jdd), jdd, rows, t, fp);
        jdd := jdd[TupleText(rows[t]) := fp(rows[t])];
      }
      assert rows[..|rows|] == rows;
    }

    /** `create_jdd_by_sampling` is not implemented. */
    method CreateJddBySampling() returns (res: Result<()>)
      ensures res == Err(NotImplementedError)
    {
      return Err(NotImplementedError);
    }
  }

  /** The joint function's distribution: the printed tuples of the
      inclusive box, each with the callback's value, kmax included. */
  lemma JointFunctionMeaning(bounds: seq<(int, int)>, fp: Row -> real, jdd: Jdd)
    requires jdd.Keys == TextsOf(Marginal.Product(Marginal.Ranges(bounds, true)))
    requires forall r :: r in Marginal.Product(Marginal.Ranges(bounds, true)) ==> jdd[TupleText(r)] == fp(r)
    ensures forall s :: s in jdd <==> exists r :: InBounds(r, bounds, true) && s == TupleText(r)
    ensures forall r :: InBounds(r, bounds, true) ==> TupleText(r) in jdd && jdd[TupleText(r)] == fp(r)
  {
    BoxTexts(bounds, true);
    Marginal.AllJointDegreesMeaning(bounds, true);
  }

  /** `JDD_joint_function(fp, motif_sizes, bounds, use_sampling=False)`:
      the direct distribution, or NotImplementedError when sampling is asked
      for. */
  method NewLegacyJointFunction(fp: Row -> real, motifSizes: seq<int>, bounds: seq<(int, int)>, useSampling: Option<bool>)
    returns (res: Result<LegacyJointFunction>)
    ensures useSampling == Some(true) <==> res.Err?
    ensures res.Err? ==> res.error == NotImplementedError
    ensures res.Ok? ==> fresh(res.value) && res.value.bounds == bounds
    ensures res.Ok? ==> forall s :: s in res.value.jdd <==> exists r :: InBounds(r, bounds, true) && s == TupleText(r)
    ensures res.Ok? ==> forall r :: InBounds(r, bounds, true) ==> res.value.jdd[TupleText(r)] == fp(r)
  {
    var model := new LegacyJointFunction(fp, motifSizes, bounds);
    if useSampling == Some(true) {
      var r := model.CreateJddBySampling();
      return Err(r.error);
    }
    model.CreateJddDirectly();
    JointFunctionMeaning(bounds, fp, model.jdd);
    return Ok(model);
  }

  // ----- JDD_marginals, enumerated -----

  /** `ast.literal_eval` of a key, then the row of integers it holds. */
  function ReadRow(s: string): Result<Row>
  {
    match LiteralEval(s)
    case Err(e) => Err(e)
    case Ok(v) => RowOf(v)
  }

  /** `ast.literal_eval(str(jd))` reads back the tuple's integers. */
  lemma ReadBack(r: Row)
    ensures ReadRow(TupleText(r)) == Ok(r)
  {
    LiteralEvalRepr(PTuple(Ints(r)));
    var f := FlatRow(Ints(r));
    assert forall k :: 0 <= k < |Ints(r)| ==> Ints(r)[k].PInt?;
    IntsInjective(f.value, r);
  }

  /** The printed sequence holds exactly the printed tuples. */
  lemma TextsAre(rows: seq<Row>)
    ensures forall s :: s in Texts(rows) <==> s in TextsOf(rows)
  {
    var texts := Texts(rows);
    forall s | s in TextsOf(rows) ensures s in texts {
      var r :| r in rows && s == TupleText(r);
      var u :| 0 <= u < |rows| && rows[u] == r;
      assert texts[u] == s;
    }
  }

  /** The evaluation loop of `create_jdd_directly`: each entered key is read
      back with `literal_eval` and weighted by the product of the marginals
      at its coordinates; a coordinate with no marginal is an IndexError. */
  method EvaluateTexts(rows: seq<Row>, fps: seq<int -> real>) returns (res: Result<Jdd>)
    ensures res.Err? <==> exists r :: r in rows && |r| > |fps|
    ensures res.Err? ==> res.error == IndexError
    ensures res.Ok? ==> forall s :: s in res.value <==> s in TextsOf(rows)
    ensures res.Ok? ==> forall r :: r in rows ==> |r| <= |fps| && res.value[TupleText(r)] == Marginal.Joint(fps, r)
  {
    var texts := Texts(rows);
    TextsAre(rows);
    var m := EvaluateEach(rows, texts, fps);
    if m.Err? {
      return m;
    }
    forall r | r in rows ensures |r| <= |fps| && m.value[TupleText(r)] == Marginal.Joint(fps, r) {
      var u :| 0 <= u < |rows| && rows[u] == r;
    }
    return m;
  }

  method EvaluateEach(rows: seq<Row>, texts: seq<string>, fps: seq<int -> real>) returns (res: Result<Jdd>)
    requires texts == Texts(rows)
    ensures res.Err? <==> exists r :: r in rows && |r| > |fps|
    ensures res.Err? ==> res.error == IndexError
    ensures res.Ok? ==> forall s :: s in res.value <==> s in texts
    ensures res.Ok? ==> forall u :: 0 <= u < |rows| ==> |rows[u]| <= |fps| && res.value[texts[u]] == Marginal.Joint(fps, rows[u])
  {
    var m: Jdd := map s | s in texts :: 0.0;
    for t := 0 to |texts|
      invariant forall s :: s in m <==> s in texts
      invariant forall u :: 0 <= u < t ==> |rows[u]| <= |fps| && m[texts[u]] == Marginal.Joint(fps, rows[u])
    {
      ReadBack(rows[t]);
      var jd := ReadRow(texts[t]);
      var p := Marginal.EvaluateProb(fps, jd.value);
      if p.Err? {
        assert rows[t] in rows;
        return Err(IndexError);
      }
      SameText(rows, texts, t);
      EvaluatedStep(rows, texts, fps, m, t, p.value);
      m := m[texts[t] := p.value];
    }
    return Ok(m);
  }

  /** Writing the t-th tuple's value keeps those written before: two tuples
      printed alike are the same tuple. */
  lemma EvaluatedStep(rows: seq<Row>, texts: seq<string>, fps: seq<int -> real>, m: Jdd, t: nat, p: real)
    requires |texts| == |rows| && t < |rows| && |rows[t]| <= |fps| && p == Marginal.Joint(fps, rows[t])
    requires forall u :: 0 <= u < |rows| && texts[u] == texts[t] ==> rows[u] == rows[t]
    requires forall u :: 0 <= u < t ==> |rows[u]| <= |fps| && texts[u] in m && m[texts[u]] == Marginal.Joint(fps, rows[u])
    ensures forall u :: 0 <= u < t + 1 ==> |rows[u]| <= |fps| && m[texts[t] := p][texts[u]] == Marginal.Joint(fps, rows[u])
  {
  }

  /** Only the t-th tuple prints as the t-th text. */
  lemma SameText(rows: seq<Row>, texts: seq<string>, t: nat)
    requires texts == Texts(rows) && t < |rows|
    ensures forall u :: 0 <= u < |rows| && texts[u] == texts[t] ==> rows[u] == rows[t]
  {
    forall u | 0 <= u < |rows| && texts[u] == texts[t] ensures rows[u] == rows[t] {
      TupleTextsEqual(rows[u], rows[t]);
    }
  }

  lemma TupleTextsEqual(a: Row, b: Row)
    requires TupleText(a) == TupleText(b)
    ensures a == b
  {
    KeyTexts(a, b);
  }

  /** A text-keyed map that agrees with a row-keyed one on every row is
      that map with its rows printed. */
  lemma TupleKeyedIs(w: map<Row, real>, rows: seq<Row>, m: Jdd)
    requires forall r :: r in w <==> r in rows
    requires forall s :: s in m <==> s in TextsOf(rows)
    requires forall r :: r in w ==> m[TupleText(r)] == w[r]
    ensures m == TupleKeyed(w)
  {
    var k := TupleKeyed(w);
    forall s | s in m ensures s in k && k[s] == m[s] {
      var r :| r in rows && s == TupleText(r);
    }
    forall s | s in k ensures s in m {
      var r :| r in w && s == TupleText(r);
    }
  }

  /** A successful evaluation weighs each generated tuple by the product of
      its marginals. */
  lemma DirectWeightsAt(bounds: seq<(int, int)>, fps: seq<int -> real>, r: Row)
    requires Marginal.DirectWeights(bounds, fps).Ok?
    ensures forall r :: r in Marginal.DirectWeights(bounds, fps).value <==> r in Marginal.AllJointDegrees(bounds)
    ensures r in Marginal.AllJointDegrees(bounds) ==>
      |r| <= |fps| && Marginal.DirectWeights(bounds, fps).value[r] == Marginal.Joint(fps, r)
  {
  }

  lemma TupleWeightsAre(bounds: seq<(int, int)>, fps: seq<int -> real>, m: Jdd)
    requires forall s :: s in m <==> s in TextsOf(Marginal.AllJointDegrees(bounds))
    requires forall r :: r in Marginal.AllJointDegrees(bounds) ==> |r| <= |fps| && m[TupleText(r)] == Marginal.Joint(fps, r)
    ensures Marginal.DirectWeights(bounds, fps).Ok?
    ensures m == TupleKeyed(Marginal.DirectWeights(bounds, fps).value)
  {
    var rows := Marginal.AllJointDegrees(bounds);
    var w := map r | r in rows :: Marginal.Joint(fps, r);
    Marginal.WeightsAre(bounds, fps, w);
    TupleKeyedIs(w, rows, m);
  }

  /** What the enumerated `JDD_marginals` leaves in `_jdd`. */
  ghost function LegacyDirectOutcome(bounds: seq<(int, int)>, fps: seq<int -> real>): Result<Jdd>
  {
    match Marginal.DirectWeights(bounds, fps)
    case Err(e) => Err(e)
    case Ok(w) => Normalised(TupleKeyed(w))
  }

  /** The enumerated distribution holds the printed tuples of the half-open
      box, kmax excluded. */
  lemma LegacyDirectKeys(bounds: seq<(int, int)>, fps: seq<int -> real>)
    requires LegacyDirectOutcome(bounds, fps).Ok?
    ensures forall s :: s in LegacyDirectOutcome(bounds, fps).value <==> exists r :: InBounds(r, bounds, false) && s == TupleText(r)
  {
    OutcomeIs(bounds, fps);
    var rows := Marginal.AllJointDegrees(bounds);
    var w := Marginal.DirectWeights(bounds, fps).value;
    DirectWeightsAt(bounds, fps, []);
    TupleKeyedKeys(w, rows);
    NormalisedKeys(TupleKeyed(w));
    BoxTexts(bounds, false);
  }

  /** Printing the keys of a map over the given rows gives the printed rows. */
  lemma TupleKeyedKeys(w: map<Row, real>, rows: seq<Row>)
    requires forall r :: r in w <==> r in rows
    ensures forall s :: s in TupleKeyed(w) <==> s in TextsOf(rows)
  {
    forall s ensures s in TupleKeyed(w) <==> s in TextsOf(rows) {
      if s in TupleKeyed(w) {
        var r :| r in w && s == TupleText(r);
        assert r in rows;
      }
      if s in TextsOf(rows) {
        var r :| r in rows && s == TupleText(r);
        assert r in w;
      }
    }
  }

  lemma InBoundsGenerated(bounds: seq<(int, int)>, r: Row)
    requires InBounds(r, bounds, false)
    ensures r in Marginal.AllJointDegrees(bounds)
  {
    ProductInBounds(bounds, false);
  }

  lemma OutcomeIs(bounds: seq<(int, int)>, fps: seq<int -> real>)
    requires LegacyDirectOutcome(bounds, fps).Ok?
    ensures Marginal.DirectWeights(bounds, fps).Ok?
    ensures LegacyDirectOutcome(bounds, fps) == Normalised(TupleKeyed(Marginal.DirectWeights(bounds, fps).value))
  {
  }

  /** Each tuple's weight is the product of its marginals over the total
      of all of them. */
  lemma LegacyDirectValue(bounds: seq<(int, int)>, fps: seq<int -> real>, r: Row)
    requires LegacyDirectOutcome(bounds, fps).Ok?
    requires InBounds(r, bounds, false)
    ensures |r| <= |fps|
    ensures TupleText(r) in LegacyDirectOutcome(bounds, fps).value
    ensures LegacyDirectOutcome(bounds, fps).value[TupleText(r)] ==
      Marginal.Joint(fps, r) / EjkExtraction.Total(TupleKeyed(Marginal.DirectWeights(bounds, fps).value))
  {
    OutcomeIs(bounds, fps);
    InBoundsGenerated(bounds, r);
    DirectWeightsAt(bounds, fps, r);
    var w := Marginal.DirectWeights(bounds, fps).value;
    TupleKeyedAt(w, r);
    NormalisedValue(TupleKeyed(w), TupleText(r), Marginal.Joint(fps, r));
  }

  lemma TupleKeyedAt(w: map<Row, real>, r: Row)
    requires r in w
    ensures TupleText(r) in TupleKeyed(w) && TupleKeyed(w)[TupleText(r)] == w[r]
  {
  }

  /** Normalising divides each weight by the total. */
  lemma NormalisedValue(m: Jdd, k: string, x: real)
    requires Normalised(m).Ok? && k in m && m[k] == x
    ensures k in Normalised(m).value && Normalised(m).value[k] == x / EjkExtraction.Total(m)
  {
  }

  // ----- JDD_marginals, sampled -----

  /** A sample count as passed: the signature's default `1e5` is a float. */
  datatype Count = IntCount(n: int) | FloatCount(x: real)

  /** The default the signature gives `n_samples`. */
  const AsWrittenSamples: Count := FloatCount(100000.0)

  /** The default the count evidently should have: the integer 100000, as
      the later loader has it. */
  const DefaultSamples: Count := IntCount(100000)

  /** The first dimension, from i on, whose draw fails: the failures of
      `random.choices` as in the later loader, and once a dimension's
      weights are accepted a float count makes the draw loop raise
      TypeError. */
  function LegacyDrawFailure(bounds: seq<(int, int)>, fps: seq<int -> real>, count: Count, i: nat): Option<Error>
    decreases |bounds| - i
  {
    if i >= |bounds| then None
    else
      var ks := Marginal.Range(bounds[i].0, bounds[i].1 + 1);
      if ks == [] then Some(IndexError)
      else if i >= |fps| then Some(IndexError)
      else if SplitDegree.RealSum(Marginal.Weights(ks, fps[i])) <= 0.0 then Some(ValueError)
      else if count.FloatCount? then Some(TypeError)
      else LegacyDrawFailure(bounds, fps, count, i + 1)
  }

  /** With an integer count the first version's draw fails exactly where
      the later loader's does. */
  lemma {:induction false} IntCountDraws(bounds: seq<(int, int)>, fps: seq<int -> real>, n: int, i: nat)
    ensures LegacyDrawFailure(bounds, fps, IntCount(n), i) == Marginal.DrawFailure(bounds, fps, i)
    decreases |bounds| - i
  {
    if i < |bounds| {
      IntCountDraws(bounds, fps, n, i + 1);
    }
  }

  /** With a float count no draw succeeds: every input whose draw an integer
      count would accept fails with TypeError. */
  lemma FloatCountFails(bounds: seq<(int, int)>, fps: seq<int -> real>, x: real)
    requires bounds != []
    ensures LegacyDrawFailure(bounds, fps, FloatCount(x), 0).Some?
    ensures Marginal.DrawFailure(bounds, fps, 0).None? ==> LegacyDrawFailure(bounds, fps, FloatCount(x), 0) == Some(TypeError)
  {
  }

  /** The signature's default count makes every sampled construction with
      at least one topology fail. */
  lemma AsWrittenDefaultFails(bounds: seq<(int, int)>, fps: seq<int -> real>)
    requires bounds != []
    ensures LegacyDrawFailure(bounds, fps, AsWrittenSamples, 0).Some?
    ensures Marginal.DrawFailure(bounds, fps, 0).None? ==> LegacyDrawFailure(bounds, fps, AsWrittenSamples, 0) == Some(TypeError)
  {
    FloatCountFails(bounds, fps, 100000.0);
  }

  /** The integer default fails only where the draw itself does. */
  lemma DefaultSamplesDraw(bounds: seq<(int, int)>, fps: seq<int -> real>)
    ensures LegacyDrawFailure(bounds, fps, DefaultSamples, 0) == Marginal.DrawFailure(bounds, fps, 0)
  {
    IntCountDraws(bounds, fps, 100000, 0);
  }

  /** The per-dimension loop of `draw_from_analytical_joint`. */
  method LegacyDrawColumns(bounds: seq<(int, int)>, fps: seq<int -> real>, count: Count) returns (res: Result<seq<seq<int>>>)
    ensures LegacyDrawFailure(bounds, fps, count, 0).Some? <==> res.Err?
    ensures res.Err? ==> res.error == LegacyDrawFailure(bounds, fps, count, 0).value
    ensures res.Ok? && count.FloatCount? ==> bounds == [] && res.value == []
    ensures res.Ok? && count.IntCount? ==> |res.value| == |bounds|
    ensures res.Ok? && count.IntCount? ==> forall c :: 0 <= c < |bounds| ==>
      (|res.value[c]| == (if count.n > 0 then count.n else 0) &&
       forall k :: k in res.value[c] ==> bounds[c].0 <= k <= bounds[c].1)
  {
    if count.IntCount? {
      IntCountDraws(bounds, fps, count.n, 0);
      res := Marginal.DrawColumns(bounds, fps, count.n);
      return;
    }
    if bounds == [] {
      return Ok([]);
    }
    var lo, hi := bounds[0].0, bounds[0].1;
    if Marginal.Range(lo, hi + 1) == [] {
      return Err(IndexError);
    }
    if |fps| == 0 {
      return Err(IndexError);
    }
    var col := Marginal.DrawDimension(lo, hi, fps[0], 0);
    if col.Err? {
      return Err(col.error);
    }
    return Err(TypeError);
  }

  /** `draw_from_analytical_joint`: the first failing dimension's error,
      ValueError from `np.column_stack` when there are no dimensions, and
      otherwise (only with an integer count) that many tuples inside the
      inclusive bounds. */
  method LegacyDrawFromAnalyticalJoint(bounds: seq<(int, int)>, fps: seq<int -> real>, count: Count) returns (res: Result<seq<Row>>)
    ensures LegacyDrawFailure(bounds, fps, count, 0).Some? ==> res == Err(LegacyDrawFailure(bounds, fps, count, 0).value)
    ensures LegacyDrawFailure(bounds, fps, count, 0).None? && bounds == [] ==> res == Err(ValueError)
    ensures LegacyDrawFailure(bounds, fps, count, 0).None? && bounds != [] ==>
      count.IntCount? && res.Ok? && |res.value| == (if count.n > 0 then count.n else 0) &&
      forall r :: r in res.value ==> InBounds(r, bounds, true)
  {
    var cols := LegacyDrawColumns(bounds, fps, count);
    if cols.Err? {
      return Err(cols.error);
    }
    if cols.value == [] {
      return Err(ValueError);
    }
    var n: nat := if count.n > 0 then count.n else 0;
    Marginal.StackedInBox(bounds, cols.value, n);
    return Ok(Marginal.Stacked(cols.value, n));
  }

  /** `JDD_marginals`. */
  class LegacyMarginals {
    var jdd: Jdd
    const fps: seq<int -> real>
    const motifSizes: seq<int>
    const bounds: seq<(int, int)>
    const useSampling: bool
    const nSamples: Count

    constructor (fps: seq<int -> real>, motifSizes: seq<int>, bounds: seq<(int, int)>, useSampling: bool, nSamples: Count)
      ensures this.fps == fps && this.motifSizes == motifSizes && this.bounds == bounds
      ensures this.useSampling == useSampling && this.nSamples == nSamples && jdd == map[]
    {
      this.fps := fps;
      this.motifSizes := motifSizes;
      this.bounds := bounds;
      this.useSampling := useSampling;
      this.nSamples := nSamples;
      jdd := map[];
    }

    /** `create_jdd_directly`: the printed tuples of the half-open box
        entered with 0.0, each read back and evaluated, then normalised. */
    method CreateJddDirectly() returns (res: Result<()>)
      modifies this
      ensures var out := LegacyDirectOutcome(bounds, fps);
        (res.Ok? <==> out.Ok?) &&
        (res.Err? ==> res.error == out.error) &&
        (res.Ok? ==> jdd == out.value)
    {
      var rows := Marginal.AllJointDegrees(bounds);
      var w := EvaluateTexts(rows, fps);
      if w.Err? {
        return Err(w.error);
      }
      TupleWeightsAre(bounds, fps, w.value);
      jdd := w.value;
      var n := NormaliseJdd(jdd);
      if n.Err? {
        return Err(n.error);
      }
      jdd := n.value;
      return Ok(());
    }

    /** `create_jdd_by_sampling`: the drawn tuples, printed and counted. */
    method CreateJddBySampling() returns (res: Result<()>, ghost draw: seq<Row>)
      modifies this
      ensures LegacyDrawFailure(bounds, fps, nSamples, 0).Some? ==> res == Err(LegacyDrawFailure(bounds, fps, nSamples, 0).value)
      ensures LegacyDrawFailure(bounds, fps, nSamples, 0).None? && bounds == [] ==> res == Err(ValueError)
      ensures LegacyDrawFailure(bounds, fps, nSamples, 0).None? && bounds != [] ==>
        nSamples.IntCount? && res.Ok? && |draw| == (if nSamples.n > 0 then nSamples.n else 0) &&
        (forall r :: r in draw ==> InBounds(r, bounds, true)) &&
        jdd.Keys == TextsOf(draw) &&
        (forall r :: r in draw ==> jdd[TupleText(r)] == (multiset(draw)[r] as real) / (|draw| as real)) &&
        (draw != [] ==> EjkExtraction.Total(jdd) == 1.0)
    {
      draw := [];
      var rows := LegacyDrawFromAnalyticalJoint(bounds, fps, nSamples);
      if rows.Err? {
        return Err(rows.error), draw;
      }
      draw := rows.value;
      jdd := LegacyConvertJdsToJdd(rows.value);
      return Ok(()), draw;
    }
  }

  /** `JDD_marginals(arr_fp, motif_sizes, bounds, use_sampling=False,
      n_samples=...)` with the integer default count: the enumerated
      distribution, or the sampled one. */
  method NewLegacyMarginals(fps: seq<int -> real>, motifSizes: seq<int>, bounds: seq<(int, int)>, useSampling: Option<bool>, nSamples: Option<Count>)
    returns (res: Result<LegacyMarginals>, ghost draw: seq<Row>)
    ensures useSampling != Some(true) ==> var out := LegacyDirectOutcome(bounds, fps);
      (res.Ok? <==> out.Ok?) &&
      (res.Err? ==> res.error == out.error) &&
      (res.Ok? ==> fresh(res.value) && res.value.jdd == out.value)
    ensures useSampling == Some(true) ==>
      var count := if nSamples.Some? then nSamples.value else DefaultSamples;
      var fail := LegacyDrawFailure(bounds, fps, count, 0);
      (fail.Some? ==> res == Err(fail.value)) &&
      (fail.None? && bounds == [] ==> res == Err(ValueError)) &&
      (fail.None? && bounds != [] ==>
        res.Ok? && fresh(res.value) && |draw| == (if count.n > 0 then count.n else 0) &&
        (forall r :: r in draw ==> InBounds(r, bounds, true)) &&
        res.value.jdd.Keys == TextsOf(draw))
  {
    draw := [];
    var sampling := useSampling == Some(true);
    var count := if nSamples.Some? then nSamples.value else DefaultSamples;
    var model := new LegacyMarginals(fps, motifSizes, bounds, sampling, count);
    var r;
    if !sampling {
      r := model.CreateJddDirectly();
    } else {
      r, draw := model.CreateJddBySampling();
    }
    if r.Err? {
      return Err(r.error), draw;
    }
    return Ok(model), draw;
  }

  // ----- JDD_clique_cover -----

  /** `JDD_clique_cover`: the per-node joint degrees of the cover, printed as
      tuples and counted. */
  class LegacyCliqueCover {
    var jdd: Jdd
    const cover: CoverJointDegree.Cover
    const motifSizes: seq<int>

    /** The motif sizes are the cover's distinct clique sizes, ascending. */
    constructor (cover: CoverJointDegree.Cover)
      ensures this.cover == cover && motifSizes == CoverJointDegree.MotifSizes(cover) && jdd == map[]
    {
      this.cover := cover;
      motifSizes := CoverJointDegree.MotifSizes(cover);
      jdd := map[];
    }

    /** `create_jdd`: the joint degree of every node with the empty clique
        sizes' columns removed, each row's share of the nodes under its
        printed tuple. */
    method CreateJdd() returns (res: Result<()>)
      modifies this
      ensures res.Err? <==> CoverJointDegree.CoverJdsAsWritten(cover).Err?
      ensures res.Err? ==> res.error == CoverJointDegree.CoverJdsAsWritten(cover).error && jdd == old(jdd)
      ensures res.Ok? ==> var rows := CoverJointDegree.CoverJdsAsWritten(cover).value;
        jdd.Keys == TextsOf(rows) &&
        (forall r :: r in rows ==> jdd[TupleText(r)] == (multiset(rows)[r] as real) / (|rows| as real)) &&
        (rows != [] ==> EjkExtraction.Total(jdd) == 1.0)
    {
      var rows := CoverJointDegree.CliqueCoverJds(cover);
      if rows.Err? {
        return Err(rows.error);
      }
      jdd := LegacyConvertJdsToJdd(rows.value);
      return Ok(());
    }
  }

  /** `JDD_clique_cover(C)`. */
  method NewLegacyCliqueCover(cover: CoverJointDegree.Cover) returns (res: Result<LegacyCliqueCover>)
    ensures res.Err? <==> CoverJointDegree.CoverJdsAsWritten(cover).Err?
    ensures res.Err? ==> res.error == CoverJointDegree.CoverJdsAsWritten(cover).error
    ensures res.Ok? ==> var rows := CoverJointDegree.CoverJdsAsWritten(cover).value;
      fresh(res.value) && res.value.motifSizes == CoverJointDegree.MotifSizes(cover) &&
      res.value.jdd.Keys == TextsOf(rows) &&
      forall r :: r in rows ==> res.value.jdd[TupleText(r)] == (multiset(rows)[r] as real) / (|rows| as real)
  {
    var model := new LegacyCliqueCover(cover);
    var r := model.CreateJdd();
    if r.Err? {
      return Err(r.error);
    }
    return Ok(model);
  }
}
