// The marginal joint degree loader: independent per-topology marginals are
// merged into one distribution, either by enumerating every joint degree in
// the box of degree bounds (the Cartesian product of the ranges) or by
// drawing each coordinate from its marginal and counting the draws.
module Marginal {
  import opened Common
  import opened JointDegrees
  import EjkExtraction
  import SplitDegree

  // ----- ranges and their product -----

  /** `range(lo, hi)`. */
  function Range(lo: int, hi: int): (r: seq<int>)
    ensures |r| == if lo < hi then hi - lo else 0
    ensures forall t :: 0 <= t < |r| ==> r[t] == lo + t
    decreases hi - lo
  {
    if lo >= hi then [] else [lo] + Range(lo + 1, hi)
  }

  lemma RangeMembers(lo: int, hi: int)
    ensures forall k :: k in Range(lo, hi) <==> lo <= k < hi
  {
    var r := Range(lo, hi);
    forall k | lo <= k < hi ensures k in r {
      assert r[k - lo] == k;
    }
  }

  /** The range of each bound, half-open or with the upper end included. */
  function Ranges(bounds: seq<(int, int)>, inclusive: bool): (r: seq<seq<int>>)
    ensures |r| == |bounds|
    ensures forall i :: 0 <= i < |r| ==> r[i] == Range(bounds[i].0, if inclusive then bounds[i].1 + 1 else bounds[i].1)
  {
    seq(|bounds|, i requires 0 <= i < |bounds| => Range(bounds[i].0, if inclusive then bounds[i].1 + 1 else bounds[i].1))
  }

  /** Every tail with x in front. */
  function Cons(x: int, tails: seq<Row>): (r: seq<Row>)
    ensures |r| == |tails| && forall j :: 0 <= j < |r| ==> r[j] == [x] + tails[j]
  {
    seq(|tails|, j requires 0 <= j < |tails| => [x] + tails[j])
  }

  /** Each head in turn, followed by every tail. */
  function Prefixed(xs: seq<int>, tails: seq<Row>): seq<Row>
  {
    if xs == [] then [] else Cons(xs[0], tails) + Prefixed(xs[1..], tails)
  }

  /** `list(itertools.product(*ranges))`: the first factor varies slowest.
      The product of no factors is the single empty tuple. */
  function Product(ranges: seq<seq<int>>): seq<Row>
  {
    if ranges == [] then [[]] else Prefixed(ranges[0], Product(ranges[1..]))
  }

  /** The number of tuples: the product of the factor lengths. */
  function Card(ranges: seq<seq<int>>): nat
  {
    if ranges == [] then 1 else |ranges[0]| * Card(ranges[1..])
  }

  predicate InBox(row: Row, ranges: seq<seq<int>>)
  {
    |row| == |ranges| && forall i :: 0 <= i < |row| ==> row[i] in ranges[i]
  }

  lemma {:induction false} PrefixedMembers(xs: seq<int>, tails: seq<Row>)
    ensures forall r :: r in Prefixed(xs, tails) <==> |r| > 0 && r[0] in xs && r[1..] in tails
  {
    if xs != [] {
      PrefixedMembers(xs[1..], tails);
      forall r | |r| > 0 && r[0] in xs && r[1..] in tails ensures r in Prefixed(xs, tails) {
        if r[0] == xs[0] {
          var j :| 0 <= j < |tails| && tails[j] == r[1..];
          assert Cons(xs[0], tails)[j] == r;
        } else {
          assert r[0] in xs[1..];
        }
      }
      forall r | r in Prefixed(xs, tails) ensures |r| > 0 && r[0] in xs && r[1..] in tails {
        if r in Cons(xs[0], tails) {
          var j :| 0 <= j < |tails| && Cons(xs[0], tails)[j] == r;
          assert r[1..] == tails[j];
        }
      }
    }
  }

  lemma {:induction false} PrefixedCount(xs: seq<int>, tails: seq<Row>)
    ensures |Prefixed(xs, tails)| == |xs| * |tails|
  {
    if xs != [] {
      PrefixedCount(xs[1..], tails);
      assert |xs| * |tails| == |tails| + (|xs| - 1) * |tails|;
    }
  }

  /** A tuple is generated exactly when it has one coordinate per factor,
      each taken from its factor. */
  lemma {:induction false} ProductMembers(ranges: seq<seq<int>>)
    ensures forall r :: r in Product(ranges) <==> InBox(r, ranges)
  {
    if ranges != [] {
      ProductMembers(ranges[1..]);
      PrefixedMembers(ranges[0], Product(ranges[1..]));
      forall r ensures r in Product(ranges) <==> InBox(r, ranges) {
        if |r| > 0 {
          if InBox(r, ranges) {
            forall i | 0 <= i < |r[1..]| ensures r[1..][i] in ranges[1..][i] {
              assert r[i + 1] in ranges[i + 1];
            }
          }
          if InBox(r[1..], ranges[1..]) && r[0] in ranges[0] {
            forall i | 0 <= i < |r| ensures r[i] in ranges[i] {
              if i > 0 {
                assert r[1..][i - 1] in ranges[1..][i - 1];
              }
            }
          }
        }
      }
    }
  }

  /** There are as many tuples as the product of the factor lengths. */
  lemma {:induction false} ProductCount(ranges: seq<seq<int>>)
    ensures |Product(ranges)| == Card(ranges)
  {
    if ranges != [] {
      ProductCount(ranges[1..]);
      PrefixedCount(ranges[0], Product(ranges[1..]));
    }
  }

  // ----- lexicographic order -----

  /** Strict lexicographic order on tuples. */
  predicate LexLess(a: Row, b: Row)
  {
    |a| > 0 && |b| > 0 && (a[0] < b[0] || (a[0] == b[0] && LexLess(a[1..], b[1..])))
  }

  lemma {:induction false} LexIrreflexive(a: Row)
    ensures !LexLess(a, a)
  {
    if |a| > 0 {
      LexIrreflexive(a[1..]);
    }
  }

  predicate Ascending(rows: seq<Row>)
  {
    forall s, t :: 0 <= s < t < |rows| ==> LexLess(rows[s], rows[t])
  }

  predicate Increasing(xs: seq<int>)
  {
    forall s, t :: 0 <= s < t < |xs| ==> xs[s] < xs[t]
  }

  lemma ConsAscending(x: int, tails: seq<Row>)
    requires Ascending(tails)
    ensures Ascending(Cons(x, tails))
  {
    var c := Cons(x, tails);
    forall s, t | 0 <= s < t < |c| ensures LexLess(c[s], c[t]) {
      assert c[s][1..] == tails[s] && c[t][1..] == tails[t];
    }
  }

  lemma AscendingConcat(a: seq<Row>, b: seq<Row>)
    requires Ascending(a) && Ascending(b)
    requires forall x, y :: x in a && y in b ==> LexLess(x, y)
    ensures Ascending(a + b)
  {
    var ab := a + b;
    forall s, t | 0 <= s < t < |ab| ensures LexLess(ab[s], ab[t]) {
      if t < |a| {
        assert ab[s] == a[s] && ab[t] == a[t];
      } else if s >= |a| {
        assert ab[s] == b[s - |a|] && ab[t] == b[t - |a|];
      } else {
        assert ab[s] in a && ab[t] in b;
      }
    }
  }

  lemma {:induction false} PrefixedAscending(xs: seq<int>, tails: seq<Row>)
    requires Increasing(xs) && Ascending(tails)
    ensures Ascending(Prefixed(xs, tails))
  {
    if xs != [] {
      PrefixedAscending(xs[1..], tails);
      ConsAscending(xs[0], tails);
      PrefixedMembers(xs[1..], tails);
      forall x, y | x in Cons(xs[0], tails) && y in Prefixed(xs[1..], tails) ensures LexLess(x, y) {
        var j :| 0 <= j < |tails| && Cons(xs[0], tails)[j] == x;
        var i :| 0 <= i < |xs[1..]| && xs[1..][i] == y[0];
        assert xs[i + 1] == y[0];
      }
      AscendingConcat(Cons(xs[0], tails), Prefixed(xs[1..], tails));
    }
  }

  /** With increasing factors the tuples come out in strictly increasing
      lexicographic order. */
  lemma {:induction false} ProductAscending(ranges: seq<seq<int>>)
    requires forall i :: 0 <= i < |ranges| ==> Increasing(ranges[i])
    ensures Ascending(Product(ranges))
  {
    if ranges != [] {
      ProductAscending(ranges[1..]);
      PrefixedAscending(ranges[0], Product(ranges[1..]));
    }
  }

  /** The tuples generated from the degree bounds: exactly those with one
      coordinate per topology inside its bounds, as many as the product of
      the range lengths, ascending and so without repetition. */
  lemma AllJointDegreesMeaning(bounds: seq<(int, int)>, inclusive: bool)
    ensures var rows := Product(Ranges(bounds, inclusive));
      (forall r :: r in rows <==>
         |r| == |bounds| && forall i :: 0 <= i < |r| ==>
           bounds[i].0 <= r[i] && (if inclusive then r[i] <= bounds[i].1 else r[i] < bounds[i].1)) &&
      |rows| == Card(Ranges(bounds, inclusive)) &&
      Ascending(rows) && NoDuplicates(rows)
  {
    var ranges := Ranges(bounds, inclusive);
    var rows := Product(ranges);
    forall i | 0 <= i < |ranges| ensures Increasing(ranges[i]) && forall k :: k in ranges[i] <==> bounds[i].0 <= k && (if inclusive then k <= bounds[i].1 else k < bounds[i].1) {
      RangeMembers(bounds[i].0, if inclusive then bounds[i].1 + 1 else bounds[i].1);
    }
    ProductMembers(ranges);
    ProductCount(ranges);
    ProductAscending(ranges);
    forall s, t | 0 <= s < t < |rows| ensures rows[s] != rows[t] {
      LexIrreflexive(rows[s]);
    }
  }

  /** The generated tuples are those inside the half-open bounds. */
  lemma AllJointDegreesMembers(bounds: seq<(int, int)>)
    ensures forall r :: r in AllJointDegrees(bounds) <==>
      |r| == |bounds| && forall i :: 0 <= i < |r| ==> bounds[i].0 <= r[i] < bounds[i].1
  {
    AllJointDegreesMeaning(bounds, false);
  }

  /** `generate_all_joint_degrees`: half-open range(kmin, kmax) per topology. */
  function AllJointDegrees(bounds: seq<(int, int)>): seq<Row>
  {
    Product(Ranges(bounds, false))
  }

  // ----- evaluating a joint degree -----

  /** The product of the marginals at the coordinates of a joint degree. */
  function Joint(fps: seq<int -> real>, row: Row): real
    requires |row| <= |fps|
  {
    if row == [] then 1.0 else Joint(fps, row[..|row| - 1]) * fps[|row| - 1](row[|row| - 1])
  }

  /** `evaluate_prob_of_joint_degree`: the running product over the
      coordinates, failing with IndexError at a coordinate with no marginal. */
  method EvaluateProb(fps: seq<int -> real>, row: Row) returns (res: Result<real>)
    ensures |row| > |fps| <==> res.Err?
    ensures res.Err? ==> res.error == IndexError
    ensures res.Ok? ==> res.value == Joint(fps, row)
  {
    var prod := 1.0;
    for i := 0 to |row|
      invariant i <= |fps|
      invariant prod == Joint(fps, row[..i])
    {
      if i >= |fps| {
        return Err(IndexError);
      }
      assert row[..i + 1][..i] == row[..i];
      prod := prod * fps[i](row[i]);
    }
    assert row[..|row|] == row;
    return Ok(prod);
  }

  /** A joint degree of the marginals of independent coordinates: a row
      extended by one coordinate has its weight multiplied by that
      coordinate's marginal. */
  lemma JointExtend(fps: seq<int -> real>, row: Row, k: int)
    requires |row| < |fps|
    ensures Joint(fps, row + [k]) == Joint(fps, row) * fps[|row|](k)
  {
    var ext := row + [k];
    assert ext[..|ext| - 1] == row;
    assert ext[|ext| - 1] == k;
  }

  /** The distribution before normalising: every generated tuple weighted
      by the product of its marginals, or IndexError when some tuple has a
      coordinate with no marginal. */
  function DirectWeights(bounds: seq<(int, int)>, fps: seq<int -> real>): Result<map<Row, real>>
  {
    var rows := AllJointDegrees(bounds);
    if exists r :: r in rows && |r| > |fps| then Err(IndexError)
    else Ok(JointWeights(rows, fps))
  }

  /** Each tuple weighted by the product of its marginals. */
  function JointWeights(rows: seq<Row>, fps: seq<int -> real>): (w: map<Row, real>)
    requires forall r :: r in rows ==> |r| <= |fps|
    ensures forall r :: r in w <==> r in rows
    ensures forall r :: r in rows ==> w[r] == Joint(fps, r)
  {
    map r | r in rows :: Joint(fps, r)
  }

  /** The evaluation loop of `create_jdd_directly`: the weight of each
      entered tuple is replaced by the product of its marginals. */
  method EvaluateAll(rows: seq<Row>, fps: seq<int -> real>) returns (res: Result<map<Row, real>>)
    ensures res.Err? <==> exists r :: r in rows && |r| > |fps|
    ensures res.Err? ==> res.error == IndexError
    ensures res.Ok? ==> forall r :: r in res.value <==> r in rows
    ensures res.Ok? ==> forall r :: r in rows ==> |r| <= |fps| && res.value[r] == Joint(fps, r)
  {
    var m: map<Row, real> := map r | r in rows :: 0.0;
    for t := 0 to |rows|
      invariant forall r :: r in m <==> r in rows
      invariant forall s :: 0 <= s < t ==> |rows[s]| <= |fps| && m[rows[s]] == Joint(fps, rows[s])
    {
      var p := EvaluateProb(fps, rows[t]);
      if p.Err? {
        assert rows[t] in rows;
        return Err(IndexError);
      }
      m := m[rows[t] := p.value];
    }
    forall r | r in rows ensures |r| <= |fps| && m[r] == Joint(fps, r) {
      var s :| 0 <= s < |rows| && rows[s] == r;
    }
    return Ok(m);
  }

  lemma WeightsAre(bounds: seq<(int, int)>, fps: seq<int -> real>, m: map<Row, real>)
    requires forall r :: r in m <==> r in AllJointDegrees(bounds)
    requires forall r :: r in AllJointDegrees(bounds) ==> |r| <= |fps| && m[r] == Joint(fps, r)
    ensures DirectWeights(bounds, fps) == Ok(m)
  {
    var rows := AllJointDegrees(bounds);
    assert !exists r :: r in rows && |r| > |fps|;
    var w := JointWeights(rows, fps);
    assert m == w;
  }

  /** What `create_jdd_directly` leaves in `_jdd`. */
  ghost function DirectOutcome(bounds: seq<(int, int)>, fps: seq<int -> real>): Result<map<Row, real>>
  {
    match DirectWeights(bounds, fps)
    case Err(e) => Err(e)
    case Ok(w) => Normalised(w)
  }

  /** The direct distribution's keys are exactly the joint degrees inside the
      half-open bounds, so kmax itself never occurs; it fails with IndexError
      exactly when there is such a key and more topologies than marginals. */
  lemma DirectKeys(bounds: seq<(int, int)>, fps: seq<int -> real>)
    ensures DirectWeights(bounds, fps).Err? <==>
      |bounds| > |fps| && forall i :: 0 <= i < |bounds| ==> bounds[i].0 < bounds[i].1
    ensures DirectOutcome(bounds, fps).Ok? ==>
      forall r :: r in DirectOutcome(bounds, fps).value <==>
        |r| == |bounds| && forall i :: 0 <= i < |r| ==> bounds[i].0 <= r[i] < bounds[i].1
  {
    DirectFails(bounds, fps);
    if DirectOutcome(bounds, fps).Ok? {
      var w := DirectWeights(bounds, fps).value;
      assert DirectOutcome(bounds, fps) == Normalised(w);
      NormalisedKeys(w);
      DirectWeightKeys(bounds, fps);
    }
  }

  lemma DirectFails(bounds: seq<(int, int)>, fps: seq<int -> real>)
    ensures DirectWeights(bounds, fps).Err? <==>
      |bounds| > |fps| && forall i :: 0 <= i < |bounds| ==> bounds[i].0 < bounds[i].1
  {
    AllJointDegreesMembers(bounds);
    var rows := AllJointDegrees(bounds);
    if |bounds| > |fps| && forall i :: 0 <= i < |bounds| ==> bounds[i].0 < bounds[i].1 {
      var low := seq(|bounds|, i requires 0 <= i < |bounds| => bounds[i].0);
      assert low in rows;
    }
  }

  lemma DirectWeightKeys(bounds: seq<(int, int)>, fps: seq<int -> real>)
    requires DirectWeights(bounds, fps).Ok?
    ensures forall r :: r in DirectWeights(bounds, fps).value <==>
      |r| == |bounds| && forall i :: 0 <= i < |r| ==> bounds[i].0 <= r[i] < bounds[i].1
  {
    AllJointDegreesMembers(bounds);
  }

  // ----- drawing from the marginals -----

  /** The first dimension, from i on, whose draw fails: an empty inclusive
      range makes `random.choices` read the last of no cumulative weights
      (IndexError), a missing marginal is an IndexError, and a total weight
      that is not positive a ValueError. */
  function DrawFailure(bounds: seq<(int, int)>, fps: seq<int -> real>, i: nat): Option<Error>
    decreases |bounds| - i
  {
    if i >= |bounds| then None
    else
      var ks := Range(bounds[i].0, bounds[i].1 + 1);
      if ks == [] then Some(IndexError)
      else if i >= |fps| then Some(IndexError)
      else if SplitDegree.RealSum(Weights(ks, fps[i])) <= 0.0 then Some(ValueError)
      else DrawFailure(bounds, fps, i + 1)
  }

  /** `[f(k) for k in ks]` */
  function Weights(ks: seq<int>, f: int -> real): (w: seq<real>)
    ensures |w| == |ks| && forall t :: 0 <= t < |w| ==> w[t] == f(ks[t])
  {
    seq(|ks|, t requires 0 <= t < |ks| => f(ks[t]))
  }

  /** One dimension: the inclusive range of degrees, their weights summed
      in a loop as `random.choices` accumulates them, and n draws (none when
      n is not positive), each a degree of the range. */
  method DrawDimension(lo: int, hi: int, f: int -> real, n: int) returns (res: Result<seq<int>>)
    ensures var ks := Range(lo, hi + 1);
      (res.Err? <==> ks == [] || SplitDegree.RealSum(Weights(ks, f)) <= 0.0) &&
      (res.Err? ==> res.error == if ks == [] then IndexError else ValueError) &&
      (res.Ok? ==> |res.value| == (if n > 0 then n else 0) && forall k :: k in res.value ==> lo <= k <= hi)
  {
    var ks := Range(lo, hi + 1);
    var total := 0.0;
    for t := 0 to |ks|
      invariant total == SplitDegree.RealSum(Weights(ks[..t], f))
    {
      assert Weights(ks[..t + 1], f) == Weights(ks[..t], f) + [f(ks[t])];
      total := total + f(ks[t]);
    }
    assert ks[..|ks|] == ks;
    if ks == [] {
      return Err(IndexError);
    }
    if total <= 0.0 {
      return Err(ValueError);
    }
    RangeMembers(lo, hi + 1);
    assert ks[0] in ks;
    var draws: seq<int> := [];
    while |draws| < n
      invariant |draws| <= (if n > 0 then n else 0)
      invariant forall k :: k in draws ==> lo <= k <= hi
      decreases n - |draws|
    {
      var k :| k in ks;
      draws := draws + [k];
    }
    return Ok(draws);
  }

  /** `np.column_stack(ret).tolist()`: row j holds the j-th draw of every
      dimension. */
  function Stacked(cols: seq<seq<int>>, n: nat): (rows: seq<Row>)
    requires forall i :: 0 <= i < |cols| ==> |cols[i]| == n
    ensures |rows| == n && forall j :: 0 <= j < n ==> |rows[j]| == |cols| && forall i :: 0 <= i < |cols| ==> rows[j][i] == cols[i][j]
  {
    seq(n, j requires 0 <= j < n => seq(|cols|, i requires 0 <= i < |cols| => cols[i][j]))
  }

  /** The per-dimension loop of `draw_from_analytical_joint`: one column of
      draws per topology, or the first failing dimension's error. */
  method DrawColumns(bounds: seq<(int, int)>, fps: seq<int -> real>, n: int) returns (res: Result<seq<seq<int>>>)
    ensures DrawFailure(bounds, fps, 0).Some? <==> res.Err?
    ensures res.Err? ==> res.error == DrawFailure(bounds, fps, 0).value
    ensures res.Ok? ==> |res.value| == |bounds|
    ensures res.Ok? ==> forall c :: 0 <= c < |bounds| ==>
      (|res.value[c]| == (if n > 0 then n else 0) &&
       forall k :: k in res.value[c] ==> bounds[c].0 <= k <= bounds[c].1)
  {
    var cols: seq<seq<int>> := [];
    for i := 0 to |bounds|
      invariant |cols| == i
      invariant DrawFailure(bounds, fps, 0) == DrawFailure(bounds, fps, i)
      invariant forall c :: 0 <= c < i ==>
        (|cols[c]| == (if n > 0 then n else 0) &&
         forall k :: k in cols[c] ==> bounds[c].0 <= k <= bounds[c].1)
    {
      var lo, hi := bounds[i].0, bounds[i].1;
      if Range(lo, hi + 1) == [] {
        return Err(IndexError);
      }
      if i >= |fps| {
        return Err(IndexError);
      }
      var col := DrawDimension(lo, hi, fps[i], n);
      if col.Err? {
        return Err(col.error);
      }
      cols := cols + [col.value];
    }
    return Ok(cols);
  }

  /** Stacking columns that keep to their bounds gives rows that do. */
  lemma StackedInBox(bounds: seq<(int, int)>, cols: seq<seq<int>>, n: nat)
    requires |cols| == |bounds|
    requires forall c :: 0 <= c < |bounds| ==>
      (|cols[c]| == n && forall k :: k in cols[c] ==> bounds[c].0 <= k <= bounds[c].1)
    ensures forall r :: r in Stacked(cols, n) ==>
      |r| == |bounds| && forall i :: 0 <= i < |r| ==> bounds[i].0 <= r[i] <= bounds[i].1
  {
    var rows := Stacked(cols, n);
    forall r | r in rows ensures |r| == |bounds| && forall i :: 0 <= i < |r| ==> bounds[i].0 <= r[i] <= bounds[i].1 {
      var j :| 0 <= j < |rows| && rows[j] == r;
      forall i | 0 <= i < |r| ensures bounds[i].0 <= r[i] <= bounds[i].1 {
        assert r[i] == cols[i][j] && cols[i][j] in cols[i];
      }
    }
  }

  /** `draw_from_analytical_joint`: the first failing dimension's error;
      with no dimensions at all `np.column_stack` of nothing raises
      ValueError; otherwise n tuples (none when n is not positive), one
      coordinate per topology, each inside its inclusive bounds. */
  method DrawFromAnalyticalJoint(bounds: seq<(int, int)>, fps: seq<int -> real>, n: int) returns (res: Result<seq<Row>>)
    ensures DrawFailure(bounds, fps, 0).Some? ==> res == Err(DrawFailure(bounds, fps, 0).value)
    ensures DrawFailure(bounds, fps, 0).None? && bounds == [] ==> res == Err(ValueError)
    ensures DrawFailure(bounds, fps, 0).None? && bounds != [] ==>
      res.Ok? && |res.value| == (if n > 0 then n else 0) &&
      forall r :: r in res.value ==>
        |r| == |bounds| && forall i :: 0 <= i < |r| ==> bounds[i].0 <= r[i] <= bounds[i].1
  {
    var cols := DrawColumns(bounds, fps, n);
    if cols.Err? {
      return Err(cols.error);
    }
    if cols.value == [] {
      return Err(ValueError);
    }
    var count: nat := if n > 0 then n else 0;
    StackedInBox(bounds, cols.value, count);
    return Ok(Stacked(cols.value, count));
  }

  // ----- the loader -----

  /** The parameters; the first three are required. */
  datatype MarginalParams = MarginalParams(
    motifSizes: Option<seq<int>>, fps: Option<seq<int -> real>>, bounds: Option<seq<(int, int)>>,
    useSampling: Option<bool>, nSamples: Option<int>)

  class MarginalLoader {
    /** `_jdd`; None while the attribute has never been assigned. */
    var jdd: Option<map<Row, real>>
    const motifSizes: seq<int>
    const fps: seq<int -> real>
    const bounds: seq<(int, int)>
    const useSampling: bool
    const nSamples: int

    constructor (motifSizes: seq<int>, fps: seq<int -> real>, bounds: seq<(int, int)>, useSampling: bool, nSamples: int)
      ensures this.motifSizes == motifSizes && this.fps == fps && this.bounds == bounds
      ensures this.useSampling == useSampling && this.nSamples == nSamples && jdd == None
    {
      this.motifSizes := motifSizes;
      this.fps := fps;
      this.bounds := bounds;
      this.useSampling := useSampling;
      this.nSamples := nSamples;
      jdd := None;
    }

    /** `create_jdd_directly`: every generated tuple is entered with weight
        0.0, then each is evaluated in turn, then the whole is normalised. */
    method CreateJddDirectly() returns (res: Result<()>)
      modifies this
      ensures var out := DirectOutcome(bounds, fps);
        (res.Ok? <==> out.Ok?) &&
        (res.Err? ==> res.error == out.error) &&
        (res.Ok? ==> jdd == Some(out.value))
    {
      var rows := AllJointDegrees(bounds);
      jdd := Some(map r | r in rows :: 0.0);
      var w := EvaluateAll(rows, fps);
      if w.Err? {
        return Err(w.error);
      }
      WeightsAre(bounds, fps, w.value);
      jdd := Some(w.value);
      var n := NormaliseJdd(w.value);
      if n.Err? {
        return Err(n.error);
      }
      jdd := Some(n.value);
      return Ok(());
    }

    /** `create_jdd_by_sampling`: the drawn tuples, counted. */
    method CreateJddBySampling() returns (res: Result<()>, ghost draw: seq<Row>)
      modifies this
      ensures DrawFailure(bounds, fps, 0).Some? ==> res == Err(DrawFailure(bounds, fps, 0).value)
      ensures DrawFailure(bounds, fps, 0).None? && bounds == [] ==> res == Err(ValueError)
      ensures DrawFailure(bounds, fps, 0).None? && bounds != [] ==>
        res.Ok? && |draw| == (if nSamples > 0 then nSamples else 0) &&
        (forall r :: r in draw ==>
          |r| == |bounds| && forall i :: 0 <= i < |r| ==> bounds[i].0 <= r[i] <= bounds[i].1) &&
        jdd.Some? && jdd.value.Keys == (set r | r in draw) &&
        (draw != [] ==> jdd.value == EjkExtraction.Spread(multiset(draw), |draw| as real))
    {
      var rows := DrawFromAnalyticalJoint(bounds, fps, nSamples);
      draw := [];
      if rows.Err? {
        return Err(rows.error), draw;
      }
      draw := rows.value;
      var m := ConvertJdsToJdd(rows.value);
      jdd := Some(m);
      return Ok(()), draw;
    }

    /** `create_jdd`: sampling only when asked for. */
    method CreateJdd() returns (res: Result<()>, ghost draw: seq<Row>)
      modifies this
      ensures !useSampling ==> var out := DirectOutcome(bounds, fps);
        (res.Ok? <==> out.Ok?) &&
        (res.Err? ==> res.error == out.error) &&
        (res.Ok? ==> jdd == Some(out.value))
      ensures useSampling && DrawFailure(bounds, fps, 0).Some? ==> res == Err(DrawFailure(bounds, fps, 0).value)
      ensures useSampling && DrawFailure(bounds, fps, 0).None? && bounds == [] ==> res == Err(ValueError)
      ensures useSampling && DrawFailure(bounds, fps, 0).None? && bounds != [] ==>
        res.Ok? && |draw| == (if nSamples > 0 then nSamples else 0) &&
        (forall r :: r in draw ==>
          |r| == |bounds| && forall i :: 0 <= i < |r| ==> bounds[i].0 <= r[i] <= bounds[i].1) &&
        jdd.Some? && jdd.value.Keys == (set r | r in draw)
    {
      draw := [];
      if !useSampling {
        res := CreateJddDirectly();
      } else {
        res, draw := CreateJddBySampling();
      }
    }
  }

  /** `JointDegreeMarginal(params)`: a missing required key is re-raised as
      a plain string, which Python turns into a TypeError; sampling defaults
      to off and the sample count to 100000; then the distribution is built. */
  method NewMarginal(params: MarginalParams) returns (res: Result<MarginalLoader>, ghost draw: seq<Row>)
    ensures params.motifSizes.None? || params.fps.None? || params.bounds.None? ==> res == Err(TypeError)
    ensures params.motifSizes.Some? && params.fps.Some? && params.bounds.Some? ==>
      var useSampling := if params.useSampling.Some? then params.useSampling.value else false;
      var nSamples := if params.nSamples.Some? then params.nSamples.value else 100000;
      var bounds, fps := params.bounds.value, params.fps.value;
      (res.Ok? ==> fresh(res.value) && res.value.useSampling == useSampling && res.value.nSamples == nSamples
                   && res.value.motifSizes == params.motifSizes.value) &&
      (!useSampling ==> var out := DirectOutcome(bounds, fps);
         (res.Ok? <==> out.Ok?) && (res.Err? ==> res.error == out.error) &&
         (res.Ok? ==> res.value.jdd == Some(out.value))) &&
      (useSampling ==>
         (DrawFailure(bounds, fps, 0).Some? ==> res == Err(DrawFailure(bounds, fps, 0).value)) &&
         (DrawFailure(bounds, fps, 0).None? && bounds == [] ==> res == Err(ValueError)) &&
         (DrawFailure(bounds, fps, 0).None? && bounds != [] ==>
            res.Ok? && |draw| == (if nSamples > 0 then nSamples else 0) &&
            res.value.jdd.Some? && res.value.jdd.value.Keys == (set r | r in draw) &&
            forall r :: r in draw ==>
              |r| == |bounds| && forall i :: 0 <= i < |r| ==> bounds[i].0 <= r[i] <= bounds[i].1))
  {
    draw := [];
    if params.motifSizes.None? || params.fps.None? || params.bounds.None? {
      return Err(TypeError), draw;
    }
    var useSampling := if params.useSampling.Some? then params.useSampling.value else false;
    var nSamples := if params.nSamples.Some? then params.nSamples.value else 100000;
    var loader := new MarginalLoader(params.motifSizes.value, params.fps.value, params.bounds.value, useSampling, nSamples);
    var r;
    r, draw := loader.CreateJdd();
    if r.Err? {
      return Err(r.error), draw;
    }
    return Ok(loader), draw;
  }
}
