// The joint degree distribution base class. A distribution (jdd) maps joint
// degrees, one motif count per topology, to weights. The base class refuses
// direct instantiation, samples joint degree sequences (jds) from a
// distribution, corrects a sequence so that every column total is a multiple
// of its motif size (the handshaking lemma), normalises weights and turns a
// sequence back into a distribution of sample frequencies. Python's floats
// are modelled as reals.

module JointDegrees {
  import opened Common
  import Stubs
  import EjkExtraction

  /** A joint degree: one motif count per topology, as a distribution's key
      or a sequence's row holds it. */
  type Row = seq<int>

  /** The loader classes; `Abstract` is JointDegree itself. */
  datatype Kind = Abstract | SplitDegree | Delta | Cover | Marginal | Manual | Empirical | Function

  /** `JointDegree.__new__`: the abstract base raises TypeError, every
      subclass gets its instance. */
  function New(kind: Kind): (r: Result<Kind>)
    ensures r.Err? <==> kind == Abstract
    ensures r.Err? ==> r.error == TypeError
    ensures r.Ok? ==> r.value == kind
  {
    if kind == Abstract then Err(TypeError) else Ok(kind)
  }

  // ----- column totals -----

  /** The total of column c, `sum` of one tuple `zip(*jds)` yields. */
  function ColumnTotal(rows: seq<Row>, c: nat): int
    requires Stubs.HasColumn(rows, c)
  {
    if rows == [] then 0
    else
      var init := rows[..|rows| - 1];
      assert Stubs.HasColumn(init, c) by {
        forall n | 0 <= n < |init| ensures c < |init[n]| {
          assert init[n] == rows[n];
        }
      }
      ColumnTotal(init, c) + rows[|rows| - 1][c]
  }

  /** `list(map(sum, zip(*jds)))`: the totals of all columns, computed once. */
  function Totals(rows: seq<Row>): (t: seq<int>)
    ensures |t| == Stubs.Columns(rows)
    ensures forall c :: 0 <= c < |t| ==> Stubs.HasColumn(rows, c) && t[c] == ColumnTotal(rows, c)
  {
    seq(Stubs.Columns(rows), c requires 0 <= c < Stubs.Columns(rows) => ColumnTotal(rows, c))
  }

  /** On rows of counts the column total is the stub count the generators
      cut into motifs. */
  lemma {:induction false} ColumnTotalAgrees(jds: Stubs.Jds, c: nat)
    requires Stubs.HasColumn(jds, c)
    ensures ColumnTotal(jds, c) == Stubs.ColumnSum(jds, c)
    decreases |jds|
  {
    if jds != [] {
      var init := jds[..|jds| - 1];
      assert Stubs.HasColumn(init, c) by {
        forall n | 0 <= n < |init| ensures c < |init[n]| {
          assert init[n] == jds[n];
        }
      }
      ColumnTotalAgrees(init, c);
    }
  }

  /** `t = list(jds[j]); t[i] += 1; jds[j] = t` */
  function Bump(rows: seq<Row>, j: nat, i: nat): seq<Row>
    requires j < |rows| && i < |rows[j]|
  {
    rows[j := rows[j][i := rows[j][i] + 1]]
  }

  /** One increment at column i adds one to column i's total and nothing to
      any other column's. */
  lemma {:induction false} ColumnTotalBump(rows: seq<Row>, j: nat, i: nat, c: nat)
    requires j < |rows| && i < |rows[j]| && Stubs.HasColumn(rows, c)
    ensures Stubs.HasColumn(Bump(rows, j, i), c)
    ensures ColumnTotal(Bump(rows, j, i), c) == ColumnTotal(rows, c) + (if c == i then 1 else 0)
    decreases |rows|
  {
    var rows' := Bump(rows, j, i);
    assert Stubs.HasColumn(rows', c) by {
      forall n | 0 <= n < |rows'| ensures c < |rows'[n]| {
        assert |rows'[n]| == |rows[n]|;
      }
    }
    var init, init' := rows[..|rows| - 1], rows'[..|rows| - 1];
    assert Stubs.HasColumn(init, c) by {
      forall n | 0 <= n < |init| ensures c < |init[n]| {
        assert init[n] == rows[n];
      }
    }
    if j == |rows| - 1 {
      assert init' == init;
    } else {
      assert init' == Bump(init, j, i);
      ColumnTotalBump(init, j, i, c);
    }
  }

  // ----- the handshaking lemma -----

  /** The number of unit increments a column with total s and motif size m
      receives: `m - s % m` when the remainder is non-zero. Python's `%`
      takes the sign of the divisor, so for m < 0 the count `m - s % m` is
      negative and its range is empty. */
  function Deficit(s: int, m: int): (d: nat)
    requires m != 0
  {
    if m > 0 && s % m != 0 then m - s % m else 0
  }

  /** The deficit increments make the total a multiple of m. */
  lemma DeficitCompletes(s: int, m: int)
    requires m > 0
    ensures (s + Deficit(s, m)) % m == 0
    ensures Deficit(s, m) < m
  {
    var q, r := s / m, s % m;
    if r != 0 {
      assert (q + 1) * m == q * m + m;
      DivModUnique(s + (m - r), m, q + 1, 0);
    }
  }

  /** Fewer increments than the deficit leave a remainder: the deficit is
      the least count that completes the column. */
  lemma DeficitLeast(s: int, m: int, d: int)
    requires m > 0 && 0 <= d < Deficit(s, m)
    ensures (s + d) % m != 0
  {
    DivModUnique(s + d, m, s / m, s % m + d);
  }

  /** Column c stops the correction: `motif_sizes[c]` is missing
      (IndexError) or zero (ZeroDivisionError). */
  predicate Aborts(ms: seq<int>, c: nat)
  {
    c >= |ms| || ms[c] == 0
  }

  /** The columns below upto have a motif size, and none is zero. */
  predicate Sized(ms: seq<int>, upto: nat)
  {
    upto <= |ms| && forall c :: 0 <= c < upto ==> ms[c] != 0
  }

  /** The first column from c on, below n, that stops the correction; n if
      none does. */
  function FirstAbort(ms: seq<int>, c: nat, n: nat): (b: nat)
    requires c <= n && Sized(ms, c)
    ensures c <= b <= n && Sized(ms, b)
    ensures b < n ==> Aborts(ms, b)
    decreases n - c
  {
    if c == n || Aborts(ms, c) then c else FirstAbort(ms, c + 1, n)
  }

  /** The correction stops exactly at the first column that aborts. */
  lemma FirstAbortAt(ms: seq<int>, n: nat, i: nat)
    requires i <= n && Sized(ms, i) && (i < n ==> Aborts(ms, i))
    ensures FirstAbort(ms, 0, n) == i
  {
  }

  /** Same number of rows, each of its old length. */
  predicate Shaped(rows0: seq<Row>, rows: seq<Row>)
  {
    |rows| == |rows0| && forall n :: 0 <= n < |rows| ==> |rows[n]| == |rows0[n]|
  }

  /** rows is rows0 after the columns below `upto` were corrected: those
      columns only grew, each total by exactly its deficit, and every other
      entry is as it was. */
  predicate Corrected(rows0: seq<Row>, rows: seq<Row>, ms: seq<int>, upto: nat)
    requires upto <= Stubs.Columns(rows0)
    requires Sized(ms, upto)
  {
    Shaped(rows0, rows)
    && (forall n, c :: 0 <= n < |rows| && upto <= c < |rows[n]| ==> rows[n][c] == rows0[n][c])
    && (forall n, c :: 0 <= n < |rows| && 0 <= c < upto ==> rows0[n][c] <= rows[n][c])
    && forall c :: 0 <= c < upto ==>
         ColumnTotal(rows, c) == ColumnTotal(rows0, c) + Deficit(ColumnTotal(rows0, c), ms[c])
  }

  /** Afterwards every corrected column with a positive motif size has a
      total divisible by it: the handshaking lemma holds there. */
  lemma CorrectedDivisible(rows0: seq<Row>, rows: seq<Row>, ms: seq<int>, upto: nat)
    requires upto <= Stubs.Columns(rows0)
    requires Sized(ms, upto)
    requires Corrected(rows0, rows, ms, upto)
    ensures forall c :: 0 <= c < upto && ms[c] > 0 ==>
              Stubs.HasColumn(rows, c) && ColumnTotal(rows, c) % ms[c] == 0
  {
    forall c | 0 <= c < upto && ms[c] > 0
      ensures Stubs.HasColumn(rows, c) && ColumnTotal(rows, c) % ms[c] == 0
    {
      DeficitCompletes(ColumnTotal(rows0, c), ms[c]);
    }
  }

  /** rows is rows0 after t increments at column i. */
  predicate Bumped(rows0: seq<Row>, rows: seq<Row>, i: nat, t: nat)
    requires i < Stubs.Columns(rows0)
  {
    Shaped(rows0, rows)
    && (forall n, c :: 0 <= n < |rows| && 0 <= c < |rows[n]| && c != i ==> rows[n][c] == rows0[n][c])
    && (forall n :: 0 <= n < |rows| ==> rows0[n][i] <= rows[n][i])
    && forall c :: 0 <= c < Stubs.Columns(rows0) ==>
         ColumnTotal(rows, c) == ColumnTotal(rows0, c) + (if c == i then t else 0)
  }

  lemma BumpStep(rows0: seq<Row>, rows: seq<Row>, i: nat, t: nat, j: nat)
    requires i < Stubs.Columns(rows0) && Bumped(rows0, rows, i, t) && j < |rows|
    ensures i < |rows[j]| && Bumped(rows0, Bump(rows, j, i), i, t + 1)
  {
    forall c | 0 <= c < Stubs.Columns(rows0)
      ensures ColumnTotal(Bump(rows, j, i), c) == ColumnTotal(rows0, c) + (if c == i then t + 1 else 0)
    {
      ColumnTotalBump(rows, j, i, c);
    }
  }

  /** Adds d increments to column i, each at a row `random.randrange`
      picks. */
  method FixColumn(jds: array<Row>, i: nat, d: nat)
    requires i < Stubs.Columns(jds[..])
    modifies jds
    ensures Bumped(old(jds[..]), jds[..], i, d)
  {
    ghost var rows0 := jds[..];
    var t := 0;
    while t < d
      invariant t <= d && Bumped(rows0, jds[..], i, t)
    {
      var j :| 0 <= j < jds.Length;
      BumpStep(rows0, jds[..], i, t, j);
      assert jds[..][j := jds[j][i := jds[j][i] + 1]] == Bump(jds[..], j, i);
      jds[j] := jds[j][i := jds[j][i] + 1];
      t := t + 1;
    }
  }

  /** Column i, still at its starting total s, receives its deficit:
      columns up to i are then corrected and later columns keep their
      starting totals. */
  lemma CorrectedStep(rows0: seq<Row>, rows: seq<Row>, rows': seq<Row>, ms: seq<int>, i: nat)
    requires i < Stubs.Columns(rows0) && Sized(ms, i + 1)
    requires Corrected(rows0, rows, ms, i)
    requires Stubs.HasColumn(rows, i) && ColumnTotal(rows, i) == ColumnTotal(rows0, i)
    requires forall c :: i < c < Stubs.Columns(rows0) ==> Stubs.HasColumn(rows, c) && ColumnTotal(rows, c) == ColumnTotal(rows0, c)
    requires i < Stubs.Columns(rows) && Bumped(rows, rows', i, Deficit(ColumnTotal(rows0, i), ms[i]))
    ensures Corrected(rows0, rows', ms, i + 1)
    ensures forall c :: i + 1 <= c < Stubs.Columns(rows0) ==>
              Stubs.HasColumn(rows', c) && ColumnTotal(rows', c) == ColumnTotal(rows0, c)
  {
  }

  /** The rows keep their count; columns are fixed left to right until one
      stops the correction. */
  method HandshakingLemma(jds: array<Row>, motifSizes: seq<int>) returns (res: Result<seq<Row>>)
    modifies jds
    ensures var n := Stubs.Columns(old(jds[..]));
            var b := FirstAbort(motifSizes, 0, n);
            Corrected(old(jds[..]), jds[..], motifSizes, b)
            && (res.Ok? <==> b == n)
            && (res.Ok? ==> res.value == jds[..])
            && (res.Err? ==> res.error == if b < |motifSizes| then ZeroDivisionError else IndexError)
  {
    ghost var rows0 := jds[..];
    var n := Stubs.Columns(jds[..]);
    var ntops := Totals(jds[..]);
    var i := 0;
    while i < n
      invariant i <= n == Stubs.Columns(rows0) && ntops == Totals(rows0)
      invariant Sized(motifSizes, i)
      invariant Corrected(rows0, jds[..], motifSizes, i)
      invariant forall c :: i <= c < n ==> Stubs.HasColumn(jds[..], c) && ColumnTotal(jds[..], c) == ntops[c]
    {
      if i >= |motifSizes| {
        FirstAbortAt(motifSizes, n, i);
        return Err(IndexError);
      }
      if motifSizes[i] == 0 {
        FirstAbortAt(motifSizes, n, i);
        return Err(ZeroDivisionError);
      }
      ghost var rows := jds[..];
      FixColumn(jds, i, Deficit(ntops[i], motifSizes[i]));
      CorrectedStep(rows0, rows, jds[..], motifSizes, i);
      i := i + 1;
    }
    FirstAbortAt(motifSizes, n, i);
    return Ok(jds[..]);
  }

  // ----- weights -----

  /** `sum(jdd.values())`, in any order since the weights are reals. */
  method SumValues<K>(m: map<K, real>) returns (t: real)
    ensures t == EjkExtraction.Total(m)
  {
    t := 0.0;
    var rest := m;
    while rest != map[]
      invariant t + EjkExtraction.Total(rest) == EjkExtraction.Total(m)
      decreases |rest.Keys|
    {
      var k :| k in rest;
      EjkExtraction.TotalRemove(rest, k);
      assert (rest - {k}).Keys == rest.Keys - {k};
      t := t + rest[k];
      rest := rest - {k};
    }
    EjkExtraction.TotalEmpty(rest);
  }

  /** Every weight divided by t. */
  function Scaled<K>(m: map<K, real>, t: real): (r: map<K, real>)
    requires t != 0.0
    ensures r.Keys == m.Keys
  {
    map k | k in m :: m[k] / t
  }

  lemma ScaledRemove<K>(m: map<K, real>, t: real, k: K)
    requires t != 0.0
    ensures Scaled(m, t) - {k} == Scaled(m - {k}, t)
  {
  }

  lemma DivSum(x: real, a: real, b: real, y: real, t: real)
    requires t != 0.0 && x == a / t + b / t && y == a + b
    ensures x == y / t
  {
  }

  lemma TotalScaledStep<K>(m: map<K, real>, t: real, k: K)
    requires t != 0.0 && k in m
    requires EjkExtraction.Total(Scaled(m - {k}, t)) == EjkExtraction.Total(m - {k}) / t
    ensures EjkExtraction.Total(Scaled(m, t)) == EjkExtraction.Total(m) / t
  {
    var rest := EjkExtraction.Total(m - {k});
    var s := Scaled(m, t);
    EjkExtraction.TotalRemove(m, k);
    EjkExtraction.TotalRemove(s, k);
    ScaledRemove(m, t, k);
    assert s[k] == m[k] / t;
    DivSum(EjkExtraction.Total(s), m[k], rest, EjkExtraction.Total(m), t);
  }

  lemma TotalScaledEmpty<K>(m: map<K, real>, t: real)
    requires t != 0.0 && m == map[]
    ensures EjkExtraction.Total(Scaled(m, t)) == EjkExtraction.Total(m) / t
  {
    EjkExtraction.TotalEmpty(m);
    assert Scaled(m, t) == map[];
    EjkExtraction.TotalEmpty(Scaled(m, t));
  }

  lemma {:induction false} TotalScaled<K>(m: map<K, real>, t: real)
    requires t != 0.0
    ensures EjkExtraction.Total(Scaled(m, t)) == EjkExtraction.Total(m) / t
    decreases |m.Keys|
  {
    if m == map[] {
      TotalScaledEmpty(m, t);
    } else {
      var k :| k in m;
      assert |(m - {k}).Keys| < |m.Keys| by {
        assert (m - {k}).Keys == m.Keys - {k};
      }
      TotalScaled(m - {k}, t);
      TotalScaledStep(m, t, k);
    }
  }

  /** What `normalise_jdd` leaves behind, for the loaders to state their
      outcome with. */
  ghost function Normalised<K>(jdd: map<K, real>): Result<map<K, real>>
  {
    if jdd == map[] then Ok(jdd)
    else if EjkExtraction.Total(jdd) == 0.0 then Err(ZeroDivisionError)
    else Ok(Scaled(jdd, EjkExtraction.Total(jdd)))
  }

  lemma NormalisedKeys<K>(jdd: map<K, real>)
    requires Normalised(jdd).Ok?
    ensures Normalised(jdd).value.Keys == jdd.Keys
  {
  }

  /** `normalise_jdd`: every weight is divided by the sum of the weights, so
      the keys stay and the weights then add up to one. Dividing by a zero
      sum raises ZeroDivisionError; an empty distribution divides nothing. */
  method NormaliseJdd<K>(jdd: map<K, real>) returns (res: Result<map<K, real>>)
    ensures res == Normalised(jdd)
  {
    var total := SumValues(jdd);
    if jdd == map[] {
      return Ok(jdd);
    }
    if total == 0.0 {
      return Err(ZeroDivisionError);
    }
    return Ok(Scaled(jdd, total));
  }

  /** Normalising keeps the keys and divides each weight by the sum, so the
      weights then add up to one; only a non-empty distribution of zero sum
      fails, with ZeroDivisionError. */
  lemma NormalisedMeaning<K>(jdd: map<K, real>)
    ensures var res := Normalised(jdd);
      (res.Err? <==> jdd != map[] && EjkExtraction.Total(jdd) == 0.0)
      && (res.Err? ==> res.error == ZeroDivisionError)
      && (res.Ok? ==> res.value.Keys == jdd.Keys)
      && (res.Ok? ==> forall k :: k in jdd ==> res.value[k] * EjkExtraction.Total(jdd) == jdd[k])
      && (res.Ok? && jdd != map[] ==> EjkExtraction.Total(res.value) == 1.0)
  {
    if jdd != map[] && EjkExtraction.Total(jdd) != 0.0 {
      TotalScaled(jdd, EjkExtraction.Total(jdd));
    }
  }

  /** `convert_jds_to_jdd`: each distinct entry weighted by the fraction of
      the sequence it makes up (`Counter`, then count over length). An empty
      sequence gives an empty distribution and divides nothing. */
  method ConvertJdsToJdd<K>(jds: seq<K>) returns (jdd: map<K, real>)
    ensures jdd.Keys == set r | r in jds
    ensures jds != [] ==> jdd == EjkExtraction.Spread(multiset(jds), |jds| as real)
    ensures jds != [] ==> EjkExtraction.Total(jdd) == 1.0
  {
    var counts: map<K, nat> := map[];
    var i := 0;
    while i < |jds|
      invariant i <= |jds|
      invariant counts == map r | r in multiset(jds[..i]) :: multiset(jds[..i])[r]
    {
      assert jds[..i + 1] == jds[..i] + [jds[i]];
      counts := counts[jds[i] := if jds[i] in counts then counts[jds[i]] + 1 else 1];
      i := i + 1;
    }
    assert jds[..i] == jds;
    if jds == [] {
      return map[];
    }
    jdd := map r | r in counts :: (counts[r] as real) / (|jds| as real);
    EjkExtraction.SpreadTotalOne(multiset(jds), |jds| as real);
  }

  // ----- sampling -----

  /** `sample_jds_from_jdd(N)`: `random.choices` draws N keys (none for
      N <= 0) with replacement, then the handshaking lemma corrects them.
      `random.choices` fails on an empty population (IndexError, reading the
      last cumulative weight) and on a non-positive total weight
      (ValueError). The draw is the sequence before the correction. */
  method SampleJds(jdd: map<Row, real>, motifSizes: seq<int>, n: int) returns (res: Result<seq<Row>>, ghost draw: seq<Row>)
    ensures jdd == map[] ==> res == Err(IndexError)
    ensures jdd != map[] && EjkExtraction.Total(jdd) <= 0.0 ==> res == Err(ValueError)
    ensures jdd != map[] && EjkExtraction.Total(jdd) > 0.0 ==>
              |draw| == (if n > 0 then n else 0)
              && (forall r :: r in draw ==> r in jdd)
              && var b := FirstAbort(motifSizes, 0, Stubs.Columns(draw));
                 (res.Ok? <==> b == Stubs.Columns(draw))
                 && (res.Err? ==> res.error == if b < |motifSizes| then ZeroDivisionError else IndexError)
                 && (res.Ok? ==> Corrected(draw, res.value, motifSizes, b))
  {
    if jdd == map[] {
      return Err(IndexError), [];
    }
    var total := SumValues(jdd);
    if total <= 0.0 {
      return Err(ValueError), [];
    }
    var rows: seq<Row> := [];
    while |rows| < n
      invariant forall r :: r in rows ==> r in jdd
      invariant |rows| <= (if n > 0 then n else 0)
      decreases n - |rows|
    {
      var key :| key in jdd;
      rows := rows + [key];
    }
    draw := rows;
    var a := new Row[|rows|](k requires 0 <= k < |rows| => rows[k]);
    assert a[..] == rows;
    res := HandshakingLemma(a, motifSizes);
  }
}
