// The first version of the joint degree distributions. A distribution maps
// the text of a joint degree, `str` of a tuple or of a list, to its weight;
// sampling reads the texts back with `ast.literal_eval`. The split-degree
// model resolves every degree of its range into the same dict without
// clearing it.

module LegacyJdd {
  import opened Common
  import opened JointDegrees
  import opened PyText
  import SplitDegree
  import EjkExtraction
  import Stubs

  /** `_JDD`: joint degree texts to weights. */
  type Jdd = map<string, real>

  // ----- key texts -----

  lemma IntsInjective(a: seq<int>, b: seq<int>)
    requires Ints(a) == Ints(b)
    ensures a == b
  {
    assert |a| == |Ints(a)| && |b| == |Ints(b)|;
    forall i | 0 <= i < |a| ensures a[i] == b[i] {
      assert Ints(a)[i] == PInt(a[i]) && Ints(b)[i] == PInt(b[i]);
    }
  }

  /** Different rows print differently, as lists and as tuples, and a list
      never prints like a tuple: `literal_eval` reads each text back. */
  lemma KeyTexts(a: Row, b: Row)
    ensures ListText(a) == ListText(b) ==> a == b
    ensures TupleText(a) == TupleText(b) ==> a == b
    ensures ListText(a) != TupleText(b)
  {
    LiteralEvalRepr(PList(Ints(a)));
    LiteralEvalRepr(PList(Ints(b)));
    LiteralEvalRepr(PTuple(Ints(a)));
    LiteralEvalRepr(PTuple(Ints(b)));
    if ListText(a) == ListText(b) {
      IntsInjective(a, b);
    }
    if TupleText(a) == TupleText(b) {
      IntsInjective(a, b);
    }
  }

  lemma ListTextsDistinct()
    ensures forall a: Row, b: Row :: ListText(a) == ListText(b) ==> a == b
  {
    forall a: Row, b: Row | ListText(a) == ListText(b) ensures a == b {
      KeyTexts(a, b);
    }
  }

  /** The entries of a row-keyed map, each under `str` of its row as a list. */
  function ListKeyed(m: map<Row, real>): (r: Jdd)
    ensures forall row :: row in m ==> ListText(row) in r && r[ListText(row)] == m[row]
    ensures r.Keys == set row | row in m :: ListText(row)
  {
    ListTextsDistinct();
    map row | row in m :: ListText(row) := m[row]
  }

  // ----- convert_jds_to_jdd -----

  /** `str(tuple(e)) for e in jds` */
  function Texts(rows: seq<Row>): (t: seq<string>)
    ensures |t| == |rows| && forall i :: 0 <= i < |rows| ==> t[i] == TupleText(rows[i])
  {
    seq(|rows|, i requires 0 <= i < |rows| => TupleText(rows[i]))
  }

  lemma {:induction false} TextsCount(rows: seq<Row>, r: Row)
    ensures multiset(Texts(rows))[TupleText(r)] == multiset(rows)[r]
  {
    if rows != [] {
      var init, last := rows[..|rows| - 1], rows[|rows| - 1];
      TextsCount(init, r);
      assert rows == init + [last];
      assert Texts(rows) == Texts(init) + [TupleText(last)];
      KeyTexts(last, r);
    }
  }

  /** `convert_jds_to_jdd`: the rows printed as tuples and counted; each
      distinct row's text weighted by the fraction of rows equal to it. */
  method LegacyConvertJdsToJdd(jds: seq<Row>) returns (jdd: Jdd)
    ensures jdd.Keys == set r | r in jds :: TupleText(r)
    ensures forall r :: r in jds ==> jdd[TupleText(r)] == (multiset(jds)[r] as real) / (|jds| as real)
    ensures jds != [] ==> EjkExtraction.Total(jdd) == 1.0
  {
    var texts := Texts(jds);
    jdd := ConvertJdsToJdd(texts);
    assert (set s | s in texts) == set r | r in jds :: TupleText(r) by {
      forall s | s in texts ensures s in set r | r in jds :: TupleText(r) {
        var i :| 0 <= i < |texts| && texts[i] == s;
        assert jds[i] in jds;
      }
      forall r | r in jds ensures TupleText(r) in texts {
        var i :| 0 <= i < |jds| && jds[i] == r;
        assert texts[i] == TupleText(r);
      }
    }
    forall r | r in jds ensures jdd[TupleText(r)] == (multiset(jds)[r] as real) / (|jds| as real) {
      TextsCount(jds, r);
    }
  }

  // ----- sample_JDS -----

  /** What `zip(*jds)` and `sum` accept of a literal: a flat list or tuple
      of integers. Anything else raises TypeError. */
  function RowOf(v: Py): Result<Row>
  {
    match v
    case PInt(_) => Err(TypeError)
    case PList(items) => FlatRow(items)
    case PTuple(items) => FlatRow(items)
  }

  function FlatRow(items: seq<Py>): (r: Result<Row>)
    ensures r.Ok? ==> Ints(r.value) == items
  {
    if forall k :: 0 <= k < |items| ==> items[k].PInt? then
      Ok(seq(|items|, k requires 0 <= k < |items| => items[k].i))
    else Err(TypeError)
  }

  /** `list(map(ast.literal_eval, keys))`, then the rows `zip` reads: a
      text that is not a literal fails first, then a literal that is not a
      row of integers. */
  function ParseRows(keys: seq<string>): Result<seq<Row>>
  {
    if exists i :: 0 <= i < |keys| && LiteralEval(keys[i]).Err? then Err(SyntaxError)
    else if exists i :: 0 <= i < |keys| && RowOf(LiteralEval(keys[i]).value).Err? then Err(TypeError)
    else Ok(seq(|keys|, i requires 0 <= i < |keys| => RowOf(LiteralEval(keys[i]).value).value))
  }

  /** Keys printed from rows read back as those rows. */
  lemma ParseTexts(rows: seq<Row>)
    ensures ParseRows(Texts(rows)) == Ok(rows)
  {
    var keys := Texts(rows);
    forall i | 0 <= i < |keys| ensures LiteralEval(keys[i]) == Ok(PTuple(Ints(rows[i]))) {
      LiteralEvalRepr(PTuple(Ints(rows[i])));
    }
    forall i | 0 <= i < |keys| ensures RowOf(LiteralEval(keys[i]).value) == Ok(rows[i]) {
      var r := FlatRow(Ints(rows[i]));
      assert Ints(rows[i])[..] == Ints(rows[i]);
      assert forall k :: 0 <= k < |Ints(rows[i])| ==> Ints(rows[i])[k].PInt?;
      IntsInjective(r.value, rows[i]);
    }
    assert !exists i :: 0 <= i < |keys| && LiteralEval(keys[i]).Err?;
    assert !exists i :: 0 <= i < |keys| && RowOf(LiteralEval(keys[i]).value).Err?;
    assert seq(|keys|, i requires 0 <= i < |keys| => RowOf(LiteralEval(keys[i]).value).value) == rows;
  }

  /** `np.random.choice(len(keys), N, p=values)` refuses: no keys, a
      negative count, a negative weight, or weights that do not add up to
      one. */
  ghost predicate ChoiceRefused(jdd: Jdd, n: int)
  {
    jdd == map[] || n < 0 || (exists s :: s in jdd && jdd[s] < 0.0) || EjkExtraction.Total(jdd) != 1.0
  }

  /** A distribution with positive total mass has a key of positive weight. */
  lemma {:induction false} PositiveEntry(m: Jdd)
    requires EjkExtraction.Total(m) > 0.0
    ensures exists s :: s in m && m[s] > 0.0
    decreases |m.Keys|
  {
    if m == map[] {
      EjkExtraction.TotalEmpty(m);
    } else {
      var k :| k in m;
      EjkExtraction.TotalRemove(m, k);
      if m[k] <= 0.0 {
        assert (m - {k}).Keys == m.Keys - {k};
        PositiveEntry(m - {k});
        var s :| s in m - {k} && (m - {k})[s] > 0.0;
        assert s in m && m[s] > 0.0;
      }
    }
  }

  /** `sample_JDS(N)`: N keys drawn with replacement (only keys of positive
      weight can be drawn), read back as rows, then corrected column by
      column until every column sum is a multiple of its motif size. The
      draw is returned alongside the result. */
  method LegacySampleJds(jdd: Jdd, motifSizes: seq<int>, n: int) returns (res: Result<seq<Row>>, ghost draw: seq<string>)
    ensures ChoiceRefused(jdd, n) ==> res == Err(ValueError)
    ensures !ChoiceRefused(jdd, n) ==>
      |draw| == n && (forall s :: s in draw ==> s in jdd && jdd[s] > 0.0) &&
      match ParseRows(draw)
      case Err(e) => res == Err(e)
      case Ok(rows) =>
        var b := FirstAbort(motifSizes, 0, Stubs.Columns(rows));
        (res.Ok? <==> b == Stubs.Columns(rows)) &&
        (res.Err? ==> res.error == if b < |motifSizes| then ZeroDivisionError else IndexError) &&
        (res.Ok? ==> Corrected(rows, res.value, motifSizes, b))
  {
    draw := [];
    if jdd == map[] || n < 0 {
      return Err(ValueError), draw;
    }
    if exists s :: s in jdd && jdd[s] < 0.0 {
      return Err(ValueError), draw;
    }
    var total := SumValues(jdd);
    if total != 1.0 {
      return Err(ValueError), draw;
    }
    PositiveEntry(jdd);
    var keys: seq<string> := [];
    while |keys| < n
      invariant |keys| <= n
      invariant forall s :: s in keys ==> s in jdd && jdd[s] > 0.0
      decreases n - |keys|
    {
      var s :| s in jdd && jdd[s] > 0.0;
      keys := keys + [s];
    }
    draw := keys;
    var parsed := ParseRows(keys);
    if parsed.Err? {
      return Err(parsed.error), draw;
    }
    var rows := parsed.value;
    var a := new Row[|rows|](k requires 0 <= k < |rows| => rows[k]);
    assert a[..] == rows;
    res := HandshakingLemma(a, motifSizes);
  }

  // ----- the split-degree model -----

  /** The list texts of the splits of j over T topologies. */
  function SplitTexts(j: int, T: nat): set<string>
  {
    if T == 0 then {} else set r | r in SplitDegree.Valid(j, T) :: ListText(r)
  }

  /** The texts resolved for the degrees k .. hi - 1. */
  function DegreeTexts(k: int, hi: int, T: nat): set<string>
    decreases hi - k
  {
    if k >= hi then {} else SplitTexts(k, T) + DegreeTexts(k + 1, hi, T)
  }

  lemma {:induction false} DegreeTextsMeaning(k: int, hi: int, T: nat, s: string)
    ensures s in DegreeTexts(k, hi, T) <==> exists j :: k <= j < hi && s in SplitTexts(j, T)
    decreases hi - k
  {
    if k < hi {
      DegreeTextsMeaning(k + 1, hi, T, s);
      if s in SplitTexts(k, T) {
        assert k <= k < hi;
      }
    }
  }

  /** A split of j is printed by no other degree. */
  lemma SplitTextsDisjoint(j: int, j': int, T: nat, r: Row)
    requires T >= 1 && j != j' && r in SplitDegree.Valid(j, T)
    ensures ListText(r) !in SplitTexts(j', T)
  {
    SplitDegree.ValidSound(j, T);
    SplitDegree.ValidSound(j', T);
    if ListText(r) in SplitTexts(j', T) {
      var r' :| r' in SplitDegree.Valid(j', T) && ListText(r') == ListText(r);
      KeyTexts(r, r');
    }
  }

  lemma ResolvedTexts(k: int, pk: real, T: nat, prob: Row -> real)
    requires SplitDegree.Resolved(k, pk, T, prob).Ok?
    ensures ListKeyed(SplitDegree.Resolved(k, pk, T, prob).value).Keys == SplitTexts(k, T)
  {
    var m := SplitDegree.Resolved(k, pk, T, prob).value;
    forall r ensures r in m <==> r in SplitDegree.Valid(k, T) {
      SplitDegree.ResolvedKeys(k, pk, T, prob, r);
    }
  }

  /** `create_jdd`'s loop from degree k on, writing into acc: each degree's
      splits are added to the same dict, which is never cleared. */
  function SplitAcc(k: int, hi: int, T: nat, fp: int -> real, prob: Row -> real, acc: Jdd): Result<Jdd>
    decreases hi - k
  {
    if k >= hi then Ok(acc)
    else match SplitDegree.Resolved(k, fp(k), T, prob)
      case Err(e) => Err(e)
      case Ok(m) => SplitAcc(k + 1, hi, T, fp, prob, acc + ListKeyed(m))
  }

  /** The dict ends up with every entry it had plus the splits of every
      degree of the range. */
  lemma {:induction false} SplitAccKeys(k: int, hi: int, T: nat, fp: int -> real, prob: Row -> real, acc: Jdd)
    requires SplitAcc(k, hi, T, fp, prob, acc).Ok?
    ensures SplitAcc(k, hi, T, fp, prob, acc).value.Keys == acc.Keys + DegreeTexts(k, hi, T)
    decreases hi - k
  {
    if k < hi {
      ResolvedTexts(k, fp(k), T, prob);
      var m := SplitDegree.Resolved(k, fp(k), T, prob).value;
      SplitAccKeys(k + 1, hi, T, fp, prob, acc + ListKeyed(m));
    }
  }

  /** An entry no later degree writes keeps its weight. */
  lemma {:induction false} SplitAccKeeps(k: int, hi: int, T: nat, fp: int -> real, prob: Row -> real, acc: Jdd, s: string)
    requires SplitAcc(k, hi, T, fp, prob, acc).Ok?
    requires s in acc && s !in DegreeTexts(k, hi, T)
    ensures s in SplitAcc(k, hi, T, fp, prob, acc).value
    ensures SplitAcc(k, hi, T, fp, prob, acc).value[s] == acc[s]
    decreases hi - k
  {
    if k < hi {
      ResolvedTexts(k, fp(k), T, prob);
      var m := SplitDegree.Resolved(k, fp(k), T, prob).value;
      SplitAccKeeps(k + 1, hi, T, fp, prob, acc + ListKeyed(m), s);
    }
  }

  /** Every split of a degree of the range keeps the weight its degree's
      resolution gave it. */
  lemma {:induction false} SplitAccValue(k: int, hi: int, T: nat, fp: int -> real, prob: Row -> real, acc: Jdd, j: int, r: Row)
    requires SplitAcc(k, hi, T, fp, prob, acc).Ok?
    requires k <= j < hi && T >= 1 && r in SplitDegree.Valid(j, T)
    ensures SplitDegree.Resolved(j, fp(j), T, prob).Ok?
    ensures ListText(r) in SplitAcc(k, hi, T, fp, prob, acc).value
    ensures SplitAcc(k, hi, T, fp, prob, acc).value[ListText(r)] == SplitDegree.Resolved(j, fp(j), T, prob).value[r]
    decreases hi - k
  {
    var m := SplitDegree.Resolved(k, fp(k), T, prob).value;
    if j == k {
      SplitDegree.ResolvedKeys(k, fp(k), T, prob, r);
      DegreeTextsMeaning(k + 1, hi, T, ListText(r));
      forall j' | k + 1 <= j' < hi ensures ListText(r) !in SplitTexts(j', T) {
        SplitTextsDisjoint(j, j', T, r);
      }
      SplitAccKeeps(k + 1, hi, T, fp, prob, acc + ListKeyed(m), ListText(r));
    } else {
      SplitAccValue(k + 1, hi, T, fp, prob, acc + ListKeyed(m), j, r);
    }
  }

  /** The split-degree distribution before normalising: the list text of
      every split of every degree kmin .. kmax - 1, and nothing else; each
      split with the weight its degree's resolution gave it. */
  lemma LegacySplitMeaning(lo: int, hi: int, T: nat, fp: int -> real, prob: Row -> real, j: int, r: Row)
    requires SplitAcc(lo, hi, T, fp, prob, map[]).Ok?
    ensures var m := SplitAcc(lo, hi, T, fp, prob, map[]).value;
      forall s :: s in m <==> exists j :: lo <= j < hi && s in SplitTexts(j, T)
    ensures lo <= j < hi && T >= 1 && r in SplitDegree.Valid(j, T) ==>
      var m := SplitAcc(lo, hi, T, fp, prob, map[]).value;
      SplitDegree.Resolved(j, fp(j), T, prob).Ok? &&
      ListText(r) in m && m[ListText(r)] == SplitDegree.Resolved(j, fp(j), T, prob).value[r]
  {
    SplitAccKeys(lo, hi, T, fp, prob, map[]);
    forall s ensures s in DegreeTexts(lo, hi, T) <==> exists j :: lo <= j < hi && s in SplitTexts(j, T) {
      DegreeTextsMeaning(lo, hi, T, s);
    }
    if lo <= j < hi && T >= 1 && r in SplitDegree.Valid(j, T) {
      SplitAccValue(lo, hi, T, fp, prob, map[], j, r);
    }
  }

  /** `resolve_degree(k, pk)` on the dict jdd: the splits of k weighted by pk
      times their share of the probability, added to what is there. */
  method ResolveInto(jdd: Jdd, k: int, pk: real, T: nat, prob: Row -> real) returns (res: Result<Jdd>)
    ensures var r := SplitDegree.Resolved(k, pk, T, prob);
      (res.Ok? <==> r.Ok?) &&
      (res.Err? ==> res.error == r.error) &&
      (res.Ok? ==> res.value == jdd + ListKeyed(r.value))
  {
    var r := SplitDegree.ResolveRows(k, pk, T, prob);
    if r.Err? {
      return Err(r.error);
    }
    return Ok(jdd + ListKeyed(r.value));
  }

  /** What `create_jdd` leaves in `_jdd`, starting from acc. */
  ghost function SplitOutcome(lo: int, hi: int, T: nat, fp: int -> real, prob: Row -> real, acc: Jdd): Result<Jdd>
  {
    match SplitAcc(lo, hi, T, fp, prob, acc)
    case Err(e) => Err(e)
    case Ok(m) => Normalised(m)
  }

  /** `JDD_split_K_model`. */
  class LegacySplitModel {
    var jdd: Jdd
    const fp: int -> real
    const motifSizes: seq<int>
    const probs: seq<real>
    const kmin: int
    const kmax: int
    /** `calc_prob_of_joint_degree`, a float computation left opaque. */
    const prob: Row -> real

    /** `JDD_Interface.__init__` starts from an empty dict. */
    constructor (fp: int -> real, motifSizes: seq<int>, probs: seq<real>, kmin: int, kmax: int, prob: Row -> real)
      ensures this.fp == fp && this.motifSizes == motifSizes && this.probs == probs
      ensures this.kmin == kmin && this.kmax == kmax && this.prob == prob && jdd == map[]
    {
      this.fp := fp;
      this.motifSizes := motifSizes;
      this.probs := probs;
      this.kmin := kmin;
      this.kmax := kmax;
      this.prob := prob;
      jdd := map[];
    }

    /** `resolve_degree`: nothing is written when the resolution fails. */
    method ResolveDegree(k: int, pk: real) returns (res: Result<()>)
      modifies this
      ensures var r := SplitDegree.Resolved(k, pk, |probs|, prob);
        (res.Ok? <==> r.Ok?) &&
        (res.Err? ==> res.error == r.error && jdd == old(jdd)) &&
        (res.Ok? ==> jdd == old(jdd) + ListKeyed(r.value))
    {
      var r := ResolveInto(jdd, k, pk, |probs|, prob);
      if r.Err? {
        return Err(r.error);
      }
      jdd := r.value;
      return Ok(());
    }

    /** `create_jdd`: every degree kmin .. kmax - 1 resolved into the dict,
        then the dict normalised. */
    method CreateJdd() returns (res: Result<()>)
      modifies this
      ensures var out := SplitOutcome(kmin, kmax, |probs|, fp, prob, old(jdd));
        (res.Ok? <==> out.Ok?) &&
        (res.Err? ==> res.error == out.error) &&
        (res.Ok? ==> jdd == out.value)
    {
      var k := kmin;
      while k < kmax
        invariant kmin <= kmax ==> kmin <= k <= kmax
        invariant kmin > kmax ==> k == kmin
        invariant SplitAcc(kmin, kmax, |probs|, fp, prob, old(jdd)) == SplitAcc(k, kmax, |probs|, fp, prob, jdd)
        decreases kmax - k
      {
        var r := ResolveDegree(k, fp(k));
        if r.Err? {
          return Err(r.error);
        }
        k := k + 1;
      }
      var n := NormaliseJdd(jdd);
      if n.Err? {
        return Err(n.error);
      }
      jdd := n.value;
      return Ok(());
    }
  }

  /** `JDD_split_K_model(fp, motif_sizes, probs, kmin, kmax)`. */
  method NewLegacySplitModel(fp: int -> real, motifSizes: seq<int>, probs: seq<real>, kmin: int, kmax: int, prob: Row -> real)
    returns (res: Result<LegacySplitModel>)
    ensures var out := SplitOutcome(kmin, kmax, |probs|, fp, prob, map[]);
      (res.Ok? <==> out.Ok?) &&
      (res.Err? ==> res.error == out.error) &&
      (res.Ok? ==> fresh(res.value) && res.value.jdd == out.value && res.value.motifSizes == motifSizes)
  {
    var model := new LegacySplitModel(fp, motifSizes, probs, kmin, kmax, prob);
    var r := model.CreateJdd();
    if r.Err? {
      return Err(r.error);
    }
    return Ok(model);
  }
}
