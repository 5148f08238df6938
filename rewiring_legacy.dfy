// The older rewiring engine, which rewires the network it was given in
// place. It builds corners and topology hashmaps as the newer engine does,
// but it checks suitability only on the zipped corner pairs, looks up the
// swapped keys (u0 + v1, u1 + v0), pairs the denominator by position
// rather than by topology, and, on acceptance, moves every u-corner edge
// (u0, u1) to (v0, u1) and every v-corner edge (v0, v1) to (u0, v1), each
// with its own labels, overwriting rather than rejecting an edge that is
// already there. Its edge pool is epydemic's DrawSet, which is not part of
// this model; the package's own DrawSet stands in for it.

module RewiringLegacy {
  import opened Common
  import opened Graphs
  import opened DrawSets
  import opened EjkMatrices
  import opened Rewiring
  import RE = RewiringEngine
  import KV = KeysView

  /** `get_other_node`: the endpoint of e other than u; when u is not an
      endpoint the source raises a formatted string, which is a TypeError. */
  function OtherNode(u: Vertex, e: Edge): (r: Result<Vertex>)
    ensures r.Ok? <==> OtherVertex(u, e).Ok?
    ensures r.Ok? ==> r == OtherVertex(u, e)
    ensures r.Err? ==> r.error == TypeError
  {
    if e.0 == u then Ok(e.1)
    else if e.1 == u then Ok(e.0)
    else Err(TypeError)
  }

  // ----- suitability -----

  /** The checks `is_edge_choice_suitable` makes on one zipped pair: the
      two edges lie in different motifs, and neither (u0, e1[1]) nor
      (v0, e0[1]) is an edge yet. */
  predicate PairSuitable(g: Graph, u0: Vertex, v0: Vertex, e0: Edge, e1: Edge)
    requires HasEdge(g, e0.0, e0.1) && HasEdge(g, e1.0, e1.1)
  {
    EdgeLabel(g, e0).motifId != EdgeLabel(g, e1).motifId
    && !HasEdge(g, u0, e1.1) && !HasEdge(g, v0, e0.1)
  }

  /** `is_edge_choice_suitable`: equal corner sizes, equal topology key
      sets with equal counts, and every zipped pair suitable. */
  predicate ZipSuitable(g: Graph, u0: Vertex, v0: Vertex, e0s: seq<Edge>, e1s: seq<Edge>)
    requires InGraph(g, e0s) && InGraph(g, e1s)
  {
    var h0, h1 := Hashmap(g, e0s), Hashmap(g, e1s);
    |e0s| == |e1s|
    && h0.Keys == h1.Keys
    && (forall t :: t in h0 ==> |h0[t]| == |h1[t]|)
    && forall i :: 0 <= i < |e0s| ==> PairSuitable(g, u0, v0, e0s[i], e1s[i])
  }

  /** The zip runs over both whole corners, so suitability rules out every
      edge the accept step will add: no (v0, u1) for a u-corner edge and
      no (u0, v1) for a v-corner edge is in the graph yet. */
  lemma SuitableTargetsAbsent(g: Graph, u0: Vertex, v0: Vertex, e0s: seq<Edge>, e1s: seq<Edge>)
    requires InGraph(g, e0s) && InGraph(g, e1s) && ZipSuitable(g, u0, v0, e0s, e1s)
    ensures forall e :: e in e0s ==> !HasEdge(g, v0, e.1)
    ensures forall e :: e in e1s ==> !HasEdge(g, u0, e.1)
  {
    forall e | e in e0s ensures !HasEdge(g, v0, e.1) {
      var i :| 0 <= i < |e0s| && e0s[i] == e;
      assert PairSuitable(g, u0, v0, e0s[i], e1s[i]);
    }
    forall e | e in e1s ensures !HasEdge(g, u0, e.1) {
      var i :| 0 <= i < |e1s| && e1s[i] == e;
      assert PairSuitable(g, u0, v0, e0s[i], e1s[i]);
    }
  }

  /** Where the zipped pairs share their topology, corners the newer engine
      finds suitable are suitable here too: its target test covers every
      same-topology combination, this one only the zipped pairs. */
  lemma NewerSuitableSuffices(g: Graph, u0: Vertex, v0: Vertex, e0s: seq<Edge>, e1s: seq<Edge>)
    requires InGraph(g, e0s) && InGraph(g, e1s) && Oriented(u0, e0s) && Oriented(v0, e1s)
    requires forall e :: e in e0s ==> e.0 == u0
    requires forall e :: e in e1s ==> e.0 == v0
    requires |e0s| == |e1s|
    requires forall i :: 0 <= i < |e0s| ==> EdgeLabel(g, e0s[i]).topology == EdgeLabel(g, e1s[i]).topology
    requires Suitable(g, u0, v0, e0s, e1s)
    ensures ZipSuitable(g, u0, v0, e0s, e1s)
  {
    forall i | 0 <= i < |e0s| ensures PairSuitable(g, u0, v0, e0s[i], e1s[i]) {
      assert e0s[i] in e0s && e1s[i] in e1s;
      assert TargetsFree(g, u0, v0, e0s[i], e1s[i]);
    }
  }

  /** `is_edge_choice_suitable` in the source's order: the lengths, the
      topology key sets, the per-topology counts, then the zipped pairs. */
  method CheckZipSuitable(g: Graph, u0: Vertex, v0: Vertex, e0s: seq<Edge>, e1s: seq<Edge>) returns (b: bool)
    requires InGraph(g, e0s) && InGraph(g, e1s)
    ensures b == ZipSuitable(g, u0, v0, e0s, e1s)
  {
    if |e0s| != |e1s| {
      return false;
    }
    var h0 := GetHashmap(g, e0s);
    var h1 := GetHashmap(g, e1s);
    if h0.Keys != h1.Keys {
      return false;
    }
    b := BucketSizesAgree(h0, h1);
    if b {
      b := ZipPairsSuitable(g, u0, v0, e0s, e1s);
    }
  }

  /** The loop over the zipped pairs of `is_edge_choice_suitable`. */
  method ZipPairsSuitable(g: Graph, u0: Vertex, v0: Vertex, e0s: seq<Edge>, e1s: seq<Edge>) returns (b: bool)
    requires InGraph(g, e0s) && InGraph(g, e1s) && |e0s| == |e1s|
    ensures b <==> forall i :: 0 <= i < |e0s| ==> PairSuitable(g, u0, v0, e0s[i], e1s[i])
  {
    var i := 0;
    while i < |e0s|
      invariant 0 <= i <= |e0s|
      invariant forall j :: 0 <= j < i ==> PairSuitable(g, u0, v0, e0s[j], e1s[j])
    {
      assert e0s[i] in e0s && e1s[i] in e1s;
      if EdgeLabel(g, e0s[i]).motifId == EdgeLabel(g, e1s[i]).motifId {
        return false;
      } else if HasEdge(g, u0, e1s[i].1) || HasEdge(g, v0, e0s[i].1) {
        return false;
      }
      i := i + 1;
    }
    return true;
  }

  // ----- keys -----

  /** `get_swapped_joint_excess_degree_key`: the excess vectors of
      [u0, u1, v0, v1] give the keys u0 + v1 and u1 + v0. A vertex without
      a joint degree is a KeyError, a vector too short for `index` an
      IndexError. */
  function SwappedKeyPair(g: Graph, e0: Edge, e1: Edge, u0: Vertex, v0: Vertex, index: nat): (r: Result<(seq<int>, seq<int>)>)
    ensures r.Err? ==> r.error in {TypeError, KeyError, IndexError}
  {
    var u1 :- OtherNode(u0, e0);
    var v1 :- OtherNode(v0, e1);
    var us := [u0, u1, v0, v1];
    if exists u :: u in us && u !in g.jd then Err(KeyError)
    else if exists u :: u in us && index >= |g.jd[u]| then Err(IndexError)
    else Ok((Excess(g.jd[u0], index) + Excess(g.jd[v1], index), Excess(g.jd[u1], index) + Excess(g.jd[v0], index)))
  }

  /** The two keys are those the proposed edges (u0, v1) and (u1, v0) would
      have. Against the newer engine's keys view, the first is its u0v1 key
      and the second its v0u1 key with the halves exchanged: u1 first. */
  lemma SwappedKeyPairMeaning(g: Graph, e0: Edge, e1: Edge, u0: Vertex, v0: Vertex, index: nat)
    requires OtherVertex(u0, e0).Ok? && OtherVertex(v0, e1).Ok?
    ensures SwappedKeyPair(g, e0, e1, u0, v0, index).Ok? <==> SwappedKeys(g, e0, e1, u0, v0, index).Ok?
    ensures SwappedKeyPair(g, e0, e1, u0, v0, index).Err? ==>
      SwappedKeyPair(g, e0, e1, u0, v0, index).error == SwappedKeys(g, e0, e1, u0, v0, index).error
    ensures SwappedKeyPair(g, e0, e1, u0, v0, index).Ok? ==>
      var k, v := SwappedKeyPair(g, e0, e1, u0, v0, index).value, SwappedKeys(g, e0, e1, u0, v0, index).value;
      var u1, v1 := OtherVertex(u0, e0).value, OtherVertex(v0, e1).value;
      k.0 == KV.U0V1(v) && k.1 == KV.SwapHalves(KV.V0U1(v), |v.keys[2]|)
      && JointExcessDegreeKey(g, (u0, v1), index) == Ok(k.0)
      && JointExcessDegreeKey(g, (u1, v0), index) == Ok(k.1)
  {
    var u1, v1 := OtherVertex(u0, e0).value, OtherVertex(v0, e1).value;
    var us := [u0, u1, v0, v1];
    assert u0 in us && u1 in us && v0 in us && v1 in us;
    if SwappedKeyPair(g, e0, e1, u0, v0, index).Ok? {
      var v := SwappedKeys(g, e0, e1, u0, v0, index).value;
      assert KV.V0U1(v) == v.keys[2] + v.keys[1];
      assert KV.SwapHalves(KV.V0U1(v), |v.keys[2]|) == v.keys[1] + v.keys[2];
    }
  }

  // ----- `swap_condition` as a function of its inputs -----

  /** The state of the numerator loop: the partner hashmap, the running
      product and the pairs matched so far, or the outcome of an early
      return. */
  datatype Tally = Running(hm: map<string, seq<Edge>>, value: real, pairs: seq<(Edge, Edge)>)
                 | Stopped(outcome: Result<bool>)

  /** One pass of the numerator loop for the u-corner edge e0: its topology
      index, the pop of the last remaining v-corner edge of its topology,
      the swapped keys and their weights. A missing topology bucket is a
      KeyError and an exhausted one an IndexError; a missing weight or a
      product that became zero returns False. */
  function NumeratorStep(m: RE.Weights, names: seq<string>, g: Graph, u0: Vertex, v0: Vertex, e0: Edge,
                         hm: map<string, seq<Edge>>, top: real, pairs: seq<(Edge, Edge)>): Tally
    requires HasEdge(g, e0.0, e0.1)
  {
    var t := EdgeLabel(g, e0).topology;
    var index := TopologyIndex(names, t);
    if index.Err? then Stopped(Err(index.error))
    else if t !in hm then Stopped(Err(KeyError))
    else if hm[t] == [] then Stopped(Err(IndexError))
    else
      var lst := hm[t];
      var e1 := lst[|lst| - 1];
      var keys := SwappedKeyPair(g, e0, e1, u0, v0, index.value);
      if keys.Err? then Stopped(Err(keys.error))
      else
        var w1, w2 := RE.Weight(m, t, keys.value.0), RE.Weight(m, t, keys.value.1);
        if w1.None? || w2.None? then Stopped(Ok(false))
        else
          var top' := top * (w1.value * w2.value);
          if top' == 0.0 then Stopped(Ok(false))
          else Running(hm[t := lst[..|lst| - 1]], top', pairs + [(e0, e1)])
  }

  /** The numerator loop over the u-corner, from the hashmap `hm0`. */
  function NumeratorRun(m: RE.Weights, names: seq<string>, g: Graph, u0: Vertex, v0: Vertex, e0s: seq<Edge>,
                        hm0: map<string, seq<Edge>>): Tally
    requires InGraph(g, e0s)
  {
    if e0s == [] then Running(hm0, 1.0, [])
    else
      assert forall x :: x in e0s[..|e0s| - 1] ==> x in e0s;
      var prev := NumeratorRun(m, names, g, u0, v0, e0s[..|e0s| - 1], hm0);
      if prev.Stopped? then prev
      else NumeratorStep(m, names, g, u0, v0, e0s[|e0s| - 1], prev.hm, prev.value, prev.pairs)
  }

  /** The state of the denominator loop: the running product, or the
      outcome of an early return. */
  datatype Bottom = Partial(value: real) | Halted(outcome: Result<bool>)

  /** One pass of the denominator loop over a zipped pair: different
      topologies raise a formatted string (a TypeError); otherwise both
      edges' keys under that topology's index, and their weights. */
  function DenominatorStep(m: RE.Weights, names: seq<string>, g: Graph, z: (Edge, Edge), bottom: real): Bottom
    requires HasEdge(g, z.0.0, z.0.1) && HasEdge(g, z.1.0, z.1.1)
  {
    var t, t1 := EdgeLabel(g, z.0).topology, EdgeLabel(g, z.1).topology;
    if t != t1 then Halted(Err(TypeError))
    else
      var index := TopologyIndex(names, t);
      if index.Err? then Halted(Err(index.error))
      else
        var k0, k1 := JointExcessDegreeKey(g, z.0, index.value), JointExcessDegreeKey(g, z.1, index.value);
        if k0.Err? then Halted(Err(k0.error))
        else if k1.Err? then Halted(Err(k1.error))
        else
          var w0, w1 := RE.Weight(m, t, k0.value), RE.Weight(m, t, k1.value);
          if w0.None? || w1.None? then Halted(Ok(false))
          else Partial(bottom * (w0.value * w1.value))
  }

  predicate ZippedInGraph(g: Graph, zs: seq<(Edge, Edge)>)
  {
    forall i :: 0 <= i < |zs| ==> HasEdge(g, zs[i].0.0, zs[i].0.1) && HasEdge(g, zs[i].1.0, zs[i].1.1)
  }

  lemma ZipInGraph(g: Graph, e0s: seq<Edge>, e1s: seq<Edge>)
    requires InGraph(g, e0s) && InGraph(g, e1s)
    ensures ZippedInGraph(g, Zip(e0s, e1s))
  {
    forall i | 0 <= i < |Zip(e0s, e1s)|
      ensures HasEdge(g, Zip(e0s, e1s)[i].0.0, Zip(e0s, e1s)[i].0.1)
      ensures HasEdge(g, Zip(e0s, e1s)[i].1.0, Zip(e0s, e1s)[i].1.1)
    {
      assert e0s[i] in e0s && e1s[i] in e1s;
    }
  }

  /** The denominator loop over the zipped pairs. */
  function DenominatorRun(m: RE.Weights, names: seq<string>, g: Graph, zs: seq<(Edge, Edge)>): Bottom
    requires ZippedInGraph(g, zs)
  {
    if zs == [] then Partial(1.0)
    else
      var prev := DenominatorRun(m, names, g, zs[..|zs| - 1]);
      if prev.Halted? then prev
      else DenominatorStep(m, names, g, zs[|zs| - 1], prev.value)
  }

  /** `swap_condition`: the numerator loop, then the denominator loop, then
      a zero denominator raises (a formatted string, so a TypeError) and
      otherwise the swap is taken when the ratio exceeds `rnd`. */
  function SwapOutcome(m: RE.Weights, names: seq<string>, g: Graph, e0s: seq<Edge>, e1s: seq<Edge>,
                       u0: Vertex, v0: Vertex, rnd: real): Result<bool>
    requires InGraph(g, e0s) && InGraph(g, e1s)
  {
    var top := NumeratorRun(m, names, g, u0, v0, e0s, Hashmap(g, e1s));
    if top.Stopped? then top.outcome
    else
      ZipInGraph(g, e0s, e1s);
      var bottom := DenominatorRun(m, names, g, Zip(e0s, e1s));
      if bottom.Halted? then bottom.outcome
      else if bottom.value == 0.0 then Err(TypeError)
      else Ok((top.value + 0.0) / bottom.value > rnd)
  }

  predicate StopOutcome(o: Result<bool>)
  {
    o == Ok(false) || (o.Err? && o.error in {KeyError, IndexError, TypeError, NameError})
  }

  /** Each pair matches a u-corner edge, by position, with a v-corner
      edge of the same topology. */
  predicate PartnersMatch(g: Graph, e0s: seq<Edge>, e1s: seq<Edge>, pairs: seq<(Edge, Edge)>)
    requires InGraph(g, e0s) && InGraph(g, e1s) && |pairs| == |e0s|
  {
    (forall i :: 0 <= i < |pairs| ==> pairs[i].1 in e1s)
    && (forall i :: 0 <= i < |pairs| ==> EdgeLabel(g, pairs[i].1).topology == EdgeLabel(g, e0s[i]).topology)
  }

  /** What a numerator loop that is still running has done: paired every
      u-corner edge so far, in order, with a v-corner edge of the same
      topology popped from the hashmap, keeping a non-zero product. */
  ghost predicate PairedSoFar(g: Graph, e0s: seq<Edge>, e1s: seq<Edge>, t: Tally)
    requires InGraph(g, e0s) && InGraph(g, e1s) && t.Running?
  {
    Firsts(t.pairs) == e0s && t.value != 0.0
    && PartnersMatch(g, e0s, e1s, t.pairs)
    && RE.Unpopped(g, e1s, t.hm, Seconds(t.pairs))
  }

  lemma PartnersAppend(g: Graph, e0s: seq<Edge>, e0: Edge, e1: Edge, e1s: seq<Edge>, pairs: seq<(Edge, Edge)>)
    requires InGraph(g, e0s) && InGraph(g, e0s + [e0]) && InGraph(g, e1s) && |pairs| == |e0s|
    requires PartnersMatch(g, e0s, e1s, pairs)
    requires e1 in e1s && HasEdge(g, e0.0, e0.1) && EdgeLabel(g, e1).topology == EdgeLabel(g, e0).topology
    ensures PartnersMatch(g, e0s + [e0], e1s, pairs + [(e0, e1)])
  {
    var ps := pairs + [(e0, e1)];
    forall i | 0 <= i < |ps|
      ensures ps[i].1 in e1s
      ensures EdgeLabel(g, ps[i].1).topology == EdgeLabel(g, (e0s + [e0])[i]).topology
    {
      if i < |pairs| {
        assert ps[i] == pairs[i];
        assert (e0s + [e0])[i] == e0s[i];
      }
    }
  }

  lemma PairedAppend(g: Graph, e0s: seq<Edge>, e0: Edge, e1: Edge, e1s: seq<Edge>, prev: Tally, t: Tally)
    requires InGraph(g, e0s) && InGraph(g, e0s + [e0]) && InGraph(g, e1s) && prev.Running? && t.Running?
    requires PairedSoFar(g, e0s, e1s, prev)
    requires t.pairs == prev.pairs + [(e0, e1)] && t.value != 0.0
    requires e1 in e1s && HasEdge(g, e0.0, e0.1) && EdgeLabel(g, e1).topology == EdgeLabel(g, e0).topology
    requires RE.Unpopped(g, e1s, t.hm, Seconds(prev.pairs) + [e1])
    ensures PairedSoFar(g, e0s + [e0], e1s, t)
  {
    FirstsSecondsAppend(prev.pairs, (e0, e1));
    PartnersAppend(g, e0s, e0, e1, e1s, prev.pairs);
  }

  /** One pass of the numerator loop either stops with False or one of
      the listed errors, or pops the last edge of e0's topology bucket and
      keeps a non-zero product. */
  lemma NumeratorStepShape(m: RE.Weights, names: seq<string>, g: Graph, u0: Vertex, v0: Vertex, e0: Edge,
                           hm: map<string, seq<Edge>>, top: real, pairs: seq<(Edge, Edge)>)
    requires HasEdge(g, e0.0, e0.1)
    ensures var t := NumeratorStep(m, names, g, u0, v0, e0, hm, top, pairs);
      var tp := EdgeLabel(g, e0).topology;
      (t.Stopped? ==> StopOutcome(t.outcome))
      && (t.Running? ==>
        tp in hm && hm[tp] != [] && t.value != 0.0
        && t.hm == hm[tp := hm[tp][..|hm[tp]| - 1]] && t.pairs == pairs + [(e0, hm[tp][|hm[tp]| - 1])])
  {
  }

  /** One more pass of the numerator loop keeps `PairedSoFar` or stops
      with False or one of the listed errors. */
  lemma NumeratorStepKeeps(m: RE.Weights, names: seq<string>, g: Graph, u0: Vertex, v0: Vertex,
                           e0s: seq<Edge>, e0: Edge, e1s: seq<Edge>, prev: Tally)
    requires InGraph(g, e0s + [e0]) && InGraph(g, e1s) && prev.Running?
    requires InGraph(g, e0s) && PairedSoFar(g, e0s, e1s, prev)
    ensures HasEdge(g, e0.0, e0.1)
    ensures var t := NumeratorStep(m, names, g, u0, v0, e0, prev.hm, prev.value, prev.pairs);
      (t.Stopped? ==> StopOutcome(t.outcome))
      && (t.Running? ==> PairedSoFar(g, e0s + [e0], e1s, t))
  {
    assert e0 in e0s + [e0];
    var t := NumeratorStep(m, names, g, u0, v0, e0, prev.hm, prev.value, prev.pairs);
    NumeratorStepShape(m, names, g, u0, v0, e0, prev.hm, prev.value, prev.pairs);
    if t.Running? {
      var tp := EdgeLabel(g, e0).topology;
      var lst := prev.hm[tp];
      var e1 := lst[|lst| - 1];
      RE.PopStep(g, e1s, prev.hm, Seconds(prev.pairs), tp);
      PairedAppend(g, e0s, e0, e1, e1s, prev, t);
    }
  }

  /** A numerator loop that ran through has paired every u-corner edge, in
      order, with a v-corner edge of the same topology popped from the
      hashmap, and its product is not zero; one that stopped returned False
      or raised one of the listed errors. */
  lemma {:induction false} NumeratorRunPairs(m: RE.Weights, names: seq<string>, g: Graph, u0: Vertex, v0: Vertex,
                                             e0s: seq<Edge>, e1s: seq<Edge>)
    requires InGraph(g, e0s) && InGraph(g, e1s)
    ensures var t := NumeratorRun(m, names, g, u0, v0, e0s, Hashmap(g, e1s));
      (t.Stopped? ==> StopOutcome(t.outcome))
      && (t.Running? ==> PairedSoFar(g, e0s, e1s, t))
  {
    if e0s == [] {
      NumeratorStart(g, e1s);
    } else {
      var e0s', e0 := e0s[..|e0s| - 1], e0s[|e0s| - 1];
      assert e0s == e0s' + [e0];
      assert forall x :: x in e0s' ==> x in e0s;
      NumeratorRunPairs(m, names, g, u0, v0, e0s', e1s);
      NumeratorRunLast(m, names, g, u0, v0, e0s, Hashmap(g, e1s));
      var prev := NumeratorRun(m, names, g, u0, v0, e0s', Hashmap(g, e1s));
      if prev.Running? {
        NumeratorStepKeeps(m, names, g, u0, v0, e0s', e0, e1s, prev);
      }
    }
  }

  /** Before the loop: nothing paired, the product 1 and the full hashmap. */
  lemma NumeratorStart(g: Graph, e1s: seq<Edge>)
    requires InGraph(g, e1s)
    ensures PairedSoFar(g, [], e1s, Running(Hashmap(g, e1s), 1.0, []))
  {
    var hm0 := Hashmap(g, e1s);
    forall t | t in hm0
      ensures hm0[t] == Bucket(g, e1s, t)
    {
      HashmapBuckets(g, e1s, t);
    }
    forall t ensures t in hm0 <==> exists x :: x in e1s && EdgeLabel(g, x).topology == t {
      HashmapBuckets(g, e1s, t);
    }
    RE.UnpoppedStart(g, e1s, hm0);
    assert Firsts<Edge>([]) == [] && Seconds<Edge>([]) == [];
  }

  /** The numerator loop over a non-empty corner is the loop over all but
      its last edge followed by one more pass, unless it already stopped. */
  lemma NumeratorRunLast(m: RE.Weights, names: seq<string>, g: Graph, u0: Vertex, v0: Vertex,
                         e0s: seq<Edge>, hm0: map<string, seq<Edge>>)
    requires InGraph(g, e0s) && e0s != []
    ensures InGraph(g, e0s[..|e0s| - 1]) && HasEdge(g, e0s[|e0s| - 1].0, e0s[|e0s| - 1].1)
    ensures var prev := NumeratorRun(m, names, g, u0, v0, e0s[..|e0s| - 1], hm0);
      NumeratorRun(m, names, g, u0, v0, e0s, hm0)
      == if prev.Stopped? then prev else NumeratorStep(m, names, g, u0, v0, e0s[|e0s| - 1], prev.hm, prev.value, prev.pairs)
  {
    assert forall x :: x in e0s[..|e0s| - 1] ==> x in e0s;
    assert e0s[|e0s| - 1] in e0s;
  }

  /** The matched partners are distinct v-corner edges: a sub-multiset of
      the v-corner. */
  lemma NumeratorPartners(m: RE.Weights, names: seq<string>, g: Graph, u0: Vertex, v0: Vertex,
                          e0s: seq<Edge>, e1s: seq<Edge>)
    requires InGraph(g, e0s) && InGraph(g, e1s)
    requires NumeratorRun(m, names, g, u0, v0, e0s, Hashmap(g, e1s)).Running?
    ensures multiset(Seconds(NumeratorRun(m, names, g, u0, v0, e0s, Hashmap(g, e1s)).pairs)) <= multiset(e1s)
  {
    NumeratorRunPairs(m, names, g, u0, v0, e0s, e1s);
    var t := NumeratorRun(m, names, g, u0, v0, e0s, Hashmap(g, e1s));
    forall x | x in Seconds(t.pairs) ensures x in e1s {
      var i :| 0 <= i < |t.pairs| && Seconds(t.pairs)[i] == x;
    }
    RE.TakenBag(g, e1s, t.hm, Seconds(t.pairs));
  }

  /** A denominator loop that ran through met only zipped pairs of equal
      topology; one that stopped returned False or raised. */
  lemma {:induction false} DenominatorRunTopologies(m: RE.Weights, names: seq<string>, g: Graph, zs: seq<(Edge, Edge)>)
    requires ZippedInGraph(g, zs)
    ensures var b := DenominatorRun(m, names, g, zs);
      (b.Halted? ==> StopOutcome(b.outcome))
      && (b.Partial? ==> forall i :: 0 <= i < |zs| ==> EdgeLabel(g, zs[i].0).topology == EdgeLabel(g, zs[i].1).topology)
  {
    if zs != [] {
      var zs' := zs[..|zs| - 1];
      DenominatorRunTopologies(m, names, g, zs');
      if DenominatorRun(m, names, g, zs').Partial? && DenominatorRun(m, names, g, zs).Partial? {
        forall i | 0 <= i < |zs| ensures EdgeLabel(g, zs[i].0).topology == EdgeLabel(g, zs[i].1).topology {
          if i < |zs'| {
            assert zs[i] == zs'[i];
          }
        }
      }
    }
  }

  /** How `SwapOutcome` decides, in terms of the two loops. */
  lemma SwapOutcomeShape(m: RE.Weights, names: seq<string>, g: Graph, e0s: seq<Edge>, e1s: seq<Edge>,
                         u0: Vertex, v0: Vertex, rnd: real)
    requires InGraph(g, e0s) && InGraph(g, e1s)
    ensures ZippedInGraph(g, Zip(e0s, e1s))
    ensures var o, top := SwapOutcome(m, names, g, e0s, e1s, u0, v0, rnd), NumeratorRun(m, names, g, u0, v0, e0s, Hashmap(g, e1s));
      var bottom := DenominatorRun(m, names, g, Zip(e0s, e1s));
      (top.Stopped? ==> o == top.outcome)
      && (top.Running? && bottom.Halted? ==> o == bottom.outcome)
      && (top.Running? && bottom.Partial? ==>
            o == if bottom.value == 0.0 then Err(TypeError) else Ok(top.value / bottom.value > rnd))
  {
    ZipInGraph(g, e0s, e1s);
  }

  /** What `swap_condition` returns: an error is one of the listed ones,
      and an accepted swap has a full pairing by topology, zipped corners of
      matching topologies, a non-zero denominator and a ratio above `rnd`. */
  lemma SwapOutcomeMeaning(m: RE.Weights, names: seq<string>, g: Graph, e0s: seq<Edge>, e1s: seq<Edge>,
                           u0: Vertex, v0: Vertex, rnd: real)
    requires InGraph(g, e0s) && InGraph(g, e1s)
    ensures StopOutcome(SwapOutcome(m, names, g, e0s, e1s, u0, v0, rnd)) || SwapOutcome(m, names, g, e0s, e1s, u0, v0, rnd).Ok?
    ensures SwapOutcome(m, names, g, e0s, e1s, u0, v0, rnd) == Ok(true) ==>
      var top := NumeratorRun(m, names, g, u0, v0, e0s, Hashmap(g, e1s));
      ZippedInGraph(g, Zip(e0s, e1s)) &&
      var bottom := DenominatorRun(m, names, g, Zip(e0s, e1s));
      top.Running? && bottom.Partial? && bottom.value != 0.0 && top.value / bottom.value > rnd
      && Firsts(top.pairs) == e0s && multiset(Seconds(top.pairs)) <= multiset(e1s)
      && PartnersMatch(g, e0s, e1s, top.pairs)
      && (forall i :: 0 <= i < |e0s| && i < |e1s| ==> EdgeLabel(g, e0s[i]).topology == EdgeLabel(g, e1s[i]).topology)
  {
    SwapOutcomeShape(m, names, g, e0s, e1s, u0, v0, rnd);
    NumeratorRunPairs(m, names, g, u0, v0, e0s, e1s);
    DenominatorRunTopologies(m, names, g, Zip(e0s, e1s));
    var top := NumeratorRun(m, names, g, u0, v0, e0s, Hashmap(g, e1s));
    if top.Running? {
      NumeratorPartners(m, names, g, u0, v0, e0s, e1s);
      var zs := Zip(e0s, e1s);
      forall i | 0 <= i < |e0s| && i < |e1s|
        ensures DenominatorRun(m, names, g, zs).Partial? ==> EdgeLabel(g, e0s[i]).topology == EdgeLabel(g, e1s[i]).topology
      {
        assert zs[i] == (e0s[i], e1s[i]);
      }
    }
  }

  // ----- corners paired by topology but zipped by position -----

  /** Two motifs with an edge of topology a and one of topology b at each
      of u0 = 0 and v0 = 3, in the orders a, b and b, a; every vertex has
      joint degree [1, 1]. */
  function MismatchGraph(): Graph
  {
    Graph(map[(0, 1) := Label("a", 1), (0, 2) := Label("b", 1), (3, 4) := Label("b", 2), (3, 5) := Label("a", 2)],
          map[0 := [1, 1], 1 := [1, 1], 2 := [1, 1], 3 := [1, 1], 4 := [1, 1], 5 := [1, 1]])
  }

  const MismatchU: seq<Edge> := [(0, 1), (0, 2)]
  const MismatchV: seq<Edge> := [(3, 4), (3, 5)]
  const MismatchNames: seq<string> := ["a", "b"]
  const MismatchWeights: RE.Weights := map["a" := map[[0, 1, 0, 1] := 1.0], "b" := map[[1, 0, 1, 0] := 1.0]]

  lemma MismatchHashmaps()
    ensures InGraph(MismatchGraph(), MismatchU) && InGraph(MismatchGraph(), MismatchV)
    ensures Hashmap(MismatchGraph(), MismatchU) == map["a" := [(0, 1)], "b" := [(0, 2)]]
    ensures Hashmap(MismatchGraph(), MismatchV) == map["b" := [(3, 4)], "a" := [(3, 5)]]
  {
    var g := MismatchGraph();
    var e0s, e1s := MismatchU, MismatchV;
    assert InGraph(g, e0s) && InGraph(g, e1s);
    var a1: seq<Edge>, b1: seq<Edge> := [(0, 1)], [(3, 4)];
    var a2: seq<Edge>, b2: seq<Edge>, none: seq<Edge> := [(0, 2)], [(3, 5)], [];
    assert e0s[..1] == a1 && e1s[..1] == b1 && a1[..0] == [] && b1[..0] == [];
    assert none + a1 == a1 && none + b1 == b1 && none + a2 == a2 && none + b2 == b2;
    assert Hashmap(g, a1) == map["a" := a1];
    assert Hashmap(g, b1) == map["b" := b1];
  }

  lemma MismatchSuitable()
    ensures InGraph(MismatchGraph(), MismatchU) && InGraph(MismatchGraph(), MismatchV)
    ensures ZipSuitable(MismatchGraph(), 0, 3, MismatchU, MismatchV)
  {
    MismatchHashmaps();
    MismatchPairs();
    assert "a" != "b";
    var h0, h1 := Hashmap(MismatchGraph(), MismatchU), Hashmap(MismatchGraph(), MismatchV);
    assert h0.Keys == {"a", "b"} == h1.Keys;
  }

  lemma MismatchPairs()
    ensures InGraph(MismatchGraph(), MismatchU) && InGraph(MismatchGraph(), MismatchV)
    ensures forall i :: 0 <= i < 2 ==> PairSuitable(MismatchGraph(), 0, 3, MismatchU[i], MismatchV[i])
  {
    var g := MismatchGraph();
    assert InGraph(g, MismatchU) && InGraph(g, MismatchV);
    assert PairSuitable(g, 0, 3, (0, 1), (3, 4));
    assert PairSuitable(g, 0, 3, (0, 2), (3, 5));
  }

  lemma MismatchKeys(e0: Edge, e1: Edge, index: nat)
    requires e0.0 == 0 && e1.0 == 3 && e0.1 in {1, 2} && e1.1 in {4, 5} && index < 2
    ensures SwappedKeyPair(MismatchGraph(), e0, e1, 0, 3, index)
      == Ok((Excess([1, 1], index) + Excess([1, 1], index), Excess([1, 1], index) + Excess([1, 1], index)))
  {
    var g := MismatchGraph();
    var us := [0, e0.1, 3, e1.1];
    assert forall u :: u in us ==> u in g.jd && g.jd[u] == [1, 1];
  }

  /** The first pass pops (3, 5), the v-corner edge of topology a. */
  lemma MismatchFirstPass(hm: map<string, seq<Edge>>)
    requires hm == map["b" := [(3, 4)], "a" := [(3, 5)]]
    ensures var t := NumeratorStep(MismatchWeights, MismatchNames, MismatchGraph(), 0, 3, (0, 1), hm, 1.0, []);
      t.Running? && t.value == 1.0 && "b" in t.hm && t.hm["b"] == [(3, 4)]
  {
    assert "a" != "b";
    assert TopologyIndex(MismatchNames, "a") == Ok(0);
    assert Excess([1, 1], 0) == [0, 1];
    MismatchKeys((0, 1), (3, 5), 0);
    assert EdgeLabel(MismatchGraph(), (0, 1)).topology == "a";
    assert [0, 1] + [0, 1] == [0, 1, 0, 1];
    assert RE.Weight(MismatchWeights, "a", [0, 1, 0, 1]) == Some(1.0);
  }

  /** The second pass pops (3, 4), the v-corner edge of topology b. */
  lemma MismatchSecondPass(hm: map<string, seq<Edge>>, pairs: seq<(Edge, Edge)>)
    requires "b" in hm && hm["b"] == [(3, 4)]
    ensures NumeratorStep(MismatchWeights, MismatchNames, MismatchGraph(), 0, 3, (0, 2), hm, 1.0, pairs).Running?
  {
    assert "a" != "b";
    assert TopologyIndex(MismatchNames, "b") == Ok(1);
    assert Excess([1, 1], 1) == [1, 0];
    MismatchKeys((0, 2), (3, 4), 1);
    assert EdgeLabel(MismatchGraph(), (0, 2)).topology == "b";
    assert [1, 0] + [1, 0] == [1, 0, 1, 0];
    assert RE.Weight(MismatchWeights, "b", [1, 0, 1, 0]) == Some(1.0);
  }

  lemma MismatchNumerator()
    ensures InGraph(MismatchGraph(), MismatchU) && InGraph(MismatchGraph(), MismatchV)
    ensures NumeratorRun(MismatchWeights, MismatchNames, MismatchGraph(), 0, 3, MismatchU, Hashmap(MismatchGraph(), MismatchV)).Running?
  {
    MismatchHashmaps();
    var g, names, m := MismatchGraph(), MismatchNames, MismatchWeights;
    var e0s, h1 := MismatchU, Hashmap(MismatchGraph(), MismatchV);
    var a1: seq<Edge> := [(0, 1)];
    assert e0s[..1] == a1;
    NumeratorRunLast(m, names, g, 0, 3, a1, h1);
    assert a1[..0] == [];
    MismatchFirstPass(h1);
    var n1 := NumeratorRun(m, names, g, 0, 3, a1, h1);
    NumeratorRunLast(m, names, g, 0, 3, e0s, h1);
    MismatchSecondPass(n1.hm, n1.pairs);
  }

  lemma MismatchDenominator()
    ensures InGraph(MismatchGraph(), MismatchU) && InGraph(MismatchGraph(), MismatchV)
    ensures ZippedInGraph(MismatchGraph(), Zip(MismatchU, MismatchV))
    ensures DenominatorRun(MismatchWeights, MismatchNames, MismatchGraph(), Zip(MismatchU, MismatchV)) == Halted(Err(TypeError))
  {
    MismatchHashmaps();
    var g := MismatchGraph();
    ZipInGraph(g, MismatchU, MismatchV);
    var zs := Zip(MismatchU, MismatchV);
    assert "a" != "b";
    assert zs == [((0, 1), (3, 4)), ((0, 2), (3, 5))];
    assert zs[..1][..0] == [];
    assert DenominatorRun(MismatchWeights, MismatchNames, g, zs[..1]) == Halted(Err(TypeError));
  }

  /** Corners of the same topologies in a different order pass the
      suitability test and the numerator, which pairs by topology, and then
      raise in the denominator, which pairs by position. */
  lemma MismatchedOrderRaises(rnd: real)
    ensures InGraph(MismatchGraph(), MismatchU) && InGraph(MismatchGraph(), MismatchV)
    ensures ZipSuitable(MismatchGraph(), 0, 3, MismatchU, MismatchV)
    ensures NumeratorRun(MismatchWeights, MismatchNames, MismatchGraph(), 0, 3, MismatchU, Hashmap(MismatchGraph(), MismatchV)).Running?
    ensures SwapOutcome(MismatchWeights, MismatchNames, MismatchGraph(), MismatchU, MismatchV, 0, 3, rnd) == Err(TypeError)
  {
    MismatchSuitable();
    MismatchNumerator();
    MismatchDenominator();
    SwapOutcomeShape(MismatchWeights, MismatchNames, MismatchGraph(), MismatchU, MismatchV, 0, 3, rnd);
  }

  // ----- the accept branch of `rewire` -----

  /** The edges the accept branch adds for a corner at `a` that moves to
      `b`: (b, other end) with the labels the corner edge has in g. */
  function Moved(g: Graph, a: Vertex, b: Vertex, es: seq<Edge>): (ms: seq<ProposalEdge>)
    requires InGraph(g, es) && Oriented(a, es)
    ensures |ms| == |es|
  {
    seq(|es|, i requires 0 <= i < |es| =>
      var l := EdgeLabel(g, es[i]);
      ProposalEdge(l.topology, l.motifId, (b, OtherVertex(a, es[i]).value)))
  }

  /** One of the two add loops of the accept branch: for every corner edge
      (a, x) in order, `G.add_edge(b, x)` with the labels that edge has at
      that moment. An edge already present is not an error: it is
      relabelled. */
  function MoveCorner(g: Graph, a: Vertex, b: Vertex, es: seq<Edge>): (r: Graph)
    requires InGraph(g, es) && Oriented(a, es)
    ensures r.jd == g.jd
    ensures forall e :: e in g.edges ==> e in r.edges
  {
    if es == [] then g
    else
      assert forall x :: x in es[..|es| - 1] ==> x in es;
      var prev := MoveCorner(g, a, b, es[..|es| - 1]);
      var e := es[|es| - 1];
      assert e in es;
      AddEdge(prev, (b, OtherVertex(a, e).value), EdgeLabel(prev, e))
  }

  lemma InGraphGrows(g: Graph, g': Graph, es: seq<Edge>)
    requires InGraph(g, es) && forall e :: e in g.edges ==> e in g'.edges
    ensures InGraph(g', es)
  {
  }

  /** The accept branch: both add loops, the removal of the zipped
      originals, and the edge-count check, which raises a formatted string
      (a TypeError). */
  function AcceptStep(g: Graph, u0: Vertex, v0: Vertex, e0s: seq<Edge>, e1s: seq<Edge>, n: nat): Result<Graph>
    requires InGraph(g, e0s) && InGraph(g, e1s) && Oriented(u0, e0s) && Oriented(v0, e1s)
  {
    var g1 := MoveCorner(g, u0, v0, e0s);
    InGraphGrows(g, g1, e1s);
    var g2 := MoveCorner(g1, v0, u0, e1s);
    var g3 :- RemoveEdges(g2, Originals(e0s, e1s));
    if NumberOfEdges(g3) != n then Err(TypeError) else Ok(g3)
  }

  /** One add of a move: relabelling an edge keeps the count, adding a new
      one raises it by one. */
  lemma MoveOne(g: Graph, e: Edge, l: Label)
    requires Canonical(g)
    ensures Canonical(AddEdge(g, e, l))
    ensures NumberOfEdges(AddEdge(g, e, l)) == NumberOfEdges(g) + (if HasEdge(g, e.0, e.1) then 0 else 1)
    ensures !HasEdge(g, e.0, e.1) ==>
      Endpoints(AddEdge(g, e, l)) == Endpoints(g) + multiset{e.0, e.1}
      && Labels(AddEdge(g, e, l)) == Labels(g) + multiset{l}
      && forall x :: x in g.edges ==> AddEdge(g, e, l).edges[x] == g.edges[x]
  {
    if HasEdge(g, e.0, e.1) {
      AddEdgeExisting(g, e, l);
    } else {
      AddEdgeEffect(g, e, l);
    }
  }

  /** An add loop is stored sorted and adds at most one edge per corner
      edge. */
  lemma {:induction false} MoveCornerCount(g: Graph, a: Vertex, b: Vertex, es: seq<Edge>)
    requires Canonical(g) && InGraph(g, es) && Oriented(a, es)
    ensures Canonical(MoveCorner(g, a, b, es))
    ensures NumberOfEdges(MoveCorner(g, a, b, es)) <= NumberOfEdges(g) + |es|
  {
    if es != [] {
      var es', e := es[..|es| - 1], es[|es| - 1];
      assert forall x :: x in es' ==> x in es;
      assert e in es;
      MoveCornerCount(g, a, b, es');
      var prev := MoveCorner(g, a, b, es');
      MoveOne(prev, (b, OtherVertex(a, e).value), EdgeLabel(prev, e));
    }
  }

  /** What an add loop whose count reached the count before plus the
      corner size did: every add was new, the old edges keep their labels,
      and the endpoints and labels grew by exactly the moved edges. */
  lemma {:induction false} MoveCornerFresh(g: Graph, a: Vertex, b: Vertex, es: seq<Edge>)
    requires Canonical(g) && InGraph(g, es) && Oriented(a, es)
    requires NumberOfEdges(MoveCorner(g, a, b, es)) == NumberOfEdges(g) + |es|
    ensures var r := MoveCorner(g, a, b, es);
      (forall e :: e in g.edges ==> r.edges[e] == g.edges[e])
      && Endpoints(r) == Endpoints(g) + SeqBag(Moved(g, a, b, es), ProposalEnds)
      && Labels(r) == Labels(g) + SeqBag(Moved(g, a, b, es), ProposalLabelBag)
  {
    if es != [] {
      var es', e := es[..|es| - 1], es[|es| - 1];
      assert forall x :: x in es' ==> x in es;
      assert e in es;
      var prev := MoveCorner(g, a, b, es');
      MoveCornerCount(g, a, b, es');
      MoveOne(prev, (b, OtherVertex(a, e).value), EdgeLabel(prev, e));
      MoveCornerFresh(g, a, b, es');
      MoveLast(g, prev, a, b, es);
    }
  }

  /** The last add of a loop whose earlier adds were all new. */
  lemma MoveLast(g: Graph, prev: Graph, a: Vertex, b: Vertex, es: seq<Edge>)
    requires InGraph(g, es) && Oriented(a, es) && es != [] && Canonical(prev)
    requires prev == MoveCorner(g, a, b, es[..|es| - 1])
    requires var e := es[|es| - 1]; !HasEdge(prev, b, OtherVertex(a, e).value)
    requires forall e :: e in g.edges ==> prev.edges[e] == g.edges[e]
    requires Endpoints(prev) == Endpoints(g) + SeqBag(Moved(g, a, b, es[..|es| - 1]), ProposalEnds)
    requires Labels(prev) == Labels(g) + SeqBag(Moved(g, a, b, es[..|es| - 1]), ProposalLabelBag)
    ensures var r := MoveCorner(g, a, b, es);
      (forall e :: e in g.edges ==> r.edges[e] == g.edges[e])
      && Endpoints(r) == Endpoints(g) + SeqBag(Moved(g, a, b, es), ProposalEnds)
      && Labels(r) == Labels(g) + SeqBag(Moved(g, a, b, es), ProposalLabelBag)
  {
    var es', e := es[..|es| - 1], es[|es| - 1];
    assert forall x :: x in es' ==> x in es;
    assert e in es;
    var ne := (b, OtherVertex(a, e).value);
    var l := EdgeLabel(prev, e);
    assert l == EdgeLabel(g, e);
    var r := MoveCorner(g, a, b, es);
    assert r == AddEdge(prev, ne, l);
    MoveOne(prev, ne, l);
    MovedLast(g, a, b, es);
    var pe, pe' := SeqBag(Moved(g, a, b, es), ProposalEnds), SeqBag(Moved(g, a, b, es'), ProposalEnds);
    var pl, pl' := SeqBag(Moved(g, a, b, es), ProposalLabelBag), SeqBag(Moved(g, a, b, es'), ProposalLabelBag);
    BagStep(Endpoints(r), Endpoints(prev), Endpoints(g), pe, pe', multiset{ne.0, ne.1});
    BagStep(Labels(r), Labels(prev), Labels(g), pl, pl', multiset{l});
  }

  lemma BagStep<X>(r: multiset<X>, prev: multiset<X>, g: multiset<X>, s: multiset<X>, s': multiset<X>, x: multiset<X>)
    requires r == prev + x && prev == g + s' && s == s' + x
    ensures r == g + s
  {
  }

  lemma MovedLast(g: Graph, a: Vertex, b: Vertex, es: seq<Edge>)
    requires InGraph(g, es) && Oriented(a, es) && es != []
    ensures InGraph(g, es[..|es| - 1]) && Oriented(a, es[..|es| - 1]) && HasEdge(g, es[|es| - 1].0, es[|es| - 1].1)
    ensures var e := es[|es| - 1];
      SeqBag(Moved(g, a, b, es), ProposalEnds)
        == SeqBag(Moved(g, a, b, es[..|es| - 1]), ProposalEnds) + multiset{b, OtherVertex(a, e).value}
      && SeqBag(Moved(g, a, b, es), ProposalLabelBag)
        == SeqBag(Moved(g, a, b, es[..|es| - 1]), ProposalLabelBag) + multiset{EdgeLabel(g, e)}
  {
    var es', e := es[..|es| - 1], es[|es| - 1];
    assert forall x :: x in es' ==> x in es;
    assert e in es;
    var ms, ms' := Moved(g, a, b, es), Moved(g, a, b, es');
    assert ms[..|ms| - 1] == ms';
  }

  /** Each moved edge of es is in r, new to g, with its corner edge's labels. */
  ghost predicate Placed(g: Graph, r: Graph, a: Vertex, b: Vertex, es: seq<Edge>)
    requires InGraph(g, es) && Oriented(a, es)
  {
    var ms := Moved(g, a, b, es);
    forall i :: 0 <= i < |es| ==>
      Sorted(ms[i].newEdge) !in g.edges && Sorted(ms[i].newEdge) in r.edges
      && r.edges[Sorted(ms[i].newEdge)] == EdgeLabel(g, es[i])
  }

  /** In an add loop whose every add was new, each moved edge ends up in
      the graph, new to g, with the labels of its corner edge. */
  lemma {:induction false} MoveCornerPlaces(g: Graph, a: Vertex, b: Vertex, es: seq<Edge>)
    requires Canonical(g) && InGraph(g, es) && Oriented(a, es)
    requires NumberOfEdges(MoveCorner(g, a, b, es)) == NumberOfEdges(g) + |es|
    ensures Placed(g, MoveCorner(g, a, b, es), a, b, es)
  {
    if es != [] {
      var es', e := es[..|es| - 1], es[|es| - 1];
      assert forall x :: x in es' ==> x in es;
      assert e in es;
      var prev := MoveCorner(g, a, b, es');
      MoveCornerCount(g, a, b, es');
      MoveOne(prev, (b, OtherVertex(a, e).value), EdgeLabel(prev, e));
      MoveCornerFresh(g, a, b, es');
      MoveCornerPlaces(g, a, b, es');
      PlacedLast(g, prev, a, b, es);
    }
  }

  /** The step of MoveCornerPlaces: a new last add keeps the earlier moved
      edges and places the last one. */
  lemma PlacedLast(g: Graph, prev: Graph, a: Vertex, b: Vertex, es: seq<Edge>)
    requires InGraph(g, es) && Oriented(a, es) && es != []
    requires InGraph(g, es[..|es| - 1]) && Oriented(a, es[..|es| - 1])
    requires prev == MoveCorner(g, a, b, es[..|es| - 1])
    requires var e := es[|es| - 1]; !HasEdge(prev, b, OtherVertex(a, e).value)
    requires forall e :: e in g.edges ==> prev.edges[e] == g.edges[e]
    requires Placed(g, prev, a, b, es[..|es| - 1])
    ensures Placed(g, MoveCorner(g, a, b, es), a, b, es)
  {
    var es', e := es[..|es| - 1], es[|es| - 1];
    assert e in es;
    var r := MoveCorner(g, a, b, es);
    var x := (b, OtherVertex(a, e).value);
    assert r == AddEdge(prev, x, EdgeLabel(prev, e));
    MovedPrefix(g, a, b, es);
    var ms, ms' := Moved(g, a, b, es), Moved(g, a, b, es');
    assert ms[|es| - 1].newEdge == x;
    forall i | 0 <= i < |es|
      ensures Sorted(ms[i].newEdge) !in g.edges && Sorted(ms[i].newEdge) in r.edges
        && r.edges[Sorted(ms[i].newEdge)] == EdgeLabel(g, es[i])
    {
      if i < |es| - 1 {
        assert ms[i] == ms'[i] && es[i] == es'[i];
        assert Sorted(ms'[i].newEdge) in prev.edges;
      }
    }
  }

  /** Dropping the last corner edge drops the last moved edge. */
  lemma MovedPrefix(g: Graph, a: Vertex, b: Vertex, es: seq<Edge>)
    requires InGraph(g, es) && Oriented(a, es) && es != []
    ensures InGraph(g, es[..|es| - 1]) && Oriented(a, es[..|es| - 1])
    ensures forall i :: 0 <= i < |es| - 1 ==> Moved(g, a, b, es)[i] == Moved(g, a, b, es[..|es| - 1])[i]
  {
    var es' := es[..|es| - 1];
    assert forall x :: x in es' ==> x in es;
    var ms, ms' := Moved(g, a, b, es), Moved(g, a, b, es');
    forall i | 0 <= i < |es'|
      ensures ms[i] == ms'[i]
    {
      assert es[i] in es && es[i] == es'[i];
    }
  }

  /** The moved edges depend only on the labels of the corner edges. */
  lemma MovedAgree(g: Graph, g1: Graph, a: Vertex, b: Vertex, es: seq<Edge>)
    requires InGraph(g, es) && Oriented(a, es) && InGraph(g1, es)
    requires forall e :: e in g.edges ==> e in g1.edges && g1.edges[e] == g.edges[e]
    ensures Moved(g1, a, b, es) == Moved(g, a, b, es)
  {
    assert forall i :: 0 <= i < |es| ==> es[i] in es;
  }

  /** Moving u0's corner to v0 and v0's corner to u0 adds, pair by pair,
      the endpoints and labels the zipped originals carry. */
  lemma MovedBalance(g: Graph, u0: Vertex, v0: Vertex, e0s: seq<Edge>, e1s: seq<Edge>)
    requires InGraph(g, e0s) && InGraph(g, e1s) && Oriented(u0, e0s) && Oriented(v0, e1s) && |e0s| == |e1s|
    ensures SeqBag(Moved(g, u0, v0, e0s), ProposalEnds) + SeqBag(Moved(g, v0, u0, e1s), ProposalEnds)
            == SeqBag(Originals(e0s, e1s), EdgeEnds)
    ensures SeqBag(Moved(g, u0, v0, e0s), ProposalLabelBag) + SeqBag(Moved(g, v0, u0, e1s), ProposalLabelBag)
            == SeqBag(Originals(e0s, e1s), LabelIn(g))
  {
    MovedBalanceEnds(g, u0, v0, e0s, e1s);
    MovedBalanceLabels(g, u0, v0, e0s, e1s);
  }

  lemma MovedBalanceEnds(g: Graph, u0: Vertex, v0: Vertex, e0s: seq<Edge>, e1s: seq<Edge>)
    requires InGraph(g, e0s) && InGraph(g, e1s) && Oriented(u0, e0s) && Oriented(v0, e1s) && |e0s| == |e1s|
    ensures var m0, m1 := Moved(g, u0, v0, e0s), Moved(g, v0, u0, e1s);
      SeqBag(m0, ProposalEnds) + SeqBag(m1, ProposalEnds) == SeqBag(Originals(e0s, e1s), EdgeEnds)
  {
    var m0, m1 := Moved(g, u0, v0, e0s), Moved(g, v0, u0, e1s);
    forall i | 0 <= i < |e0s|
      ensures ProposalEnds(Zip(m0, m1)[i].0) + ProposalEnds(Zip(m0, m1)[i].1)
              == EdgeEnds(Zip(e0s, e1s)[i].0) + EdgeEnds(Zip(e0s, e1s)[i].1)
    {
      MovedPairEnds(g, u0, v0, e0s, e1s, i);
    }
    PairwiseBag(Zip(m0, m1), Zip(e0s, e1s), ProposalEnds, EdgeEnds);
    ZipHalves(m0, m1);
    ZipHalves(e0s, e1s);
    OriginalsBag(e0s, e1s, EdgeEnds);
  }

  /** The i-th moved pair has the endpoints of the i-th zipped pair. */
  lemma MovedPairEnds(g: Graph, u0: Vertex, v0: Vertex, e0s: seq<Edge>, e1s: seq<Edge>, i: nat)
    requires InGraph(g, e0s) && InGraph(g, e1s) && Oriented(u0, e0s) && Oriented(v0, e1s) && i < |e0s| == |e1s|
    ensures ProposalEnds(Moved(g, u0, v0, e0s)[i]) + ProposalEnds(Moved(g, v0, u0, e1s)[i])
            == EdgeEnds(e0s[i]) + EdgeEnds(e1s[i])
  {
    assert e0s[i] in e0s && e1s[i] in e1s;
    var o0, o1 := OtherVertex(u0, e0s[i]).value, OtherVertex(v0, e1s[i]).value;
    assert Moved(g, u0, v0, e0s)[i].newEdge == (v0, o0);
    assert Moved(g, v0, u0, e1s)[i].newEdge == (u0, o1);
    OtherVertexEnds(u0, e0s[i]);
    OtherVertexEnds(v0, e1s[i]);
    SwapEnds(v0, o0, u0, o1);
  }

  lemma SwapEnds(a: Vertex, b: Vertex, c: Vertex, d: Vertex)
    ensures multiset{a, b} + multiset{c, d} == multiset{c, b} + multiset{a, d}
  {
  }

  lemma MovedBalanceLabels(g: Graph, u0: Vertex, v0: Vertex, e0s: seq<Edge>, e1s: seq<Edge>)
    requires InGraph(g, e0s) && InGraph(g, e1s) && Oriented(u0, e0s) && Oriented(v0, e1s) && |e0s| == |e1s|
    ensures var m0, m1 := Moved(g, u0, v0, e0s), Moved(g, v0, u0, e1s);
      SeqBag(m0, ProposalLabelBag) + SeqBag(m1, ProposalLabelBag) == SeqBag(Originals(e0s, e1s), LabelIn(g))
  {
    var m0, m1 := Moved(g, u0, v0, e0s), Moved(g, v0, u0, e1s);
    forall i | 0 <= i < |e0s|
      ensures ProposalLabelBag(Zip(m0, m1)[i].0) + ProposalLabelBag(Zip(m0, m1)[i].1)
              == LabelIn(g)(Zip(e0s, e1s)[i].0) + LabelIn(g)(Zip(e0s, e1s)[i].1)
    {
      assert e0s[i] in e0s && e1s[i] in e1s;
    }
    PairwiseBag(Zip(m0, m1), Zip(e0s, e1s), ProposalLabelBag, LabelIn(g));
    ZipHalves(m0, m1);
    ZipHalves(e0s, e1s);
    OriginalsBag(e0s, e1s, LabelIn(g));
  }

  /** The originals of two corners of g are edges of g. */
  lemma OriginalsInGraph(g: Graph, e0s: seq<Edge>, e1s: seq<Edge>)
    requires InGraph(g, e0s) && InGraph(g, e1s)
    ensures InGraph(g, Originals(e0s, e1s))
  {
    var os := Originals(e0s, e1s);
    forall x | x in os ensures HasEdge(g, x.0, x.1) {
      var k :| 0 <= k < |os| && os[k] == x;
      InterleaveAt(Zip(e0s, e1s), k);
      assert e0s[k / 2] in e0s && e1s[k / 2] in e1s;
    }
  }

  /** A successful accept step is the removal of the originals from the
      graph both add loops left, with the count it was given. */
  lemma AcceptStepParts(g: Graph, u0: Vertex, v0: Vertex, e0s: seq<Edge>, e1s: seq<Edge>, n: nat)
    requires InGraph(g, e0s) && InGraph(g, e1s) && Oriented(u0, e0s) && Oriented(v0, e1s)
    requires AcceptStep(g, u0, v0, e0s, e1s, n).Ok?
    ensures InGraph(MoveCorner(g, u0, v0, e0s), e1s)
    ensures var g2 := MoveCorner(MoveCorner(g, u0, v0, e0s), v0, u0, e1s);
      RemoveEdges(g2, Originals(e0s, e1s)).Ok?
      && AcceptStep(g, u0, v0, e0s, e1s, n).value == RemoveEdges(g2, Originals(e0s, e1s)).value
      && NumberOfEdges(AcceptStep(g, u0, v0, e0s, e1s, n).value) == n
  {
    InGraphGrows(g, MoveCorner(g, u0, v0, e0s), e1s);
  }

  /** When the count comes out unchanged, each add loop added exactly one
      new edge per corner edge. */
  lemma AcceptStepCounts(g: Graph, u0: Vertex, v0: Vertex, e0s: seq<Edge>, e1s: seq<Edge>)
    requires Canonical(g) && InGraph(g, e0s) && InGraph(g, e1s) && Oriented(u0, e0s) && Oriented(v0, e1s)
    requires |e0s| == |e1s|
    requires AcceptStep(g, u0, v0, e0s, e1s, NumberOfEdges(g)).Ok?
    ensures InGraph(MoveCorner(g, u0, v0, e0s), e1s)
    ensures Canonical(MoveCorner(g, u0, v0, e0s))
    ensures NumberOfEdges(MoveCorner(g, u0, v0, e0s)) == NumberOfEdges(g) + |e0s|
    ensures var g1 := MoveCorner(g, u0, v0, e0s);
      Canonical(MoveCorner(g1, v0, u0, e1s))
      && NumberOfEdges(MoveCorner(g1, v0, u0, e1s)) == NumberOfEdges(g1) + |e1s|
  {
    AcceptStepParts(g, u0, v0, e0s, e1s, NumberOfEdges(g));
    var g1 := MoveCorner(g, u0, v0, e0s);
    var g2 := MoveCorner(g1, v0, u0, e1s);
    var os := Originals(e0s, e1s);
    MoveCornerCount(g, u0, v0, e0s);
    MoveCornerCount(g1, v0, u0, e1s);
    RemoveEdgesBags(g2, os);
  }

  /** An accept step whose edge count came out right kept everything
      `Preserved` describes: the check on the count forces every added
      edge to be new, and the moved edges then balance the removed ones. */
  lemma AcceptStepPreserves(g: Graph, u0: Vertex, v0: Vertex, e0s: seq<Edge>, e1s: seq<Edge>)
    requires Canonical(g) && InGraph(g, e0s) && InGraph(g, e1s) && Oriented(u0, e0s) && Oriented(v0, e1s)
    requires |e0s| == |e1s|
    requires AcceptStep(g, u0, v0, e0s, e1s, NumberOfEdges(g)).Ok?
    ensures RE.Preserved(AcceptStep(g, u0, v0, e0s, e1s, NumberOfEdges(g)).value, g)
  {
    AcceptStepCounts(g, u0, v0, e0s, e1s);
    AcceptStepParts(g, u0, v0, e0s, e1s, NumberOfEdges(g));
    var g1 := MoveCorner(g, u0, v0, e0s);
    var g2 := MoveCorner(g1, v0, u0, e1s);
    var os := Originals(e0s, e1s);
    var g3 := RemoveEdges(g2, os).value;
    MoveCornerFresh(g, u0, v0, e0s);
    MoveCornerFresh(g1, v0, u0, e1s);
    RemoveEdgesShape(g2, os);
    RemoveEdgesBags(g2, os);
    MovedAgree(g, g1, v0, u0, e1s);
    MovedBalance(g, u0, v0, e0s, e1s);
    OriginalsInGraph(g, e0s, e1s);
    LabelsInAgree(g, g2, os);
    BagBalance(Endpoints(g3), Endpoints(g2), Endpoints(g1), Endpoints(g),
               SeqBag(Moved(g, u0, v0, e0s), ProposalEnds), SeqBag(Moved(g, v0, u0, e1s), ProposalEnds), SeqBag(os, EdgeEnds));
    BagBalance(Labels(g3), Labels(g2), Labels(g1), Labels(g),
               SeqBag(Moved(g, u0, v0, e0s), ProposalLabelBag), SeqBag(Moved(g, v0, u0, e1s), ProposalLabelBag),
               SeqBag(os, LabelIn(g)));
  }

  /** u0 and v0 trade places: after an accept step whose count came out
      right, every u-corner edge (u0, u1) has become (v0, u1) and every
      v-corner edge (v0, v1) has become (u0, v1), each with the labels of
      the edge it replaces. */
  lemma AcceptStepMoves(g: Graph, u0: Vertex, v0: Vertex, e0s: seq<Edge>, e1s: seq<Edge>)
    requires Canonical(g) && InGraph(g, e0s) && InGraph(g, e1s) && Oriented(u0, e0s) && Oriented(v0, e1s)
    requires |e0s| == |e1s|
    requires AcceptStep(g, u0, v0, e0s, e1s, NumberOfEdges(g)).Ok?
    ensures var r := AcceptStep(g, u0, v0, e0s, e1s, NumberOfEdges(g)).value;
      (forall e :: e in e0s ==>
         var x := (v0, OtherVertex(u0, e).value);
         HasEdge(r, x.0, x.1) && !HasEdge(g, x.0, x.1) && EdgeLabel(r, x) == EdgeLabel(g, e))
      && (forall e :: e in e1s ==>
         var x := (u0, OtherVertex(v0, e).value);
         HasEdge(r, x.0, x.1) && !HasEdge(g, x.0, x.1) && EdgeLabel(r, x) == EdgeLabel(g, e))
  {
    AcceptStepCounts(g, u0, v0, e0s, e1s);
    AcceptStepParts(g, u0, v0, e0s, e1s, NumberOfEdges(g));
    var g1 := MoveCorner(g, u0, v0, e0s);
    var g2 := MoveCorner(g1, v0, u0, e1s);
    var os := Originals(e0s, e1s);
    var r := RemoveEdges(g2, os).value;
    MoveCornerFresh(g, u0, v0, e0s);
    MoveCornerFresh(g1, v0, u0, e1s);
    MoveCornerPlaces(g, u0, v0, e0s);
    MoveCornerPlaces(g1, v0, u0, e1s);
    RemoveEdgesShape(g2, os);
    OriginalsInGraph(g, e0s, e1s);
    PlacedSurvive(g, g, g1, g2, r, os, u0, v0, e0s);
    PlacedSurvive(g, g1, g2, g2, r, os, v0, u0, e1s);
  }

  /** The edges an add loop over g placed in h, new to g, survive into r:
      h's entries carry over to g2 and r is g2 without edges of g0, an
      older graph that g extends. */
  lemma PlacedSurvive(g0: Graph, g: Graph, h: Graph, g2: Graph, r: Graph, os: seq<Edge>,
                      a: Vertex, b: Vertex, es: seq<Edge>)
    requires InGraph(g0, es) && InGraph(g, es) && Oriented(a, es) && Placed(g, h, a, b, es)
    requires forall x :: x in g0.edges ==> x in g.edges && g.edges[x] == g0.edges[x]
    requires forall x :: x in h.edges ==> x in g2.edges && g2.edges[x] == h.edges[x]
    requires Canonical(g2) && InGraph(g0, os) && RemoveEdges(g2, os) == Ok(r)
    ensures forall e :: e in es ==>
      var x := (b, OtherVertex(a, e).value);
      HasEdge(r, x.0, x.1) && !HasEdge(g0, x.0, x.1) && EdgeLabel(r, x) == EdgeLabel(g0, e)
  {
    forall e | e in es
      ensures var x := (b, OtherVertex(a, e).value);
        HasEdge(r, x.0, x.1) && !HasEdge(g0, x.0, x.1) && EdgeLabel(r, x) == EdgeLabel(g0, e)
    {
      var i :| 0 <= i < |es| && es[i] == e;
      var x := Sorted((b, OtherVertex(a, e).value));
      assert x == Sorted(Moved(g, a, b, es)[i].newEdge);
      KeptAfterRemoval(g0, g2, r, os, x);
    }
  }

  /** An edge new to g survives the removal of edges of g. */
  lemma KeptAfterRemoval(g: Graph, g2: Graph, r: Graph, os: seq<Edge>, x: Edge)
    requires Canonical(g2) && InGraph(g, os) && RemoveEdges(g2, os) == Ok(r)
    requires x in g2.edges && x !in g.edges
    ensures x in r.edges && r.edges[x] == g2.edges[x]
  {
    RemoveEdgesShape(g2, os);
  }

  /** Two additions balanced by one removal leave the multiset unchanged. */
  lemma BagBalance<X>(g3: multiset<X>, g2: multiset<X>, g1: multiset<X>, g: multiset<X>,
                      m0: multiset<X>, m1: multiset<X>, o: multiset<X>)
    requires g1 == g + m0 && g2 == g1 + m1 && m0 + m1 == o && g2 == g3 + o
    ensures g3 == g
  {
    MultisetCancel(g3, g, o);
  }

  /** A numerator loop that stopped stays stopped. */
  lemma {:induction false} NumeratorRunStopped(m: RE.Weights, names: seq<string>, g: Graph, u0: Vertex, v0: Vertex,
                                               e0s: seq<Edge>, hm0: map<string, seq<Edge>>, j: nat)
    requires InGraph(g, e0s) && 0 < j <= |e0s|
    requires InGraph(g, e0s[..j]) && NumeratorRun(m, names, g, u0, v0, e0s[..j], hm0).Stopped?
    ensures NumeratorRun(m, names, g, u0, v0, e0s, hm0) == NumeratorRun(m, names, g, u0, v0, e0s[..j], hm0)
  {
    if j < |e0s| {
      NumeratorRunLast(m, names, g, u0, v0, e0s, hm0);
      var e0s' := e0s[..|e0s| - 1];
      assert e0s'[..j] == e0s[..j];
      NumeratorRunStopped(m, names, g, u0, v0, e0s', hm0, j);
    } else {
      assert e0s[..j] == e0s;
    }
  }

  /** A denominator loop that halted stays halted. */
  lemma {:induction false} DenominatorRunHalted(m: RE.Weights, names: seq<string>, g: Graph, zs: seq<(Edge, Edge)>, j: nat)
    requires ZippedInGraph(g, zs) && 0 < j <= |zs|
    requires ZippedInGraph(g, zs[..j]) && DenominatorRun(m, names, g, zs[..j]).Halted?
    ensures DenominatorRun(m, names, g, zs) == DenominatorRun(m, names, g, zs[..j])
  {
    if j < |zs| {
      var zs' := zs[..|zs| - 1];
      assert zs'[..j] == zs[..j];
      assert ZippedInGraph(g, zs');
      DenominatorRunHalted(m, names, g, zs', j);
    } else {
      assert zs[..j] == zs;
    }
  }

  // ----- the accept branch, in place -----

  /** One add loop of the accept branch on the network and the edge pool:
      every moved edge goes into the graph (relabelling one already there)
      and, sorted, into the pool. */
  method MoveCornerIn(g: Graph, pool: DrawSet<Edge>, a: Vertex, b: Vertex, es: seq<Edge>) returns (g': Graph)
    requires Canonical(g) && InGraph(g, es) && Oriented(a, es)
    requires pool.Valid() && pool.Elements() == g.edges.Keys
    modifies pool
    ensures g' == MoveCorner(g, a, b, es)
    ensures Canonical(g') && pool.Valid() && pool.Elements() == g'.edges.Keys
  {
    g' := g;
    var i := 0;
    while i < |es|
      invariant 0 <= i <= |es|
      invariant InGraph(g, es[..i]) && Oriented(a, es[..i])
      invariant g' == MoveCorner(g, a, b, es[..i])
      invariant Canonical(g') && pool.Valid() && pool.Elements() == g'.edges.Keys
    {
      MoveCornerNext(g, a, b, es, i);
      g' := AddIn(g', pool, a, b, es[i]);
      i := i + 1;
    }
    assert es[..i] == es;
  }

  /** One add of an add loop: `G.add_edge(b, x)` for the corner edge (a, x)
      with its labels, and the sorted edge into the pool. */
  method AddIn(g: Graph, pool: DrawSet<Edge>, a: Vertex, b: Vertex, e: Edge) returns (g': Graph)
    requires Canonical(g) && HasEdge(g, e.0, e.1) && OtherNode(a, e).Ok?
    requires pool.Valid() && pool.Elements() == g.edges.Keys
    modifies pool
    ensures g' == AddEdge(g, (b, OtherNode(a, e).value), EdgeLabel(g, e))
    ensures Canonical(g') && pool.Valid() && pool.Elements() == g'.edges.Keys
  {
    var u1 := OtherNode(a, e).value;
    var l := EdgeLabel(g, e);
    MoveOne(g, (b, u1), l);
    g' := AddEdge(g, (b, u1), l);
    pool.Add(Sorted((b, u1)));
  }

  /** The next add of an add loop, in terms of the graph so far. */
  lemma MoveCornerNext(g: Graph, a: Vertex, b: Vertex, es: seq<Edge>, i: nat)
    requires InGraph(g, es) && Oriented(a, es) && i < |es|
    ensures InGraph(g, es[..i]) && Oriented(a, es[..i]) && InGraph(g, es[..i + 1]) && Oriented(a, es[..i + 1])
    ensures OtherNode(a, es[i]).Ok?
    ensures var prev := MoveCorner(g, a, b, es[..i]);
      HasEdge(prev, es[i].0, es[i].1)
      && MoveCorner(g, a, b, es[..i + 1]) == AddEdge(prev, (b, OtherNode(a, es[i]).value), EdgeLabel(prev, es[i]))
  {
    assert es[i] in es;
    PrefixStep(es, i);
    assert es[..i + 1][..i] == es[..i];
    assert forall x :: x in es[..i + 1] ==> x in es;
  }

  /** The accept branch of `rewire` on the network and the edge pool: both
      add loops, the removal of the zipped originals from the graph and the
      pool, then the edge-count check. The outcome is the accept step's
      specification, and the pool keeps holding exactly the edges of the
      graph. */
  method Accept(g: Graph, pool: DrawSet<Edge>, u0: Vertex, v0: Vertex, e0s: seq<Edge>, e1s: seq<Edge>, n: nat)
    returns (r: Result<Graph>)
    requires Canonical(g) && InGraph(g, e0s) && InGraph(g, e1s) && Oriented(u0, e0s) && Oriented(v0, e1s)
    requires pool.Valid() && pool.Elements() == g.edges.Keys
    modifies pool
    ensures pool.Valid()
    ensures r == AcceptStep(g, u0, v0, e0s, e1s, n)
    ensures r.Err? ==> r.error in {NetworkXError, TypeError}
    ensures r.Ok? ==> pool.Elements() == r.value.edges.Keys
  {
    var g1 := MoveCornerIn(g, pool, u0, v0, e0s);
    InGraphGrows(g, g1, e1s);
    var g2 := MoveCornerIn(g1, pool, v0, u0, e1s);
    var g3 :- RE.RemoveAll(g2, pool, e0s, e1s);
    if NumberOfEdges(g3) != n {
      return Err(TypeError);
    }
    r := Ok(g3);
  }

  /** Two corners that `rewire` may hand to `swap_condition`. */
  predicate Swappable(g: Graph, u0: Vertex, v0: Vertex, e0s: seq<Edge>, e1s: seq<Edge>)
  {
    InGraph(g, e0s) && InGraph(g, e1s) && Oriented(u0, e0s) && Oriented(v0, e1s)
    && ZipSuitable(g, u0, v0, e0s, e1s)
  }

  // ----- the engine object -----

  class MarkovChainMonteCarlo {
    var network: Graph
    var convergenceLimit: int
    var searchLimit: int
    const ejks: JointExcessJointDegreeMatrices

    constructor (network: Graph, ejks: JointExcessJointDegreeMatrices, convergenceLimit: int, searchLimit: int)
      ensures this.network == network && this.ejks == ejks
      ensures this.convergenceLimit == convergenceLimit && this.searchLimit == searchLimit
    {
      this.network := network;
      this.ejks := ejks;
      this.convergenceLimit := convergenceLimit;
      this.searchLimit := searchLimit;
    }

    /** `__init__`: all four entries are required and have no default; a
        missing one is a KeyError that the constructor re-raises as a
        formatted string, which Python refuses with a TypeError. */
    static method New(params: RE.Params) returns (r: Result<MarkovChainMonteCarlo>)
      ensures r.Ok? <==> params.network.Some? && params.ejks.Some?
                         && params.convergenceLimit.Some? && params.searchLimit.Some?
      ensures r.Err? ==> r.error == TypeError
      ensures r.Ok? ==>
        fresh(r.value) && r.value.network == params.network.value && r.value.ejks == params.ejks.value
        && r.value.convergenceLimit == params.convergenceLimit.value
        && r.value.searchLimit == params.searchLimit.value
    {
      if params.network.None? || params.ejks.None? || params.convergenceLimit.None? || params.searchLimit.None? {
        return Err(TypeError);
      }
      var engine := new MarkovChainMonteCarlo(params.network.value, params.ejks.value,
                                              params.convergenceLimit.value, params.searchLimit.value);
      r := Ok(engine);
    }

    /** `rewire`: repeatedly draw an edge, search up to `searchLimit + 1`
        same-topology draws for a corner that is suitable, abandon the
        attempt when the search count reached the limit, and otherwise
        test the swap and, when accepted, carry it out on the network in
        place; stop after `convergenceLimit + 1` accepted swaps. Draws and
        the Metropolis threshold are chosen nondeterministically; `fuel`
        bounds the number of draws. When it returns normally the network
        has the degrees, labels, edge count and joint degrees it started
        with, and exactly `Swaps(convergenceLimit)` swaps were accepted. */
    method Rewire(fuel: nat) returns (r: Result<()>, ghost swaps: nat)
      requires Canonical(network)
      modifies this`network
      ensures r.Ok? ==> RE.Preserved(network, old(network)) && forall u :: Degree(network, u) == Degree(old(network), u)
      ensures r.Ok? ==> swaps == RE.Swaps(convergenceLimit)
      ensures r.Err? ==> r.error in {KeyError, IndexError, TypeError, NameError, NetworkXError, OutOfFuel}
    {
      ghost var g0 := network;
      var n := NumberOfEdges(network);
      var pool := RE.MarkovChainMonteCarloRewiring.FillPool(network);
      var count := 0;
      var steps := fuel;
      while count <= convergenceLimit
        invariant RE.Preserved(network, g0)
        invariant fresh(pool) && pool.Valid() && pool.Elements() == network.edges.Keys
        invariant 0 <= count <= RE.Swaps(convergenceLimit)
        decreases steps
      {
        if steps == 0 {
          return Err(OutOfFuel), count;
        }
        steps := steps - 1;
        var stop, accepted, g;
        stop, accepted, g, steps := Round(network, pool, n, steps);
        if stop.Some? {
          return Err(stop.value), count;
        }
        network := g;
        if accepted {
          count := count + 1;
        }
      }
      RE.PreservedDegrees(network, g0);
      r, swaps := Ok(()), count;
    }

    /** One round of the outer loop of `rewire`: draw an edge (an empty pool
        is an IndexError), take its corner, search for a partner corner,
        and, unless the search count reached the limit, attempt the swap. */
    method Round(g: Graph, pool: DrawSet<Edge>, n: nat, steps: nat)
      returns (stop: Option<Error>, accepted: bool, g': Graph, steps': nat)
      requires Canonical(g) && n == NumberOfEdges(g)
      requires pool.Valid() && pool.Elements() == g.edges.Keys
      modifies pool
      ensures steps' <= steps
      ensures pool.Valid()
      ensures stop.None? ==> RE.Preserved(g', g) && pool.Elements() == g'.edges.Keys
      ensures stop.None? && !accepted ==> g' == g
      ensures stop.Some? ==> stop.value in {KeyError, IndexError, TypeError, NameError, NetworkXError, OutOfFuel}
    {
      g' := g;
      accepted := false;
      steps' := steps;
      stop := None;
      var d0 := pool.Draw();
      if d0.Err? {
        return Some(d0.error), accepted, g', steps';
      }
      var e0 := d0.value;
      var u0 := e0.0;
      var e0s := GetAllEdges(g, u0, e0);
      RE.CornerOriented(g, u0, EdgeLabel(g, e0).motifId, e0s);
      var outOfFuel, searchCount, suitable, v0, e1s;
      outOfFuel, searchCount, suitable, v0, e1s, steps' := Search(g, pool, e0, e0s, steps);
      if outOfFuel {
        return Some(OutOfFuel), accepted, g', steps';
      }
      if searchCount >= searchLimit {
        return;
      }
      var r;
      r, g' := Attempt(g, pool, u0, v0, e0s, e1s, n);
      if r.Err? {
        return Some(r.error), accepted, g', steps';
      }
      accepted := r.value;
    }

    /** The search loop of `rewire` for the drawn edge e0 with corner e0s:
        draw edges, skip (without counting) those of another topology, and
        stop at the first whose corner is suitable, or after the count
        passes the search limit. Every draw uses one unit of `steps`. */
    method Search(g: Graph, pool: DrawSet<Edge>, e0: Edge, e0s: seq<Edge>, steps: nat)
      returns (outOfFuel: bool, searchCount: int, suitable: bool, v0: Vertex, e1s: seq<Edge>, steps': nat)
      requires Canonical(g) && e0 in g.edges && InGraph(g, e0s) && Oriented(e0.0, e0s)
      requires pool.edges != [] && pool.Valid() && pool.Elements() == g.edges.Keys
      ensures steps' <= steps
      ensures suitable ==> Swappable(g, e0.0, v0, e0s, e1s)
      ensures !outOfFuel ==> suitable || searchCount > searchLimit
    {
      searchCount := 0;
      suitable := false;
      v0 := 0;
      e1s := [];
      steps' := steps;
      outOfFuel := false;
      while searchCount <= searchLimit
        invariant steps' <= steps
        invariant suitable ==> Swappable(g, e0.0, v0, e0s, e1s)
        decreases steps'
      {
        if steps' == 0 {
          outOfFuel := true;
          return;
        }
        steps' := steps' - 1;
        var d1 := pool.Draw();
        var e1 := d1.value;
        if EdgeLabel(g, e1).topology != EdgeLabel(g, e0).topology {
          continue;
        }
        v0 := e1.0;
        e1s := GetAllEdges(g, v0, e1);
        RE.CornerOriented(g, v0, EdgeLabel(g, e1).motifId, e1s);
        suitable := CheckZipSuitable(g, e0.0, v0, e0s, e1s);
        if suitable {
          break;
        }
        searchCount := searchCount + 1;
      }
    }

    /** One attempt of `rewire` on two suitable corners: the swap test with
        a threshold drawn from [0, 1), and, when it accepts, the accept
        branch, which keeps what `Preserved` describes. */
    method Attempt(g: Graph, pool: DrawSet<Edge>, u0: Vertex, v0: Vertex, e0s: seq<Edge>, e1s: seq<Edge>, n: nat)
      returns (r: Result<bool>, g': Graph)
      requires Canonical(g) && n == NumberOfEdges(g)
      requires Swappable(g, u0, v0, e0s, e1s)
      requires pool.Valid() && pool.Elements() == g.edges.Keys
      modifies pool
      ensures pool.Valid()
      ensures r.Ok? ==> RE.Preserved(g', g) && pool.Elements() == g'.edges.Keys
      ensures r == Ok(false) ==> g' == g
      ensures r.Err? ==> r.error in {KeyError, IndexError, TypeError, NameError, NetworkXError}
    {
      g' := g;
      var rnd: real :| 0.0 <= rnd < 1.0;
      r := SwapCondition(g, e0s, e1s, u0, v0, rnd);
      if r != Ok(true) {
        return;
      }
      var next := Accept(g, pool, u0, v0, e0s, e1s, n);
      if next.Err? {
        return Err(next.error), g';
      }
      AcceptStepPreserves(g, u0, v0, e0s, e1s);
      g' := next.value;
    }

    /** `swap_condition`: the numerator loop, the denominator loop, then the
        ratio against `rnd`. */
    method SwapCondition(g: Graph, e0s: seq<Edge>, e1s: seq<Edge>, u0: Vertex, v0: Vertex, rnd: real)
      returns (r: Result<bool>)
      requires InGraph(g, e0s) && InGraph(g, e1s)
      ensures r == SwapOutcome(ejks.ejks, ejks.topologyNames, g, e0s, e1s, u0, v0, rnd)
      ensures r.Err? ==> r.error in {KeyError, IndexError, TypeError, NameError}
    {
      SwapOutcomeMeaning(ejks.ejks, ejks.topologyNames, g, e0s, e1s, u0, v0, rnd);
      var top := NumeratorLoop(g, e0s, e1s, u0, v0);
      if top.Stopped? {
        return top.outcome;
      }
      ZipInGraph(g, e0s, e1s);
      var bottom := DenominatorLoop(g, Zip(e0s, e1s));
      if bottom.Halted? {
        return bottom.outcome;
      }
      if bottom.value == 0.0 {
        return Err(TypeError);
      }
      r := Ok((top.value + 0.0) / bottom.value > rnd);
    }

    /** The numerator loop of `swap_condition`: per u-corner edge, pop the
        last remaining v-corner edge of its topology and multiply in the
        weights of the swapped keys. */
    method NumeratorLoop(g: Graph, e0s: seq<Edge>, e1s: seq<Edge>, u0: Vertex, v0: Vertex) returns (t: Tally)
      requires InGraph(g, e0s) && InGraph(g, e1s)
      ensures t == NumeratorRun(ejks.ejks, ejks.topologyNames, g, u0, v0, e0s, Hashmap(g, e1s))
    {
      var m, names := ejks.ejks, ejks.topologyNames;
      var hashmap := GetHashmap(g, e1s);
      var top := 1.0;
      var pairs := [];
      var i := 0;
      while i < |e0s|
        invariant 0 <= i <= |e0s|
        invariant InGraph(g, e0s[..i])
        invariant NumeratorRun(m, names, g, u0, v0, e0s[..i], Hashmap(g, e1s)) == Running(hashmap, top, pairs)
      {
        var e0 := e0s[i];
        assert e0 in e0s;
        PrefixStep(e0s, i);
        assert e0s[..i + 1][..i] == e0s[..i];
        NumeratorRunLast(m, names, g, u0, v0, e0s[..i + 1], Hashmap(g, e1s));
        var next := PairNext(g, u0, v0, e0, hashmap, top, pairs);
        if next.Stopped? {
          assert e0s[..|e0s|] == e0s;
          NumeratorRunStopped(m, names, g, u0, v0, e0s, Hashmap(g, e1s), i + 1);
          return next;
        }
        hashmap, top, pairs := next.hm, next.value, next.pairs;
        i := i + 1;
      }
      assert e0s[..i] == e0s;
      t := Running(hashmap, top, pairs);
    }

    /** One pass of the numerator loop for the u-corner edge e0. */
    method PairNext(g: Graph, u0: Vertex, v0: Vertex, e0: Edge, hashmap: map<string, seq<Edge>>,
                    top: real, pairs: seq<(Edge, Edge)>) returns (t: Tally)
      requires HasEdge(g, e0.0, e0.1)
      ensures t == NumeratorStep(ejks.ejks, ejks.topologyNames, g, u0, v0, e0, hashmap, top, pairs)
    {
      var topology := EdgeLabel(g, e0).topology;
      var index := ejks.GetTopologyIndex(topology);
      if index.Err? {
        return Stopped(Err(index.error));
      }
      if topology !in hashmap {
        return Stopped(Err(KeyError));
      }
      var lst := hashmap[topology];
      if lst == [] {
        return Stopped(Err(IndexError));
      }
      var e1 := lst[|lst| - 1];
      var hashmap' := hashmap[topology := lst[..|lst| - 1]];
      var keys := SwappedKeyPair(g, e0, e1, u0, v0, index.value);
      if keys.Err? {
        return Stopped(Err(keys.error));
      }
      var w1 := RE.Weight(ejks.ejks, topology, keys.value.0);
      var w2 := RE.Weight(ejks.ejks, topology, keys.value.1);
      if w1.None? || w2.None? {
        return Stopped(Ok(false));
      }
      var top' := top * (w1.value * w2.value);
      if top' == 0.0 {
        return Stopped(Ok(false));
      }
      t := Running(hashmap', top', pairs + [(e0, e1)]);
    }

    /** The denominator loop of `swap_condition` over the zipped corners. */
    method DenominatorLoop(g: Graph, zs: seq<(Edge, Edge)>) returns (b: Bottom)
      requires ZippedInGraph(g, zs)
      ensures b == DenominatorRun(ejks.ejks, ejks.topologyNames, g, zs)
    {
      var m, names := ejks.ejks, ejks.topologyNames;
      var bottom := 1.0;
      var k := 0;
      while k < |zs|
        invariant 0 <= k <= |zs|
        invariant ZippedInGraph(g, zs[..k])
        invariant DenominatorRun(m, names, g, zs[..k]) == Partial(bottom)
      {
        assert zs[..k + 1][..k] == zs[..k];
        assert zs[..k + 1][k] == zs[k];
        var step := ZipPass(g, zs[k], bottom);
        if step.Halted? {
          DenominatorRunHalted(m, names, g, zs, k + 1);
          return step;
        }
        bottom := step.value;
        k := k + 1;
      }
      assert zs[..k] == zs;
      b := Partial(bottom);
    }

    /** One pass of the denominator loop over a zipped pair. */
    method ZipPass(g: Graph, z: (Edge, Edge), bottom: real) returns (b: Bottom)
      requires HasEdge(g, z.0.0, z.0.1) && HasEdge(g, z.1.0, z.1.1)
      ensures b == DenominatorStep(ejks.ejks, ejks.topologyNames, g, z, bottom)
    {
      var topology, topologyE1 := EdgeLabel(g, z.0).topology, EdgeLabel(g, z.1).topology;
      if topology != topologyE1 {
        return Halted(Err(TypeError));
      }
      var index := ejks.GetTopologyIndex(topology);
      if index.Err? {
        return Halted(Err(index.error));
      }
      var keyE0 := JointExcessDegreeKey(g, z.0, index.value);
      var keyE1 := JointExcessDegreeKey(g, z.1, index.value);
      if keyE0.Err? {
        return Halted(Err(keyE0.error));
      }
      if keyE1.Err? {
        return Halted(Err(keyE1.error));
      }
      var w0 := RE.Weight(ejks.ejks, topology, keyE0.value);
      var w1 := RE.Weight(ejks.ejks, topology, keyE1.value);
      if w0.None? || w1.None? {
        return Halted(Ok(false));
      }
      b := Partial(bottom * (w0.value * w1.value));
    }
  }
}
