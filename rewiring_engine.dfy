// The rewiring engine object: construction from a parameter dictionary,
// the Metropolis test `swap_condition` (counted by the base class's
// decorator), the accept step and the `rewire` loop. The random numbers
// the source draws become choices the caller makes: an edge drawn from the
// DrawSet is any of its elements, and `random.random()` is a parameter
// `rnd` in [0, 1).

module RewiringEngine {
  import opened Common
  import opened Graphs
  import opened DrawSets
  import opened Mcmc
  import opened EjkMatrices
  import opened Rewiring
  import KV = KeysView

  type Weights = map<string, map<Key, real>>

  // ----- the Metropolis ratio -----

  /** `self._ejks.ejks[t][key]`; None is the KeyError at either level. */
  function Weight(m: Weights, t: string, key: Key): Option<real>
  {
    if t in m && key in m[t] then Some(m[t][key]) else None
  }

  /** Both proposed keys are among the four existing ones, so the swap
      would change no key. */
  predicate NoOp(v: KV.KeysView)
    requires |v.keys| > 3
  {
    {KV.U0V1(v), KV.V0U1(v)} <= {KV.U0U1(v), KV.U1U0(v), KV.V0V1(v), KV.V1V0(v)}
  }

  /** The keys view of one matched pair, looked up with the index of the
      u-side edge's topology. */
  function PairKeys(g: Graph, names: seq<string>, u0: Vertex, v0: Vertex, pr: (Edge, Edge)): Result<KV.KeysView>
    requires HasEdge(g, pr.0.0, pr.0.1)
  {
    var index :- TopologyIndex(names, EdgeLabel(g, pr.0).topology);
    SwappedKeys(g, pr.0, pr.1, u0, v0, index)
  }

  /** The factor a keys view contributes to the numerator: the weights
      of its two proposed keys under topology t. None is a swap that would
      change no key, or a missing weight; both reject the swap. */
  function KeysFactor(m: Weights, t: string, kv: KV.KeysView): Option<(real, real)>
    requires |kv.keys| > 3
  {
    if NoOp(kv) then None
    else
      var a, b := Weight(m, t, KV.U0V1(kv)), Weight(m, t, KV.V0U1(kv));
      if a.None? || b.None? then None else Some((a.value, b.value))
  }

  /** The factor one matched pair contributes to the numerator. None is
      an error while computing its keys, or a rejecting keys view. */
  function PairFactor(m: Weights, names: seq<string>, g: Graph, u0: Vertex, v0: Vertex, pr: (Edge, Edge)): Option<(real, real)>
  {
    if !HasEdge(g, pr.0.0, pr.0.1) then None
    else
      var kv := PairKeys(g, names, u0, v0, pr);
      if kv.Err? then None else KeysFactor(m, EdgeLabel(g, pr.0).topology, kv.value)
  }

  /** The factors of a loop that stops at the first missing factor and,
      when `nonZero` holds, at the first zero weight. */
  function Collect(os: seq<Option<(real, real)>>, nonZero: bool): (r: Option<seq<(real, real)>>)
    ensures r.Some? ==> |r.value| == |os|
  {
    if os == [] then Some([])
    else
      var rest, o := Collect(os[..|os| - 1], nonZero), os[|os| - 1];
      if rest.None? || o.None? || (nonZero && (o.value.0 == 0.0 || o.value.1 == 0.0)) then None
      else Some(rest.value + [o.value])
  }

  /** A collection that ran to the end holds every factor, none of them
      zero when zeros stop it. */
  lemma {:induction false} CollectMeaning(os: seq<Option<(real, real)>>, nonZero: bool, i: nat)
    requires Collect(os, nonZero).Some? && i < |os|
    ensures os[i] == Some(Collect(os, nonZero).value[i])
    ensures nonZero ==> os[i].value.0 != 0.0 && os[i].value.1 != 0.0
  {
    if i < |os| - 1 {
      CollectMeaning(os[..|os| - 1], nonZero, i);
    }
  }

  lemma CollectAppend(os: seq<Option<(real, real)>>, nonZero: bool, o: Option<(real, real)>)
    requires Collect(os, nonZero).Some? && o.Some?
    requires nonZero ==> o.value.0 != 0.0 && o.value.1 != 0.0
    ensures Collect(os + [o], nonZero) == Some(Collect(os, nonZero).value + [o.value])
  {
    assert (os + [o])[..|os|] == os;
  }

  function PairFactors(m: Weights, names: seq<string>, g: Graph, u0: Vertex, v0: Vertex,
                       pairs: seq<(Edge, Edge)>): (r: seq<Option<(real, real)>>)
    ensures |r| == |pairs|
    ensures forall i :: 0 <= i < |pairs| ==> r[i] == PairFactor(m, names, g, u0, v0, pairs[i])
  {
    seq(|pairs|, i requires 0 <= i < |pairs| => PairFactor(m, names, g, u0, v0, pairs[i]))
  }

  /** The factors of the numerator of the Metropolis ratio, one per
      matched pair in loop order. None stands for every way the numerator
      loop stops early: a pair without a factor, or a zero weight (which
      makes the running product zero). */
  function Numerator(m: Weights, names: seq<string>, g: Graph, u0: Vertex, v0: Vertex,
                     pairs: seq<(Edge, Edge)>): Option<seq<(real, real)>>
  {
    Collect(PairFactors(m, names, g, u0, v0, pairs), true)
  }

  /** The running product of the loops: each factor is a pair of
      weights, multiplied together first. */
  function Product(fs: seq<(real, real)>): real
  {
    if fs == [] then 1.0 else Product(fs[..|fs| - 1]) * (fs[|fs| - 1].0 * fs[|fs| - 1].1)
  }

  lemma ZeroProduct(a: real, b: real)
    ensures a * b == 0.0 <==> a == 0.0 || b == 0.0
  {
  }

  predicate HasZero(fs: seq<(real, real)>)
  {
    exists i :: 0 <= i < |fs| && (fs[i].0 == 0.0 || fs[i].1 == 0.0)
  }

  /** A product is zero exactly when one of its weights is. */
  lemma {:induction false} ProductZero(fs: seq<(real, real)>)
    ensures Product(fs) == 0.0 <==> HasZero(fs)
  {
    if fs != [] {
      var fs', f := fs[..|fs| - 1], fs[|fs| - 1];
      ProductZero(fs');
      ZeroProduct(f.0, f.1);
      ZeroProduct(Product(fs'), f.0 * f.1);
      if HasZero(fs') {
        var i :| 0 <= i < |fs'| && (fs'[i].0 == 0.0 || fs'[i].1 == 0.0);
        assert fs[i] == fs'[i];
      }
      if HasZero(fs) {
        var i :| 0 <= i < |fs| && (fs[i].0 == 0.0 || fs[i].1 == 0.0);
        if i < |fs'| {
          assert fs'[i] == fs[i];
        }
      }
    }
  }

  /** The weight of one existing edge: its key, looked up under its own
      topology. An error computing the key is passed on; a missing weight
      is Ok(None). */
  function EdgeWeight(m: Weights, names: seq<string>, g: Graph, e: Edge): Result<Option<real>>
  {
    if !HasEdge(g, e.0, e.1) then Err(KeyError)
    else
    var t := EdgeLabel(g, e).topology;
    var index :- TopologyIndex(names, t);
    var key :- JointExcessDegreeKey(g, e, index);
    Ok(Weight(m, t, key))
  }

  /** The factor of one zipped pair of existing edges: both weights, or
      None for an error or a missing weight. */
  function ZipFactor(m: Weights, names: seq<string>, g: Graph, z: (Edge, Edge)): Option<(real, real)>
  {
    var a, b := EdgeWeight(m, names, g, z.0), EdgeWeight(m, names, g, z.1);
    if a.Err? || b.Err? || a.value.None? || b.value.None? then None
    else Some((a.value.value, b.value.value))
  }

  function ZipFactors(m: Weights, names: seq<string>, g: Graph, zs: seq<(Edge, Edge)>): (r: seq<Option<(real, real)>>)
    ensures |r| == |zs|
    ensures forall i :: 0 <= i < |zs| ==> r[i] == ZipFactor(m, names, g, zs[i])
  {
    seq(|zs|, i requires 0 <= i < |zs| => ZipFactor(m, names, g, zs[i]))
  }

  /** The factors of the denominator over the zipped corners. None is an
      error or a missing weight. */
  function Denominator(m: Weights, names: seq<string>, g: Graph, zs: seq<(Edge, Edge)>): Option<seq<(real, real)>>
  {
    Collect(ZipFactors(m, names, g, zs), false)
  }

  /** A numerator that was computed to the end has, for every pair, that
      pair's factor, with no zero weight: the pair's keys were computed,
      the swap changes a key, and both proposed keys have a weight. */
  lemma NumeratorMeaning(m: Weights, names: seq<string>, g: Graph, u0: Vertex, v0: Vertex,
                         pairs: seq<(Edge, Edge)>, i: nat)
    requires Numerator(m, names, g, u0, v0, pairs).Some? && i < |pairs|
    ensures PairFactor(m, names, g, u0, v0, pairs[i]) == Some(Numerator(m, names, g, u0, v0, pairs).value[i])
    ensures Numerator(m, names, g, u0, v0, pairs).value[i].0 != 0.0
    ensures Numerator(m, names, g, u0, v0, pairs).value[i].1 != 0.0
  {
    CollectMeaning(PairFactors(m, names, g, u0, v0, pairs), true, i);
  }

  /** What an accepted `swap_condition` establishes: the pairing it built
      edge by edge from the hashmap of the v-corner, the proposals it left
      behind, and a Metropolis ratio that beat the random draw. */
  predicate SwapAccepted(m: Weights, names: seq<string>, g: Graph, e0s: seq<Edge>, e1s: seq<Edge>,
                         u0: Vertex, v0: Vertex, rnd: real, pairs: seq<(Edge, Edge)>, ps: seq<ProposalEdge>)
    requires InGraph(g, e0s) && InGraph(g, e1s)
  {
    PairsOk(g, u0, v0, pairs)
    && Firsts(pairs) == e0s && multiset(Seconds(pairs)) <= multiset(e1s)
    && (forall i :: 0 <= i < |pairs| ==> EdgeLabel(g, pairs[i].0).topology == EdgeLabel(g, pairs[i].1).topology)
    && ps == Proposals(g, u0, v0, pairs)
    && var top, bottom := Numerator(m, names, g, u0, v0, pairs), Denominator(m, names, g, Zip(e0s, e1s));
       top.Some? && bottom.Some? && Product(bottom.value) != 0.0 && Product(top.value) / Product(bottom.value) > rnd
  }

  // ----- the partner hashmap while the numerator loop pops from it -----

  /** Every v-corner edge is either still in the bucket of its topology or
      already taken; no key of the hashmap is ever dropped. */
  ghost predicate Unpopped(g: Graph, e1s: seq<Edge>, hm: map<string, seq<Edge>>, taken: seq<Edge>)
  {
    (forall t :: t in hm ==> multiset(hm[t]) + multiset(Bucket(g, taken, t)) == multiset(Bucket(g, e1s, t)))
    && (forall x :: x in e1s && HasEdge(g, x.0, x.1) ==> EdgeLabel(g, x).topology in hm)
  }

  lemma UnpoppedStart(g: Graph, e1s: seq<Edge>, hm: map<string, seq<Edge>>)
    requires InGraph(g, e1s)
    requires forall t :: t in hm ==> hm[t] == Bucket(g, e1s, t)
    requires forall t :: t in hm <==> exists x :: x in e1s && EdgeLabel(g, x).topology == t
    ensures Unpopped(g, e1s, hm, [])
  {
  }

  lemma BucketAppend(g: Graph, s: seq<Edge>, x: Edge, t: string)
    ensures Bucket(g, s + [x], t) == Bucket(g, s, t) + (if HasTopology(g, x, t) then [x] else [])
  {
    assert (s + [x])[..|s|] == s;
  }

  lemma LastSplit<T>(s: seq<T>)
    requires s != []
    ensures multiset(s) == multiset(s[..|s| - 1]) + multiset{s[|s| - 1]}
  {
    assert s == s[..|s| - 1] + [s[|s| - 1]];
  }

  /** Popping the last edge of a bucket: the edge is a v-corner edge of
      that topology, and the hashmap still accounts for every edge. */
  lemma PopStep(g: Graph, e1s: seq<Edge>, hm: map<string, seq<Edge>>, taken: seq<Edge>, t: string)
    requires InGraph(g, e1s) && Unpopped(g, e1s, hm, taken)
    requires t in hm && hm[t] != []
    ensures var lst := hm[t]; var e1 := lst[|lst| - 1];
      e1 in e1s && HasEdge(g, e1.0, e1.1) && EdgeLabel(g, e1).topology == t
      && Unpopped(g, e1s, hm[t := lst[..|lst| - 1]], taken + [e1])
  {
    var lst := hm[t];
    var e1 := lst[|lst| - 1];
    PoppedEdge(g, e1s, hm, taken, t);
    var hm' := hm[t := lst[..|lst| - 1]];
    forall t' | t' in hm'
      ensures multiset(hm'[t']) + multiset(Bucket(g, taken + [e1], t')) == multiset(Bucket(g, e1s, t'))
    {
      PopBucket(g, e1s, hm, taken, t, t');
    }
  }

  lemma PoppedEdge(g: Graph, e1s: seq<Edge>, hm: map<string, seq<Edge>>, taken: seq<Edge>, t: string)
    requires InGraph(g, e1s) && t in hm && hm[t] != []
    requires multiset(hm[t]) + multiset(Bucket(g, taken, t)) == multiset(Bucket(g, e1s, t))
    ensures var lst := hm[t]; var e1 := lst[|lst| - 1];
      e1 in e1s && HasEdge(g, e1.0, e1.1) && EdgeLabel(g, e1).topology == t
  {
    var lst := hm[t];
    var e1 := lst[|lst| - 1];
    LastSplit(lst);
    BucketCount(g, e1s, t, e1);
  }

  lemma PopBucket(g: Graph, e1s: seq<Edge>, hm: map<string, seq<Edge>>, taken: seq<Edge>, t: string, t': string)
    requires t in hm && hm[t] != [] && t' in hm
    requires var e1 := hm[t][|hm[t]| - 1]; HasEdge(g, e1.0, e1.1) && EdgeLabel(g, e1).topology == t
    requires multiset(hm[t']) + multiset(Bucket(g, taken, t')) == multiset(Bucket(g, e1s, t'))
    ensures var lst := hm[t]; var e1 := lst[|lst| - 1]; var hm' := hm[t := lst[..|lst| - 1]];
      multiset(hm'[t']) + multiset(Bucket(g, taken + [e1], t')) == multiset(Bucket(g, e1s, t'))
  {
    var lst := hm[t];
    var e1 := lst[|lst| - 1];
    LastSplit(lst);
    BucketAppend(g, taken, e1, t');
  }

  /** At the end of the numerator loop the taken partners form a
      sub-multiset of the v-corner. */
  lemma TakenBag(g: Graph, e1s: seq<Edge>, hm: map<string, seq<Edge>>, taken: seq<Edge>)
    requires InGraph(g, e1s) && Unpopped(g, e1s, hm, taken)
    requires forall x :: x in taken ==> x in e1s
    ensures multiset(taken) <= multiset(e1s)
  {
    forall x | x in multiset(taken)
      ensures multiset(taken)[x] <= multiset(e1s)[x]
    {
      var t := EdgeLabel(g, x).topology;
      BucketCount(g, taken, t, x);
      BucketCount(g, e1s, t, x);
    }
  }

  lemma ProductAppend(fs: seq<(real, real)>, x: (real, real), p: real)
    requires p == Product(fs)
    ensures Product(fs + [x]) == p * (x.0 * x.1)
  {
    assert (fs + [x])[..|fs|] == fs;
  }

  lemma NumeratorAppend(m: Weights, names: seq<string>, g: Graph, u0: Vertex, v0: Vertex,
                        pairs: seq<(Edge, Edge)>, pr: (Edge, Edge), f: (real, real))
    requires Numerator(m, names, g, u0, v0, pairs).Some?
    requires PairFactor(m, names, g, u0, v0, pr) == Some(f) && f.0 != 0.0 && f.1 != 0.0
    ensures Numerator(m, names, g, u0, v0, pairs + [pr]) == Some(Numerator(m, names, g, u0, v0, pairs).value + [f])
  {
    var os := PairFactors(m, names, g, u0, v0, pairs);
    assert PairFactors(m, names, g, u0, v0, pairs + [pr]) == os + [Some(f)];
    CollectAppend(os, true, Some(f));
  }

  lemma DenominatorAppend(m: Weights, names: seq<string>, g: Graph, zs: seq<(Edge, Edge)>, z: (Edge, Edge))
    requires Denominator(m, names, g, zs).Some? && ZipFactor(m, names, g, z).Some?
    ensures Denominator(m, names, g, zs + [z]) == Some(Denominator(m, names, g, zs).value + [ZipFactor(m, names, g, z).value])
  {
    var os := ZipFactors(m, names, g, zs);
    assert ZipFactors(m, names, g, zs + [z]) == os + [ZipFactor(m, names, g, z)];
    CollectAppend(os, false, ZipFactor(m, names, g, z));
  }

  /** The pairs formed so far: existing, oriented edges, each u-corner
      edge with a v-corner edge of its own topology. */
  ghost predicate Paired(g: Graph, e1s: seq<Edge>, u0: Vertex, v0: Vertex, pairs: seq<(Edge, Edge)>)
  {
    PairsOk(g, u0, v0, pairs)
    && (forall j :: 0 <= j < |pairs| ==> EdgeLabel(g, pairs[j].0).topology == EdgeLabel(g, pairs[j].1).topology)
    && (forall x :: x in Seconds(pairs) ==> x in e1s)
  }

  lemma PairedAppend(g: Graph, e1s: seq<Edge>, u0: Vertex, v0: Vertex, pairs: seq<(Edge, Edge)>, pr: (Edge, Edge))
    requires Paired(g, e1s, u0, v0, pairs) && pr.1 in e1s
    requires HasEdge(g, pr.0.0, pr.0.1) && HasEdge(g, pr.1.0, pr.1.1)
    requires OtherVertex(u0, pr.0).Ok? && OtherVertex(v0, pr.1).Ok?
    requires EdgeLabel(g, pr.0).topology == EdgeLabel(g, pr.1).topology
    ensures Paired(g, e1s, u0, v0, pairs + [pr])
  {
    PairsOkAppend(g, u0, v0, pairs, pr);
    FirstsSecondsAppend(pairs, pr);
    forall j | 0 <= j < |pairs| + 1
      ensures (pairs + [pr])[j] == if j < |pairs| then pairs[j] else pr
    {
    }
  }

  /** One more factor in the running product of the numerator loop. */
  lemma NumeratorStep(m: Weights, names: seq<string>, g: Graph, u0: Vertex, v0: Vertex,
                      pairs: seq<(Edge, Edge)>, pr: (Edge, Edge), factors: seq<(real, real)>, f: (real, real), top: real)
    requires Numerator(m, names, g, u0, v0, pairs) == Some(factors) && top == Product(factors)
    requires PairFactor(m, names, g, u0, v0, pr) == Some(f) && top * (f.0 * f.1) != 0.0
    ensures Numerator(m, names, g, u0, v0, pairs + [pr]) == Some(factors + [f])
    ensures Product(factors + [f]) == top * (f.0 * f.1)
  {
    ZeroProduct(top, f.0 * f.1);
    ZeroProduct(f.0, f.1);
    ProductAppend(factors, f, top);
    NumeratorAppend(m, names, g, u0, v0, pairs, pr, f);
  }

  lemma PairsOkAppend(g: Graph, u0: Vertex, v0: Vertex, pairs: seq<(Edge, Edge)>, pr: (Edge, Edge))
    requires PairsOk(g, u0, v0, pairs)
    requires HasEdge(g, pr.0.0, pr.0.1) && HasEdge(g, pr.1.0, pr.1.1)
    requires OtherVertex(u0, pr.0).Ok? && OtherVertex(v0, pr.1).Ok?
    ensures PairsOk(g, u0, v0, pairs + [pr])
  {
    forall i | 0 <= i < |pairs| + 1
      ensures (pairs + [pr])[i] == if i < |pairs| then pairs[i] else pr
    {
    }
  }

  lemma ProposalsAppend(g: Graph, u0: Vertex, v0: Vertex, pairs: seq<(Edge, Edge)>, pr: (Edge, Edge))
    requires HasEdge(g, pr.0.0, pr.0.1) && HasEdge(g, pr.1.0, pr.1.1)
    requires OtherVertex(u0, pr.0).Ok? && OtherVertex(v0, pr.1).Ok?
    requires PairsOk(g, u0, v0, pairs + [pr])
    ensures PairsOk(g, u0, v0, pairs)
    ensures var pp := ProposalPair(g, u0, v0, pr);
      Proposals(g, u0, v0, pairs + [pr]) == Proposals(g, u0, v0, pairs) + [pp.0, pp.1]
  {
    var all := pairs + [pr];
    assert forall i :: 0 <= i < |pairs| ==> pairs[i] == all[i];
    var s := seq(|all|, i requires 0 <= i < |all| => ProposalPair(g, u0, v0, all[i]));
    var s' := seq(|pairs|, i requires 0 <= i < |pairs| => ProposalPair(g, u0, v0, pairs[i]));
    assert s[..|s| - 1] == s';
  }

  // ----- `swap_condition` as a function of its inputs -----

  /** The state of the numerator loop: the partner hashmap, the running
      product and the pairs matched so far, or the outcome of an early
      return. */
  datatype Tally = Running(hm: map<string, seq<Edge>>, value: real, pairs: seq<(Edge, Edge)>)
                 | Stopped(outcome: Result<bool>)

  /** The lookup of e0's topology index and then `lst.pop()` on the
      bucket of e0's topology: the index and the last remaining v-corner
      edge of that topology. An edge the network lacks or a missing bucket
      is a KeyError, an exhausted bucket the engine's own error. */
  function Pop(names: seq<string>, g: Graph, e0: Edge, hm: map<string, seq<Edge>>): (r: Result<(nat, Edge)>)
    ensures r.Ok? <==>
      HasEdge(g, e0.0, e0.1) && EdgeLabel(g, e0).topology in names
      && EdgeLabel(g, e0).topology in hm && hm[EdgeLabel(g, e0).topology] != []
    ensures r.Ok? ==> var t := EdgeLabel(g, e0).topology;
      TopologyIndex(names, t) == Ok(r.value.0) && r.value.1 == hm[t][|hm[t]| - 1]
    ensures r.Err? ==> r.error in {KeyError, TypeError, NameError, RewiringError}
  {
    if !HasEdge(g, e0.0, e0.1) then Err(KeyError)
    else
      var t := EdgeLabel(g, e0).topology;
      var index :- TopologyIndex(names, t);
      if t !in hm then Err(KeyError)
      else if hm[t] == [] then Err(RewiringError)
      else Ok((index, hm[t][|hm[t]| - 1]))
  }

  /** The part of one numerator pass that does not involve the running
      product: the pop of e0's partner, the keys view of the pair and the
      weights of its two proposed keys. Err is an exception; Ok(None) is a
      silent False: a swap that changes no key, or a missing weight. */
  function PairPass(m: Weights, names: seq<string>, g: Graph, u0: Vertex, v0: Vertex, e0: Edge,
                    hm: map<string, seq<Edge>>): Result<Option<(Edge, (real, real))>>
  {
    var pop :- Pop(names, g, e0, hm);
    var kv :- SwappedKeys(g, e0, pop.1, u0, v0, pop.0);
    var f := KeysFactor(m, EdgeLabel(g, e0).topology, kv);
    if f.None? then Ok(None) else Ok(Some((pop.1, f.value)))
  }

  /** One pass of the numerator loop for the u-corner edge e0: the pair
      pass, then the product with the pair's factor, which returns False
      when it becomes zero. */
  function NumeratorPass(m: Weights, names: seq<string>, g: Graph, u0: Vertex, v0: Vertex, e0: Edge,
                         hm: map<string, seq<Edge>>, top: real, pairs: seq<(Edge, Edge)>): Tally
  {
    match PairPass(m, names, g, u0, v0, e0, hm)
    case Err(e) => Stopped(Err(e))
    case Ok(None) => Stopped(Ok(false))
    case Ok(Some((e1, f))) =>
      var t := EdgeLabel(g, e0).topology;
      var top' := top * (f.0 * f.1);
      if top' == 0.0 then Stopped(Ok(false))
      else Running(hm[t := hm[t][..|hm[t]| - 1]], top', pairs + [(e0, e1)])
  }

  /** A numerator pass whose pair pass went through: the product with the
      pair's factor, False when that product is zero. */
  lemma NumeratorPassPaired(m: Weights, names: seq<string>, g: Graph, u0: Vertex, v0: Vertex, e0: Edge,
                            hm: map<string, seq<Edge>>, top: real, pairs: seq<(Edge, Edge)>, e1: Edge, f: (real, real))
    requires PairPass(m, names, g, u0, v0, e0, hm) == Ok(Some((e1, f)))
    ensures HasEdge(g, e0.0, e0.1)
    ensures var t := EdgeLabel(g, e0).topology;
      t in hm && NumeratorPass(m, names, g, u0, v0, e0, hm, top, pairs)
      == if top * (f.0 * f.1) == 0.0 then Stopped(Ok(false))
         else Running(hm[t := hm[t][..|hm[t]| - 1]], top * (f.0 * f.1), pairs + [(e0, e1)])
  {
  }

  /** The numerator loop over the u-corner, from the hashmap `hm0`. */
  function NumeratorRun(m: Weights, names: seq<string>, g: Graph, u0: Vertex, v0: Vertex, e0s: seq<Edge>,
                        hm0: map<string, seq<Edge>>): Tally
  {
    if e0s == [] then Running(hm0, 1.0, [])
    else
      var prev := NumeratorRun(m, names, g, u0, v0, e0s[..|e0s| - 1], hm0);
      if prev.Stopped? then prev
      else NumeratorPass(m, names, g, u0, v0, e0s[|e0s| - 1], prev.hm, prev.value, prev.pairs)
  }

  /** The state of the denominator loop: the running product, or the
      outcome of an early return. */
  datatype Bottom = Partial(value: real) | Halted(outcome: Result<bool>)

  /** One pass of the denominator loop over a zipped pair: an error
      computing either edge's key is passed on, the u-side edge's first,
      and a missing weight returns False. */
  function DenominatorPass(m: Weights, names: seq<string>, g: Graph, z: (Edge, Edge), bottom: real): Bottom
  {
    var a, b := EdgeWeight(m, names, g, z.0), EdgeWeight(m, names, g, z.1);
    if a.Err? then Halted(Err(a.error))
    else if b.Err? then Halted(Err(b.error))
    else if a.value.None? || b.value.None? then Halted(Ok(false))
    else Partial(bottom * (a.value.value * b.value.value))
  }

  /** The denominator loop over the zipped pairs. */
  function DenominatorRun(m: Weights, names: seq<string>, g: Graph, zs: seq<(Edge, Edge)>): Bottom
  {
    if zs == [] then Partial(1.0)
    else
      var prev := DenominatorRun(m, names, g, zs[..|zs| - 1]);
      if prev.Halted? then prev
      else DenominatorPass(m, names, g, zs[|zs| - 1], prev.value)
  }

  /** `swap_condition`: the numerator loop over the hashmap of the
      v-corner, then the denominator loop over the zipped corners; a zero
      denominator raises the engine's own error, and otherwise the swap is
      taken when the ratio exceeds `rnd`. */
  function SwapOutcome(m: Weights, names: seq<string>, g: Graph, e0s: seq<Edge>, e1s: seq<Edge>,
                       u0: Vertex, v0: Vertex, rnd: real): Result<bool>
    requires InGraph(g, e1s)
  {
    var top := NumeratorRun(m, names, g, u0, v0, e0s, Hashmap(g, e1s));
    if top.Stopped? then top.outcome
    else
      var bottom := DenominatorRun(m, names, g, Zip(e0s, e1s));
      if bottom.Halted? then bottom.outcome
      else if bottom.value == 0.0 then Err(RewiringError)
      else Ok((top.value + 0.0) / bottom.value > rnd)
  }

  predicate StopOutcome(o: Result<bool>)
  {
    o == Ok(false) || (o.Err? && o.error in {KeyError, IndexError, TypeError, NameError, RewiringError})
  }

  /** The numerator loop over a non-empty corner is the loop over all but
      its last edge followed by one more pass, unless it already stopped. */
  lemma NumeratorRunLast(m: Weights, names: seq<string>, g: Graph, u0: Vertex, v0: Vertex,
                         e0s: seq<Edge>, i: nat, hm0: map<string, seq<Edge>>)
    requires i < |e0s|
    ensures var prev := NumeratorRun(m, names, g, u0, v0, e0s[..i], hm0);
      NumeratorRun(m, names, g, u0, v0, e0s[..i + 1], hm0)
      == if prev.Stopped? then prev else NumeratorPass(m, names, g, u0, v0, e0s[i], prev.hm, prev.value, prev.pairs)
  {
    assert e0s[..i + 1][..i] == e0s[..i];
  }

  /** A numerator loop that stopped stays stopped. */
  lemma {:induction false} NumeratorRunStopped(m: Weights, names: seq<string>, g: Graph, u0: Vertex, v0: Vertex,
                                               e0s: seq<Edge>, hm0: map<string, seq<Edge>>, j: nat)
    requires 0 < j <= |e0s| && NumeratorRun(m, names, g, u0, v0, e0s[..j], hm0).Stopped?
    ensures NumeratorRun(m, names, g, u0, v0, e0s, hm0) == NumeratorRun(m, names, g, u0, v0, e0s[..j], hm0)
  {
    if j < |e0s| {
      var e0s' := e0s[..|e0s| - 1];
      assert e0s'[..j] == e0s[..j];
      NumeratorRunStopped(m, names, g, u0, v0, e0s', hm0, j);
    } else {
      assert e0s[..j] == e0s;
    }
  }

  /** The denominator loop over a non-empty list of zipped pairs is the loop
      over all but its last pair followed by one more pass, unless it
      already halted. */
  lemma DenominatorRunLast(m: Weights, names: seq<string>, g: Graph, zs: seq<(Edge, Edge)>, i: nat)
    requires i < |zs|
    ensures var prev := DenominatorRun(m, names, g, zs[..i]);
      DenominatorRun(m, names, g, zs[..i + 1])
      == if prev.Halted? then prev else DenominatorPass(m, names, g, zs[i], prev.value)
  {
    assert zs[..i + 1][..i] == zs[..i];
  }

  /** A denominator pass over a pair with both weights extends the list of
      factors, the product and the run alike. */
  lemma DenominatorStep(m: Weights, names: seq<string>, g: Graph, zs: seq<(Edge, Edge)>, k: nat,
                        bottoms: seq<(real, real)>, bottom: real, w: (real, real))
    requires k < |zs| && ZipFactor(m, names, g, zs[k]) == Some(w)
    requires Denominator(m, names, g, zs[..k]) == Some(bottoms) && bottom == Product(bottoms)
    requires DenominatorRun(m, names, g, zs[..k]) == Partial(bottom)
    ensures Denominator(m, names, g, zs[..k + 1]) == Some(bottoms + [w])
    ensures Product(bottoms + [w]) == bottom * (w.0 * w.1)
    ensures DenominatorRun(m, names, g, zs[..k + 1]) == Partial(bottom * (w.0 * w.1))
  {
    DenominatorRunLast(m, names, g, zs, k);
    DenominatorAppend(m, names, g, zs[..k], zs[k]);
    assert zs[..k + 1] == zs[..k] + [zs[k]];
    ProductAppend(bottoms, w, bottom);
  }

  /** A denominator loop that halted stays halted. */
  lemma {:induction false} DenominatorRunHalted(m: Weights, names: seq<string>, g: Graph, zs: seq<(Edge, Edge)>, j: nat)
    requires 0 < j <= |zs| && DenominatorRun(m, names, g, zs[..j]).Halted?
    ensures DenominatorRun(m, names, g, zs) == DenominatorRun(m, names, g, zs[..j])
  {
    if j < |zs| {
      var zs' := zs[..|zs| - 1];
      assert zs'[..j] == zs[..j];
      DenominatorRunHalted(m, names, g, zs', j);
    } else {
      assert zs[..j] == zs;
    }
  }

  /** A successful pair pass popped the last edge of e0's topology bucket
      and found the pair's factor. */
  lemma PairPassFactor(m: Weights, names: seq<string>, g: Graph, u0: Vertex, v0: Vertex, e0: Edge,
                       hm: map<string, seq<Edge>>)
    requires PairPass(m, names, g, u0, v0, e0, hm).Ok? && PairPass(m, names, g, u0, v0, e0, hm).value.Some?
    ensures HasEdge(g, e0.0, e0.1)
    ensures var t, p := EdgeLabel(g, e0).topology, PairPass(m, names, g, u0, v0, e0, hm).value.value;
      t in hm && hm[t] != [] && p.0 == hm[t][|hm[t]| - 1]
      && PairFactor(m, names, g, u0, v0, (e0, p.0)) == Some(p.1)
  {
  }

  /** Every exception a pair pass raises is one of the listed ones. */
  lemma PairPassErrors(m: Weights, names: seq<string>, g: Graph, u0: Vertex, v0: Vertex, e0: Edge,
                       hm: map<string, seq<Edge>>)
    ensures PairPass(m, names, g, u0, v0, e0, hm).Err? ==>
      PairPass(m, names, g, u0, v0, e0, hm).error in {KeyError, IndexError, TypeError, NameError, RewiringError}
  {
  }

  /** How one numerator pass ends: it stops with False or one of the
      listed errors, or it pops the last edge of e0's topology bucket,
      pairs it with e0 and multiplies in the pair's factor, keeping the
      product non-zero. */
  lemma NumeratorPassShape(m: Weights, names: seq<string>, g: Graph, u0: Vertex, v0: Vertex, e0: Edge,
                           hm: map<string, seq<Edge>>, top: real, pairs: seq<(Edge, Edge)>)
    ensures var t := NumeratorPass(m, names, g, u0, v0, e0, hm, top, pairs);
      (t.Stopped? ==> StopOutcome(t.outcome))
      && (t.Running? ==>
        var p := PairPass(m, names, g, u0, v0, e0, hm);
        p.Ok? && p.value.Some? && HasEdge(g, e0.0, e0.1)
        && var tp, e1, f := EdgeLabel(g, e0).topology, p.value.value.0, p.value.value.1;
        tp in hm && hm[tp] != [] && e1 == hm[tp][|hm[tp]| - 1]
        && PairFactor(m, names, g, u0, v0, (e0, e1)) == Some(f) && top * (f.0 * f.1) != 0.0
        && t == Running(hm[tp := hm[tp][..|hm[tp]| - 1]], top * (f.0 * f.1), pairs + [(e0, e1)]))
  {
    PairPassErrors(m, names, g, u0, v0, e0, hm);
    var p := PairPass(m, names, g, u0, v0, e0, hm);
    if p.Ok? && p.value.Some? {
      PairPassFactor(m, names, g, u0, v0, e0, hm);
    }
  }

  /** The numerator loop's state after the u-corner edges e0s: stopped
      with False or one of the listed errors, or running with every edge of
      e0s paired, in order, with a v-corner edge of the same topology popped
      from the hashmap. */
  ghost predicate PairedTally(g: Graph, e1s: seq<Edge>, u0: Vertex, v0: Vertex, e0s: seq<Edge>, t: Tally)
  {
    (t.Stopped? ==> StopOutcome(t.outcome))
    && (t.Running? ==>
          Firsts(t.pairs) == e0s && Paired(g, e1s, u0, v0, t.pairs) && Unpopped(g, e1s, t.hm, Seconds(t.pairs)))
  }

  /** A numerator loop that ran through has paired every u-corner edge, in
      order, with a v-corner edge of the same topology popped from the
      hashmap; one that stopped returned False or raised one of the listed
      errors. */
  lemma {:induction false} NumeratorRunPairs(m: Weights, names: seq<string>, g: Graph, u0: Vertex, v0: Vertex,
                                             e0s: seq<Edge>, e1s: seq<Edge>)
    requires InGraph(g, e0s) && InGraph(g, e1s) && Oriented(u0, e0s) && Oriented(v0, e1s)
    ensures PairedTally(g, e1s, u0, v0, e0s, NumeratorRun(m, names, g, u0, v0, e0s, Hashmap(g, e1s)))
  {
    if e0s == [] {
      HashmapStart(g, e1s);
      assert Firsts<Edge>([]) == [] && Seconds<Edge>([]) == [];
    } else {
      var e0s', e0 := e0s[..|e0s| - 1], e0s[|e0s| - 1];
      assert e0 in e0s;
      assert forall x :: x in e0s' ==> x in e0s;
      assert e0s == e0s' + [e0];
      NumeratorRunPairs(m, names, g, u0, v0, e0s', e1s);
      var prev := NumeratorRun(m, names, g, u0, v0, e0s', Hashmap(g, e1s));
      if prev.Running? {
        NumeratorPassPairs(m, names, g, u0, v0, e1s, e0s', e0, prev.hm, prev.value, prev.pairs);
      }
    }
  }

  /** One numerator pass keeps the pairing invariant of the loop: it stops
      with False or one of the listed errors, or it pairs e0 with a popped
      v-corner edge of the same topology. */
  lemma NumeratorPassPairs(m: Weights, names: seq<string>, g: Graph, u0: Vertex, v0: Vertex, e1s: seq<Edge>,
                           e0s: seq<Edge>, e0: Edge, hm: map<string, seq<Edge>>, top: real, pairs: seq<(Edge, Edge)>)
    requires InGraph(g, e1s) && Oriented(v0, e1s) && HasEdge(g, e0.0, e0.1) && OtherVertex(u0, e0).Ok?
    requires Firsts(pairs) == e0s && Paired(g, e1s, u0, v0, pairs) && Unpopped(g, e1s, hm, Seconds(pairs))
    ensures PairedTally(g, e1s, u0, v0, e0s + [e0], NumeratorPass(m, names, g, u0, v0, e0, hm, top, pairs))
  {
    NumeratorPassShape(m, names, g, u0, v0, e0, hm, top, pairs);
    var t := NumeratorPass(m, names, g, u0, v0, e0, hm, top, pairs);
    if t.Running? {
      PairedStep(g, e1s, u0, v0, e0s, e0, hm, pairs);
    }
  }

  /** Pairing e0 with the last edge of its topology bucket extends the
      pairing by e0 and keeps every v-corner edge accounted for. */
  lemma PairedStep(g: Graph, e1s: seq<Edge>, u0: Vertex, v0: Vertex, e0s: seq<Edge>, e0: Edge,
                   hm: map<string, seq<Edge>>, pairs: seq<(Edge, Edge)>)
    requires InGraph(g, e1s) && Oriented(v0, e1s) && HasEdge(g, e0.0, e0.1) && OtherVertex(u0, e0).Ok?
    requires Firsts(pairs) == e0s && Paired(g, e1s, u0, v0, pairs) && Unpopped(g, e1s, hm, Seconds(pairs))
    requires EdgeLabel(g, e0).topology in hm && hm[EdgeLabel(g, e0).topology] != []
    ensures var tp := EdgeLabel(g, e0).topology; var e1 := hm[tp][|hm[tp]| - 1];
      var pairs' := pairs + [(e0, e1)];
      Firsts(pairs') == e0s + [e0] && Paired(g, e1s, u0, v0, pairs')
      && Unpopped(g, e1s, hm[tp := hm[tp][..|hm[tp]| - 1]], Seconds(pairs'))
  {
    var tp := EdgeLabel(g, e0).topology;
    var e1 := hm[tp][|hm[tp]| - 1];
    FirstsSecondsAppend(pairs, (e0, e1));
    PopStep(g, e1s, hm, Seconds(pairs), tp);
    PairedAppend(g, e1s, u0, v0, pairs, (e0, e1));
  }

  /** The hashmap of the v-corner accounts for every v-corner edge before
      anything is popped. */
  lemma HashmapStart(g: Graph, e1s: seq<Edge>)
    requires InGraph(g, e1s)
    ensures Unpopped(g, e1s, Hashmap(g, e1s), [])
  {
    var hm0 := Hashmap(g, e1s);
    forall t | t in hm0
      ensures hm0[t] == Bucket(g, e1s, t)
    {
      HashmapBuckets(g, e1s, t);
    }
    forall t ensures t in hm0 <==> exists x :: x in e1s && EdgeLabel(g, x).topology == t {
      HashmapBuckets(g, e1s, t);
    }
    UnpoppedStart(g, e1s, hm0);
  }

  /** One denominator pass multiplies in the zipped pair's weights when
      it has both, and otherwise returns False or raises one of the listed
      errors. */
  lemma DenominatorPassShape(m: Weights, names: seq<string>, g: Graph, z: (Edge, Edge), bottom: real)
    ensures var b, w := DenominatorPass(m, names, g, z, bottom), ZipFactor(m, names, g, z);
      (b.Halted? ==> StopOutcome(b.outcome))
      && (b.Partial? <==> w.Some?)
      && (b.Partial? ==> b.value == bottom * (w.value.0 * w.value.1))
  {
  }

  /** A running numerator state holds the product of its pairs' factors,
      and that product is not zero. */
  ghost predicate ProductTally(m: Weights, names: seq<string>, g: Graph, u0: Vertex, v0: Vertex, t: Tally)
  {
    t.Running? ==>
      Numerator(m, names, g, u0, v0, t.pairs).Some?
      && t.value == Product(Numerator(m, names, g, u0, v0, t.pairs).value) && t.value != 0.0
  }

  /** One more numerator pass that keeps running multiplies one more
      factor into the product, keeping it non-zero. */
  lemma NumeratorPassProduct(m: Weights, names: seq<string>, g: Graph, u0: Vertex, v0: Vertex, e0: Edge,
                             hm: map<string, seq<Edge>>, top: real, pairs: seq<(Edge, Edge)>, factors: seq<(real, real)>)
    requires Numerator(m, names, g, u0, v0, pairs) == Some(factors) && top == Product(factors)
    ensures ProductTally(m, names, g, u0, v0, NumeratorPass(m, names, g, u0, v0, e0, hm, top, pairs))
  {
    var p := PairPass(m, names, g, u0, v0, e0, hm);
    if p.Ok? && p.value.Some? {
      var e1, f := p.value.value.0, p.value.value.1;
      NumeratorPassPaired(m, names, g, u0, v0, e0, hm, top, pairs, e1, f);
      PairPassFactor(m, names, g, u0, v0, e0, hm);
      if top * (f.0 * f.1) != 0.0 {
        NumeratorStep(m, names, g, u0, v0, pairs, (e0, e1), factors, f, top);
      }
    }
  }

  /** A numerator loop that ran through holds the product of its pairs'
      factors, and that product is not zero. */
  lemma {:induction false} NumeratorRunProduct(m: Weights, names: seq<string>, g: Graph, u0: Vertex, v0: Vertex,
                                               e0s: seq<Edge>, hm0: map<string, seq<Edge>>)
    ensures ProductTally(m, names, g, u0, v0, NumeratorRun(m, names, g, u0, v0, e0s, hm0))
  {
    if e0s == [] {
      assert Numerator(m, names, g, u0, v0, []) == Some([]);
    } else {
      var e0s', e0 := e0s[..|e0s| - 1], e0s[|e0s| - 1];
      NumeratorRunProduct(m, names, g, u0, v0, e0s', hm0);
      var prev := NumeratorRun(m, names, g, u0, v0, e0s', hm0);
      if prev.Running? {
        NumeratorPassProduct(m, names, g, u0, v0, e0, prev.hm, prev.value, prev.pairs,
                             Numerator(m, names, g, u0, v0, prev.pairs).value);
      }
    }
  }

  /** The denominator loop's state over the zipped pairs zs: halted with
      False or one of the listed errors, or running exactly when every pair
      has both weights, with the product of those weights. */
  ghost predicate DenominatorTally(m: Weights, names: seq<string>, g: Graph, zs: seq<(Edge, Edge)>, b: Bottom)
  {
    (b.Halted? ==> StopOutcome(b.outcome))
    && (b.Partial? <==> Denominator(m, names, g, zs).Some?)
    && (b.Partial? ==> b.value == Product(Denominator(m, names, g, zs).value))
  }

  /** The weights of a list of zipped pairs are those of all but its last
      pair followed by the last pair's, when every pair has both. */
  lemma DenominatorLast(m: Weights, names: seq<string>, g: Graph, zs: seq<(Edge, Edge)>)
    requires zs != []
    ensures var prev, w := Denominator(m, names, g, zs[..|zs| - 1]), ZipFactor(m, names, g, zs[|zs| - 1]);
      Denominator(m, names, g, zs) == if prev.None? || w.None? then None else Some(prev.value + [w.value])
  {
    var os := ZipFactors(m, names, g, zs[..|zs| - 1]);
    assert ZipFactors(m, names, g, zs) == os + [ZipFactor(m, names, g, zs[|zs| - 1])];
    assert (os + [ZipFactor(m, names, g, zs[|zs| - 1])])[..|os|] == os;
  }

  /** One more denominator pass keeps that description. */
  lemma DenominatorRunStep(m: Weights, names: seq<string>, g: Graph, zs: seq<(Edge, Edge)>)
    requires zs != []
    requires DenominatorTally(m, names, g, zs[..|zs| - 1], DenominatorRun(m, names, g, zs[..|zs| - 1]))
    ensures DenominatorTally(m, names, g, zs, DenominatorRun(m, names, g, zs))
  {
    var zs', z := zs[..|zs| - 1], zs[|zs| - 1];
    var prev := DenominatorRun(m, names, g, zs');
    DenominatorLast(m, names, g, zs);
    assert zs == zs' + [z];
    if prev.Partial? {
      assert DenominatorRun(m, names, g, zs) == DenominatorPass(m, names, g, z, prev.value);
      DenominatorPartialStep(m, names, g, zs', z, prev.value);
    } else {
      assert DenominatorRun(m, names, g, zs) == prev;
    }
  }

  /** The pass after a running prefix: it multiplies in the last pair's
      weights when it has both, and otherwise halts. */
  lemma DenominatorPartialStep(m: Weights, names: seq<string>, g: Graph, zs: seq<(Edge, Edge)>, z: (Edge, Edge), bottom: real)
    requires Denominator(m, names, g, zs).Some? && bottom == Product(Denominator(m, names, g, zs).value)
    requires var w := ZipFactor(m, names, g, z);
      Denominator(m, names, g, zs + [z]) == if w.None? then None else Some(Denominator(m, names, g, zs).value + [w.value])
    ensures DenominatorTally(m, names, g, zs + [z], DenominatorPass(m, names, g, z, bottom))
  {
    var w := ZipFactor(m, names, g, z);
    DenominatorPassShape(m, names, g, z, bottom);
    if w.Some? {
      ProductAppend(Denominator(m, names, g, zs).value, w.value, bottom);
    }
  }

  /** A denominator loop that ran through holds the product of the
      zipped pairs' weights, and it runs through exactly when every pair
      has both weights; one that halted returned False or raised one of the
      listed errors. */
  lemma {:induction false} DenominatorRunProduct(m: Weights, names: seq<string>, g: Graph, zs: seq<(Edge, Edge)>)
    ensures DenominatorTally(m, names, g, zs, DenominatorRun(m, names, g, zs))
  {
    if zs != [] {
      DenominatorRunProduct(m, names, g, zs[..|zs| - 1]);
      DenominatorRunStep(m, names, g, zs);
    }
  }

  /** What `swap_condition` returns: an exception is one of the listed
      ones, and an accepted swap is one that `SwapAccepted` describes, with
      the pairs of the numerator loop and the proposals they leave
      behind. */
  lemma SwapOutcomeMeaning(m: Weights, names: seq<string>, g: Graph, e0s: seq<Edge>, e1s: seq<Edge>,
                           u0: Vertex, v0: Vertex, rnd: real)
    requires InGraph(g, e0s) && InGraph(g, e1s) && Oriented(u0, e0s) && Oriented(v0, e1s)
    ensures var o := SwapOutcome(m, names, g, e0s, e1s, u0, v0, rnd); o.Err? ==> StopOutcome(o)
    ensures SwapOutcome(m, names, g, e0s, e1s, u0, v0, rnd) == Ok(true) ==>
      var top := NumeratorRun(m, names, g, u0, v0, e0s, Hashmap(g, e1s));
      top.Running? && PairsOk(g, u0, v0, top.pairs)
      && SwapAccepted(m, names, g, e0s, e1s, u0, v0, rnd, top.pairs, Proposals(g, u0, v0, top.pairs))
  {
    var o := SwapOutcome(m, names, g, e0s, e1s, u0, v0, rnd);
    var top, bottom := NumeratorRun(m, names, g, u0, v0, e0s, Hashmap(g, e1s)), DenominatorRun(m, names, g, Zip(e0s, e1s));
    NumeratorRunPairs(m, names, g, u0, v0, e0s, e1s);
    if top.Stopped? {
      assert o == top.outcome;
    } else {
      DenominatorRunProduct(m, names, g, Zip(e0s, e1s));
      if bottom.Halted? {
        assert o == bottom.outcome;
      } else if bottom.value == 0.0 {
        assert o == Err(RewiringError);
      } else {
        assert o == Ok((top.value + 0.0) / bottom.value > rnd);
        if (top.value + 0.0) / bottom.value > rnd {
          NumeratorRunProduct(m, names, g, u0, v0, e0s, Hashmap(g, e1s));
          TalliesAccepted(m, names, g, e0s, e1s, u0, v0, rnd, top, bottom);
        }
      }
    }
  }

  /** Both loops ran through and their ratio beats the draw: the swap is
      an accepted one. */
  lemma TalliesAccepted(m: Weights, names: seq<string>, g: Graph, e0s: seq<Edge>, e1s: seq<Edge>,
                        u0: Vertex, v0: Vertex, rnd: real, top: Tally, bottom: Bottom)
    requires InGraph(g, e0s) && InGraph(g, e1s)
    requires top.Running? && PairedTally(g, e1s, u0, v0, e0s, top) && ProductTally(m, names, g, u0, v0, top)
    requires bottom.Partial? && DenominatorTally(m, names, g, Zip(e0s, e1s), bottom)
    requires bottom.value != 0.0 && (top.value + 0.0) / bottom.value > rnd
    ensures PairsOk(g, u0, v0, top.pairs)
    ensures SwapAccepted(m, names, g, e0s, e1s, u0, v0, rnd, top.pairs, Proposals(g, u0, v0, top.pairs))
  {
    TakenBag(g, e1s, top.hm, Seconds(top.pairs));
  }

  /** The numerator loop after the u-corner edges `done`: each paired, in
      order, with a popped v-corner edge of its topology, the factors of
      those pairs collected into a non-zero product, and the state that of
      `NumeratorRun` from the hashmap hm0. */
  ghost predicate NumeratorSoFar(m: Weights, names: seq<string>, g: Graph, e1s: seq<Edge>, u0: Vertex, v0: Vertex,
                                 done: seq<Edge>, hm0: map<string, seq<Edge>>, hm: map<string, seq<Edge>>,
                                 top: real, pairs: seq<(Edge, Edge)>, factors: seq<(real, real)>)
  {
    Firsts(pairs) == done && Paired(g, e1s, u0, v0, pairs) && Unpopped(g, e1s, hm, Seconds(pairs))
    && Numerator(m, names, g, u0, v0, pairs) == Some(factors) && top == Product(factors) && top != 0.0
    && NumeratorRun(m, names, g, u0, v0, done, hm0) == Running(hm, top, pairs)
  }

  /** A pass of the numerator loop that went through extends that
      description by one edge. */
  lemma NumeratorSoFarStep(m: Weights, names: seq<string>, g: Graph, e1s: seq<Edge>, u0: Vertex, v0: Vertex,
                           e0s: seq<Edge>, i: nat, hm0: map<string, seq<Edge>>, hm: map<string, seq<Edge>>,
                           top: real, pairs: seq<(Edge, Edge)>, factors: seq<(real, real)>,
                           hm': map<string, seq<Edge>>, e1: Edge, f: (real, real), top': real)
    requires i < |e0s| && NumeratorSoFar(m, names, g, e1s, u0, v0, e0s[..i], hm0, hm, top, pairs, factors)
    requires HasEdge(g, e0s[i].0, e0s[i].1) && OtherVertex(u0, e0s[i]).Ok?
    requires e1 in e1s && HasEdge(g, e1.0, e1.1) && OtherVertex(v0, e1).Ok?
    requires EdgeLabel(g, e1).topology == EdgeLabel(g, e0s[i]).topology
    requires Unpopped(g, e1s, hm', Seconds(pairs) + [e1])
    requires PairFactor(m, names, g, u0, v0, (e0s[i], e1)) == Some(f) && top' == top * (f.0 * f.1) && top' != 0.0
    requires NumeratorPass(m, names, g, u0, v0, e0s[i], hm, top, pairs) == Running(hm', top', pairs + [(e0s[i], e1)])
    ensures NumeratorSoFar(m, names, g, e1s, u0, v0, e0s[..i + 1], hm0, hm', top', pairs + [(e0s[i], e1)], factors + [f])
  {
    var e0 := e0s[i];
    NumeratorRunLast(m, names, g, u0, v0, e0s, i, hm0);
    NumeratorStep(m, names, g, u0, v0, pairs, (e0, e1), factors, f, top);
    PairedAppend(g, e1s, u0, v0, pairs, (e0, e1));
    FirstsSecondsAppend(pairs, (e0, e1));
    PrefixStep(e0s, i);
  }

  // ----- the accept step as `rewire` runs it -----

  /** Once insertion has failed, inserting more proposals after it fails
      the same way. */
  lemma {:induction false} InsertExtendErr(g: Graph, ps: seq<ProposalEdge>, more: seq<ProposalEdge>)
    requires InsertProposals(g, ps).Err?
    ensures InsertProposals(g, ps + more) == InsertProposals(g, ps)
  {
    if more != [] {
      var more' := more[..|more| - 1];
      InsertExtendErr(g, ps, more');
      assert (ps + more)[..|ps + more| - 1] == ps + more';
    } else {
      assert ps + more == ps;
    }
  }

  /** Once removal has failed, removing more edges after it fails the same
      way. */
  lemma {:induction false} RemoveExtendErr(g: Graph, os: seq<Edge>, more: seq<Edge>)
    requires RemoveEdges(g, os).Err?
    ensures RemoveEdges(g, os + more) == RemoveEdges(g, os)
  {
    if more != [] {
      var more' := more[..|more| - 1];
      RemoveExtendErr(g, os, more');
      assert (os + more)[..|os + more| - 1] == os + more';
    } else {
      assert os + more == os;
    }
  }

  lemma InsertStep(g: Graph, ps: seq<ProposalEdge>, i: nat)
    requires i < |ps|
    ensures InsertProposals(g, ps[..i + 1]) ==
      (var g' :- InsertProposals(g, ps[..i]);
       if HasEdge(g', ps[i].newEdge.0, ps[i].newEdge.1) then Err(RewiringError)
       else Ok(AddEdge(g', ps[i].newEdge, ProposalLabel(ps[i]))))
  {
    assert ps[..i + 1][..i] == ps[..i];
  }

  /** A proposal already present fails the whole insertion. */
  lemma InsertFails(g: Graph, ps: seq<ProposalEdge>, i: nat)
    requires i < |ps| && InsertProposals(g, ps[..i + 1]).Err?
    ensures InsertProposals(g, ps) == InsertProposals(g, ps[..i + 1])
  {
    InsertExtendErr(g, ps[..i + 1], ps[i + 1..]);
    assert ps[..i + 1] + ps[i + 1..] == ps;
  }

  lemma RemoveStep(g: Graph, os: seq<Edge>, x: Edge)
    ensures RemoveEdges(g, os + [x]) == (var g' :- RemoveEdges(g, os); RemoveEdge(g', x))
  {
    assert (os + [x])[..|os|] == os;
  }

  /** The removal order up to the j-th zipped pair, and what is left of it. */
  lemma OriginalsStep(zs: seq<(Edge, Edge)>, j: nat)
    requires j < |zs|
    ensures Interleave(zs[..j + 1]) == Interleave(zs[..j]) + [zs[j].0, zs[j].1]
  {
    assert zs[..j + 1][..j] == zs[..j];
  }

  lemma OriginalsRest(zs: seq<(Edge, Edge)>, j: nat)
    requires j < |zs|
    ensures Interleave(zs) == Interleave(zs[..j + 1]) + Interleave(zs[j + 1..])
  {
    var front, back := zs[..j + 1], zs[j + 1..];
    assert front + back == zs;
    InterleaveConcat(front, back);
  }

  /** Removing the next zipped pair continues the removal order; a
      failure there is the failure of the whole order. */
  lemma RemovePairStep(g: Graph, os: seq<Edge>, a: Edge, b: Edge, rest: seq<Edge>, h: Graph)
    requires RemoveEdges(g, os) == Ok(h)
    ensures RemoveEdges(g, os + [a, b]) == (var h' :- RemoveEdge(h, a); RemoveEdge(h', b))
    ensures RemoveEdges(g, os + [a, b]).Err? ==> RemoveEdges(g, os + [a, b] + rest) == RemoveEdges(g, os + [a, b])
  {
    assert os + [a, b] == os + [a] + [b];
    RemoveStep(g, os, a);
    RemoveStep(g, os + [a], b);
    if RemoveEdges(g, os + [a]).Err? {
      RemoveExtendErr(g, os + [a], [b] + rest);
      assert os + [a] + ([b] + rest) == os + [a, b] + rest;
      RemoveExtendErr(g, os + [a], [b]);
    } else if RemoveEdges(g, os + [a, b]).Err? {
      RemoveExtendErr(g, os + [a, b], rest);
    }
  }

  /** The accept branch of `rewire`: add every proposed edge (an edge
      already present is an error) and put it in the edge pool, then remove
      the zipped original edges from the graph and the pool, then insist on
      the edge count `n`. The outcome is the accept step's specification,
      and the pool keeps holding exactly the edges of the graph. */
  method Accept(g: Graph, pool: DrawSet<Edge>, ps: seq<ProposalEdge>, e0s: seq<Edge>, e1s: seq<Edge>, n: nat)
    returns (r: Result<Graph>)
    requires Canonical(g) && pool.Valid() && pool.Elements() == g.edges.Keys
    modifies pool
    ensures pool.Valid()
    ensures r == AcceptSpec(g, ps, e0s, e1s, n)
    ensures r.Err? ==> r.error in {RewiringError, NetworkXError}
    ensures r.Ok? ==> pool.Elements() == r.value.edges.Keys
  {
    var g1 :- InsertAll(g, pool, ps);
    var g2 :- RemoveAll(g1, pool, e0s, e1s);
    if NumberOfEdges(g2) != n {
      return Err(RewiringError);
    }
    r := Ok(g2);
  }

  /** The insertion loop of the accept branch. */
  method InsertAll(g: Graph, pool: DrawSet<Edge>, ps: seq<ProposalEdge>) returns (r: Result<Graph>)
    requires Canonical(g) && pool.Valid() && pool.Elements() == g.edges.Keys
    modifies pool
    ensures pool.Valid()
    ensures r == InsertProposals(g, ps)
    ensures r.Err? ==> r.error == RewiringError
    ensures r.Ok? ==> Canonical(r.value) && pool.Elements() == r.value.edges.Keys
  {
    var h := g;
    var i := 0;
    while i < |ps|
      invariant 0 <= i <= |ps|
      invariant InsertProposals(g, ps[..i]) == Ok(h)
      invariant Canonical(h) && pool.Valid() && pool.Elements() == h.edges.Keys
    {
      var e := ps[i].newEdge;
      InsertStep(g, ps, i);
      if HasEdge(h, e.0, e.1) {
        InsertFails(g, ps, i);
        return Err(RewiringError);
      }
      h := AddEdge(h, e, ProposalLabel(ps[i]));
      pool.Add(Sorted(e));
      i := i + 1;
    }
    assert ps[..i] == ps;
    r := Ok(h);
  }

  /** The removal loop of the accept branch: per zipped pair, both edges
      leave the graph, then both leave the pool. */
  method RemoveAll(g: Graph, pool: DrawSet<Edge>, e0s: seq<Edge>, e1s: seq<Edge>) returns (r: Result<Graph>)
    requires Canonical(g) && pool.Valid() && pool.Elements() == g.edges.Keys
    modifies pool
    ensures pool.Valid()
    ensures r == RemoveEdges(g, Originals(e0s, e1s))
    ensures r.Err? ==> r.error == NetworkXError
    ensures r.Ok? ==> pool.Elements() == r.value.edges.Keys
  {
    var h := g;
    var zipped := Zip(e0s, e1s);
    var j := 0;
    while j < |zipped|
      invariant 0 <= j <= |zipped|
      invariant RemoveEdges(g, Interleave(zipped[..j])) == Ok(h)
      invariant Canonical(h) && pool.Valid() && pool.Elements() == h.edges.Keys
    {
      var (a, b) := zipped[j];
      OriginalsStep(zipped, j);
      OriginalsRest(zipped, j);
      RemovePairStep(g, Interleave(zipped[..j]), a, b, Interleave(zipped[j + 1..]), h);
      var r' := RemovePair(h, pool, a, b);
      if r'.Err? {
        return r';
      }
      h := r'.value;
      j := j + 1;
    }
    assert zipped[..j] == zipped;
    r := Ok(h);
  }

  /** One zipped pair of the removal loop: both edges leave the graph,
      then both leave the pool. */
  method RemovePair(h: Graph, pool: DrawSet<Edge>, a: Edge, b: Edge) returns (r: Result<Graph>)
    requires Canonical(h) && pool.Valid() && pool.Elements() == h.edges.Keys
    modifies pool
    ensures pool.Valid()
    ensures r == (var h' :- RemoveEdge(h, a); RemoveEdge(h', b))
    ensures r.Err? ==> r.error == NetworkXError
    ensures r.Ok? ==> Canonical(r.value) && pool.Elements() == r.value.edges.Keys
  {
    var ra := RemoveEdge(h, a);
    if ra.Err? {
      return Err(NetworkXError);
    }
    r := RemoveEdge(ra.value, b);
    if r.Err? {
      return;
    }
    var ok0 := pool.Remove(Sorted(a));
    var ok1 := pool.Remove(Sorted(b));
  }

  // ----- what a run of `rewire` keeps -----

  /** Everything a sequence of swaps keeps of the network it started from:
      stored sorted, the same joint degrees, number of edges, degree of
      every vertex and multiset of (topology, motif id) labels. */
  ghost predicate Preserved(g: Graph, g0: Graph)
  {
    Canonical(g) && g.jd == g0.jd
    && NumberOfEdges(g) == NumberOfEdges(g0)
    && Endpoints(g) == Endpoints(g0)
    && Labels(g) == Labels(g0)
  }

  /** Equal endpoint multisets are equal degrees. */
  lemma PreservedDegrees(g: Graph, g0: Graph)
    requires Preserved(g, g0)
    ensures forall u :: Degree(g, u) == Degree(g0, u)
  {
  }

  /** The number of accepted swaps after which `rewire` stops: the loop
      runs while the count is at most the limit. */
  function Swaps(limit: int): (k: nat)
    ensures limit >= 0 ==> k == limit + 1
    ensures limit < 0 ==> k == 0
  {
    if limit < 0 then 0 else limit + 1
  }

  lemma SubBagEqual<X>(a: multiset<X>, b: multiset<X>)
    requires a <= b && |a| == |b|
    ensures a == b
  {
    assert b == a + (b - a);
    assert |b - a| == 0;
  }

  /** Two corners that `rewire` may hand to `swap_condition`. */
  predicate Swappable(g: Graph, u0: Vertex, v0: Vertex, e0s: seq<Edge>, e1s: seq<Edge>)
  {
    InGraph(g, e0s) && InGraph(g, e1s) && Oriented(u0, e0s) && Oriented(v0, e1s)
    && Suitable(g, u0, v0, e0s, e1s)
  }

  lemma CornerOriented(g: Graph, u0: Vertex, id: int, es: seq<Edge>)
    requires forall e :: e in es <==> IsCorner(g, u0, id, e)
    ensures InGraph(g, es) && Oriented(u0, es)
  {
  }

  /** A swap that `swap_condition` accepted and that the accept branch
      carried out keeps what `Preserved` describes. */
  lemma SwapPreserves(g: Graph, g0: Graph, m: Weights, names: seq<string>, u0: Vertex, v0: Vertex,
                      e0s: seq<Edge>, e1s: seq<Edge>, rnd: real, pairs: seq<(Edge, Edge)>, ps: seq<ProposalEdge>)
    requires Preserved(g, g0) && InGraph(g, e0s) && InGraph(g, e1s) && Oriented(u0, e0s) && Oriented(v0, e1s)
    requires |e0s| == |e1s|
    requires SwapAccepted(m, names, g, e0s, e1s, u0, v0, rnd, pairs, ps)
    requires AcceptSpec(g, ps, e0s, e1s, NumberOfEdges(g)).Ok?
    ensures Preserved(AcceptSpec(g, ps, e0s, e1s, NumberOfEdges(g)).value, g0)
  {
    SubBagEqual(multiset(Seconds(pairs)), multiset(e1s));
    AcceptPreserves(g, u0, v0, e0s, e1s, pairs);
  }

  // ----- the engine object -----

  /** The entries of the parameter dictionary the engine reads; a missing
      entry is None. */
  datatype Params = Params(network: Option<Graph>, ejks: Option<JointExcessJointDegreeMatrices>,
                           convergenceLimit: Option<int>, searchLimit: Option<int>)

  const DefaultSearchLimit := 25

  /** The convergence limit used when the parameters give none: ten swaps
      per edge of the network. */
  function DefaultConvergenceLimit(network: Graph): (k: nat)
    ensures k == 10 * NumberOfEdges(network)
  {
    10 * NumberOfEdges(network)
  }

  /** The two limits `__init__` sets, as the source writes it: without a
      convergence limit it multiplies 10 by the network's edge view, which
      Python refuses with a TypeError that the constructor re-raises as the
      engine's own error. The default is therefore never used. */
  function LimitsAsWritten(params: Params): (r: Result<(int, int)>)
    ensures r.Ok? <==> params.network.Some? && params.ejks.Some? && params.convergenceLimit.Some?
    ensures r.Err? ==> r.error == RewiringError
    ensures r.Ok? ==> r.value.0 == params.convergenceLimit.value
  {
    if params.network.None? || params.ejks.None? || params.convergenceLimit.None? then Err(RewiringError)
    else Ok((params.convergenceLimit.value, if params.searchLimit.Some? then params.searchLimit.value else DefaultSearchLimit))
  }

  /** The two limits as the constructor evidently intends them: ten swaps
      per edge when no convergence limit is given. */
  function Limits(params: Params): (r: Result<(int, int)>)
    ensures r.Ok? <==> params.network.Some? && params.ejks.Some?
    ensures r.Err? ==> r.error == RewiringError
  {
    if params.network.None? || params.ejks.None? then Err(RewiringError)
    else Ok((if params.convergenceLimit.Some? then params.convergenceLimit.value else DefaultConvergenceLimit(params.network.value),
             if params.searchLimit.Some? then params.searchLimit.value else DefaultSearchLimit))
  }

  /** Any network and matrices without a convergence limit: the source
      fails where the default of ten swaps per edge was meant to apply. */
  lemma {:induction false} DefaultLimitUnreachable(network: Graph, ejks: JointExcessJointDegreeMatrices, search: Option<int>)
    ensures LimitsAsWritten(Params(Some(network), Some(ejks), None, search)) == Err(RewiringError)
    ensures Limits(Params(Some(network), Some(ejks), None, search)).Ok?
    ensures Limits(Params(Some(network), Some(ejks), None, search)).value.0 == 10 * NumberOfEdges(network)
  {
  }

  /** The two agree whenever a convergence limit is given. */
  lemma LimitsAgree(params: Params)
    requires params.convergenceLimit.Some?
    ensures Limits(params) == LimitsAsWritten(params)
  {
  }

  class MarkovChainMonteCarloRewiring {
    var network: Graph
    var convergenceLimit: int
    var searchLimit: int
    const ejks: JointExcessJointDegreeMatrices
    var proposalEdges: seq<ProposalEdge>
    /** The instance's own counters, which nothing updates: the decorator
        counts on the class attributes in `counters`. */
    var proposalCount: int
    var proposalsAccepted: int
    var acceptanceRatio: seq<real>
    /** The class-level counters of the Markov-chain base class. */
    const counters: MarkovChainMonteCarlo

    constructor (network: Graph, ejks: JointExcessJointDegreeMatrices, convergenceLimit: int, searchLimit: int,
                 counters: MarkovChainMonteCarlo)
      ensures this.network == network && this.ejks == ejks && this.counters == counters
      ensures this.convergenceLimit == convergenceLimit && this.searchLimit == searchLimit
      ensures proposalEdges == [] && proposalCount == 0 && proposalsAccepted == 0 && acceptanceRatio == []
    {
      this.network := network;
      this.ejks := ejks;
      this.counters := counters;
      this.convergenceLimit := convergenceLimit;
      this.searchLimit := searchLimit;
      proposalEdges := [];
      proposalCount := 0;
      proposalsAccepted := 0;
      acceptanceRatio := [];
    }

    /** `__init__`: the network and the matrices are required (a missing
        one is a KeyError, re-raised as the engine's own error); the
        search limit defaults to 25, the convergence limit to ten times the
        number of edges: the intended `Limits`, not `LimitsAsWritten`. */
    static method New(params: Params, counters: MarkovChainMonteCarlo) returns (r: Result<MarkovChainMonteCarloRewiring>)
      ensures r.Ok? <==> params.network.Some? && params.ejks.Some?
      ensures r.Err? ==> r.error == RewiringError
      ensures r.Ok? ==>
        fresh(r.value) && r.value.network == params.network.value && r.value.ejks == params.ejks.value
        && r.value.counters == counters
        && r.value.convergenceLimit == (if params.convergenceLimit.Some? then params.convergenceLimit.value
                                        else DefaultConvergenceLimit(params.network.value))
        && r.value.searchLimit == (if params.searchLimit.Some? then params.searchLimit.value else DefaultSearchLimit)
        && r.value.proposalEdges == [] && r.value.proposalCount == 0 && r.value.proposalsAccepted == 0
        && r.value.acceptanceRatio == []
    {
      if params.network.None? || params.ejks.None? {
        return Err(RewiringError);
      }
      var limits := Limits(params).value;
      var engine := new MarkovChainMonteCarloRewiring(params.network.value, params.ejks.value, limits.0, limits.1, counters);
      r := Ok(engine);
    }

    /** `rewire`: repeatedly draw an edge, search up to `searchLimit + 1`
        draws for a same-topology edge whose corner is suitable, abandon
        the attempt when the search count reached the limit, and otherwise
        test the swap and, when accepted, carry it out; stop after
        `convergenceLimit + 1` accepted swaps. Draws and the Metropolis
        threshold are chosen nondeterministically; `fuel` bounds the number
        of draws, since a draw that meets another topology is not counted
        and a rejected or abandoned attempt does not advance the count. A
        network that comes back has the degrees, labels, edge count and
        joint degrees of the engine's network, and exactly the required
        number of swaps was accepted on the class counters. */
    method Rewire(fuel: nat) returns (r: Result<Graph>)
      requires Canonical(network) && counters.Valid()
      modifies this`proposalEdges, this`acceptanceRatio, counters
      ensures counters.Valid()
      ensures r.Ok? ==> Preserved(r.value, network) && forall u :: Degree(r.value, u) == Degree(network, u)
      ensures r.Ok? ==> counters.proposalsAccepted == old(counters.proposalsAccepted) + Swaps(convergenceLimit)
      ensures proposalCount == 0 ==> acceptanceRatio == old(acceptanceRatio)
      ensures r.Err? ==> r.error in {KeyError, IndexError, TypeError, NameError, NetworkXError, RewiringError, OutOfFuel}
    {
      var g := network;
      var n := NumberOfEdges(g);
      var pool := FillPool(g);
      var count := 0;
      var steps := fuel;
      while count <= convergenceLimit
        invariant Preserved(g, network)
        invariant fresh(pool) && pool.Valid() && pool.Elements() == g.edges.Keys
        invariant counters.Valid() && counters.proposalsAccepted == old(counters.proposalsAccepted) + count
        invariant 0 <= count <= Swaps(convergenceLimit)
        invariant proposalCount == 0 ==> acceptanceRatio == old(acceptanceRatio)
        decreases steps
      {
        if steps == 0 {
          return Err(OutOfFuel);
        }
        steps := steps - 1;
        if count % 50 == 0 && proposalCount != 0 {
          acceptanceRatio := acceptanceRatio + [proposalsAccepted as real / proposalCount as real];
        }
        var stop, accepted;
        stop, accepted, g, steps := Round(g, pool, n, steps);
        if stop.Some? {
          return Err(stop.value);
        }
        if accepted {
          count := count + 1;
        }
      }
      PreservedDegrees(g, network);
      r := Ok(g);
    }

    /** One round of the outer loop of `rewire` after its bookkeeping: draw
        an edge (an empty pool is an IndexError), take its corner, search
        for a partner corner, and, unless the search count reached the
        limit, attempt the swap. */
    method Round(g: Graph, pool: DrawSet<Edge>, n: nat, steps: nat)
      returns (stop: Option<Error>, accepted: bool, g': Graph, steps': nat)
      requires Preserved(g, network) && n == NumberOfEdges(network)
      requires pool.Valid() && pool.Elements() == g.edges.Keys && counters.Valid()
      modifies this`proposalEdges, counters, pool
      ensures steps' <= steps
      ensures pool.Valid() && counters.Valid()
      ensures stop.None? ==> Preserved(g', network) && pool.Elements() == g'.edges.Keys
      ensures stop.None? ==> counters.proposalsAccepted == old(counters.proposalsAccepted) + (if accepted then 1 else 0)
      ensures stop.Some? ==> stop.value in {KeyError, IndexError, TypeError, NameError, NetworkXError, RewiringError, OutOfFuel}
    {
      g' := g;
      accepted := false;
      steps' := steps;
      stop := None;
      var d0 := pool.Draw();
      if d0.Err? {
        return Some(d0.error), accepted, g', steps';
      }
      var e0 := d0.value;
      var u0 := e0.0;
      var e0s := GetAllEdges(g, u0, e0);
      CornerOriented(g, u0, EdgeLabel(g, e0).motifId, e0s);
      var outOfFuel, searchCount, suitable, v0, e1s;
      outOfFuel, searchCount, suitable, v0, e1s, steps' := Search(g, pool, e0, e0s, steps);
      if outOfFuel {
        return Some(OutOfFuel), accepted, g', steps';
      }
      if searchCount >= searchLimit {
        return;
      }
      var r;
      r, g' := Attempt(g, pool, u0, v0, e0s, e1s, n);
      if r.Err? {
        return Some(r.error), accepted, g', steps';
      }
      accepted := r.value;
    }

    /** One attempt of `rewire` on two suitable corners: the swap test with
        a threshold drawn from [0, 1), and, when it accepts, the accept
        branch. An accepted swap counts once on the class counters and
        leaves a network that keeps what `Preserved` describes. */
    method Attempt(g: Graph, pool: DrawSet<Edge>, u0: Vertex, v0: Vertex, e0s: seq<Edge>, e1s: seq<Edge>, n: nat)
      returns (r: Result<bool>, g': Graph)
      requires Preserved(g, network) && n == NumberOfEdges(network) && Swappable(g, u0, v0, e0s, e1s)
      requires pool.Valid() && pool.Elements() == g.edges.Keys && counters.Valid()
      modifies this`proposalEdges, counters, pool
      ensures pool.Valid() && counters.Valid()
      ensures r.Ok? ==> Preserved(g', network) && pool.Elements() == g'.edges.Keys
      ensures r == Ok(false) ==> g' == g
      ensures r.Ok? ==> counters.proposalsAccepted == old(counters.proposalsAccepted) + (if r.value then 1 else 0)
      ensures r.Err? ==> r.error in {KeyError, IndexError, TypeError, NameError, NetworkXError, RewiringError}
    {
      g' := g;
      var rnd: real :| 0.0 <= rnd < 1.0;
      ghost var pairs;
      r, pairs := SwapCondition(g, e0s, e1s, u0, v0, rnd);
      if r != Ok(true) {
        return;
      }
      var next := Accept(g, pool, proposalEdges, e0s, e1s, n);
      if next.Err? {
        return Err(next.error), g';
      }
      SwapPreserves(g, network, ejks.ejks, ejks.topologyNames, u0, v0, e0s, e1s, rnd, pairs, proposalEdges);
      g' := next.value;
    }

    /** The edge pool of `rewire`: every edge of the network, sorted. */
    static method FillPool(g: Graph) returns (pool: DrawSet<Edge>)
      requires Canonical(g)
      ensures fresh(pool) && pool.Valid() && pool.Elements() == g.edges.Keys
    {
      pool := new DrawSet<Edge>();
      var rest := g.edges.Keys;
      while rest != {}
        invariant rest <= g.edges.Keys
        invariant pool.Valid() && pool.Elements() == g.edges.Keys - rest
        decreases |rest|
      {
        var e :| e in rest;
        pool.Add(Sorted(e));
        rest := rest - {e};
      }
    }

    /** The search loop of `rewire` for the drawn edge e0 with corner e0s:
        draw edges, skip (without counting) those of another topology, and
        stop at the first whose corner is suitable, or after the count
        passes the search limit. Every draw uses one unit of `steps`. */
    method Search(g: Graph, pool: DrawSet<Edge>, e0: Edge, e0s: seq<Edge>, steps: nat)
      returns (outOfFuel: bool, searchCount: int, suitable: bool, v0: Vertex, e1s: seq<Edge>, steps': nat)
      requires Canonical(g) && e0 in g.edges && InGraph(g, e0s) && Oriented(e0.0, e0s)
      requires pool.edges != [] && pool.Valid() && pool.Elements() == g.edges.Keys
      ensures steps' <= steps
      ensures suitable ==> Swappable(g, e0.0, v0, e0s, e1s)
      ensures !outOfFuel ==> suitable || searchCount > searchLimit
    {
      searchCount := 0;
      suitable := false;
      v0 := 0;
      e1s := [];
      steps' := steps;
      outOfFuel := false;
      while searchCount <= searchLimit
        invariant steps' <= steps
        invariant suitable ==> Swappable(g, e0.0, v0, e0s, e1s)
        decreases steps'
      {
        if steps' == 0 {
          outOfFuel := true;
          return;
        }
        steps' := steps' - 1;
        var d1 := pool.Draw();
        var e1 := d1.value;
        if EdgeLabel(g, e1).topology != EdgeLabel(g, e0).topology {
          continue;
        }
        v0 := e1.0;
        e1s := GetAllEdges(g, v0, e1);
        CornerOriented(g, v0, EdgeLabel(g, e1).motifId, e1s);
        suitable := IsEdgeChoiceSuitable(g, e0.0, v0, e0s, e1s);
        if suitable {
          break;
        }
        searchCount := searchCount + 1;
      }
    }

    /** `append_proposal_edges`: a new edge (u0, other end of `newEdge`)
        carrying the labels of `oldEdge`. */
    method AppendProposalEdges(g: Graph, u0: Vertex, oldEdge: Edge, newEdge: Edge) returns (r: Result<()>)
      requires HasEdge(g, oldEdge.0, oldEdge.1)
      modifies this`proposalEdges
      ensures r.Ok? <==> OtherVertex(u0, newEdge).Ok?
      ensures r.Err? ==> r.error == RewiringError && proposalEdges == old(proposalEdges)
      ensures r.Ok? ==>
        var l := EdgeLabel(g, oldEdge);
        proposalEdges == old(proposalEdges) + [ProposalEdge(l.topology, l.motifId, (u0, OtherVertex(u0, newEdge).value))]
    {
      var l := EdgeLabel(g, oldEdge);
      var v1 :- OtherVertex(u0, newEdge);
      proposalEdges := proposalEdges + [ProposalEdge(l.topology, l.motifId, (u0, v1))];
      return Ok(());
    }

    /** `swap_condition` as the `proposal_efficiency` decorator runs it:
        the wrapped test, then the class-level counters. */
    method SwapCondition(g: Graph, e0s: seq<Edge>, e1s: seq<Edge>, u0: Vertex, v0: Vertex, rnd: real)
      returns (r: Result<bool>, ghost pairs: seq<(Edge, Edge)>)
      requires InGraph(g, e0s) && InGraph(g, e1s) && Oriented(u0, e0s) && Oriented(v0, e1s)
      requires counters.Valid()
      modifies this`proposalEdges, counters
      ensures counters.Valid()
      ensures counters.proposalCount == old(counters.proposalCount) + 1
      ensures counters.proposalsAccepted == old(counters.proposalsAccepted) + (if r == Ok(true) then 1 else 0)
      ensures r == SwapOutcome(ejks.ejks, ejks.topologyNames, g, e0s, e1s, u0, v0, rnd)
      ensures r == Ok(true) ==> SwapAccepted(ejks.ejks, ejks.topologyNames, g, e0s, e1s, u0, v0, rnd, pairs, proposalEdges)
      ensures r.Err? ==> r.error in {KeyError, IndexError, TypeError, NameError, RewiringError}
    {
      var outcome;
      outcome, pairs := SwapTest(g, e0s, e1s, u0, v0, rnd);
      r := counters.CountedCall(outcome);
    }

    /** The body of `swap_condition`. The numerator loop pairs every
        u-corner edge with the last remaining v-corner edge of its
        topology, records the two proposed edges, and multiplies in the
        weights of the two proposed keys; the denominator loop multiplies
        the weights of the existing edges; the swap is accepted when their
        ratio exceeds `rnd`. A pair that would change no key, a missing
        weight, or a zero numerator rejects the swap; a missing topology
        bucket, an exhausted bucket, a failed key computation or a zero
        denominator is an error. */
    method SwapTest(g: Graph, e0s: seq<Edge>, e1s: seq<Edge>, u0: Vertex, v0: Vertex, rnd: real)
      returns (r: Result<bool>, ghost pairs: seq<(Edge, Edge)>)
      requires InGraph(g, e0s) && InGraph(g, e1s) && Oriented(u0, e0s) && Oriented(v0, e1s)
      modifies this`proposalEdges
      ensures r == SwapOutcome(ejks.ejks, ejks.topologyNames, g, e0s, e1s, u0, v0, rnd)
      ensures r == Ok(true) ==> SwapAccepted(ejks.ejks, ejks.topologyNames, g, e0s, e1s, u0, v0, rnd, pairs, proposalEdges)
      ensures r.Err? ==> r.error in {KeyError, IndexError, TypeError, NameError, RewiringError}
    {
      var stop, top;
      ghost var factors;
      stop, top, pairs, factors := NumeratorLoop(g, e0s, e1s, u0, v0);
      if stop.Some? {
        return stop.value, pairs;
      }
      var bottom;
      ghost var bottoms;
      stop, bottom, bottoms := DenominatorLoop(g, e0s, e1s);
      if stop.Some? {
        return stop.value, pairs;
      }
      if bottom == 0.0 {
        return Err(RewiringError), pairs;
      }
      var value := (top + 0.0) / bottom;
      r := Ok(value > rnd);
    }

    /** The numerator loop of `swap_condition`. When it runs to the end
        (`stop` is None) it has paired every u-corner edge, in order, with
        a distinct same-topology v-corner edge, left the proposals of those
        pairs behind, and multiplied all their factors; otherwise `stop` is
        the outcome of the early return. */
    method NumeratorLoop(g: Graph, e0s: seq<Edge>, e1s: seq<Edge>, u0: Vertex, v0: Vertex)
      returns (stop: Option<Result<bool>>, top: real, ghost pairs: seq<(Edge, Edge)>, ghost factors: seq<(real, real)>)
      requires InGraph(g, e0s) && InGraph(g, e1s) && Oriented(u0, e0s) && Oriented(v0, e1s)
      modifies this`proposalEdges
      ensures stop.Some? ==> stop.value == Ok(false) || (stop.value.Err? && stop.value.error in {KeyError, IndexError, TypeError, NameError, RewiringError})
      ensures stop.None? ==>
        PairsOk(g, u0, v0, pairs) && Firsts(pairs) == e0s && multiset(Seconds(pairs)) <= multiset(e1s)
        && (forall j :: 0 <= j < |pairs| ==> EdgeLabel(g, pairs[j].0).topology == EdgeLabel(g, pairs[j].1).topology)
        && proposalEdges == Proposals(g, u0, v0, pairs)
        && Numerator(ejks.ejks, ejks.topologyNames, g, u0, v0, pairs) == Some(factors) && top == Product(factors)
      ensures var run := NumeratorRun(ejks.ejks, ejks.topologyNames, g, u0, v0, e0s, Hashmap(g, e1s));
        (stop.Some? ==> run == Stopped(stop.value))
        && (stop.None? ==> run.Running? && run.value == top && run.pairs == pairs)
    {
      ghost var hm0 := Hashmap(g, e1s);
      stop := None;
      top := 1.0;
      var hashmap := GetHashmap(g, e1s);
      UnpoppedStart(g, e1s, hashmap);
      proposalEdges := [];
      pairs := [];
      factors := [];
      var i := 0;
      while i < |e0s|
        invariant 0 <= i <= |e0s|
        invariant NumeratorSoFar(ejks.ejks, ejks.topologyNames, g, e1s, u0, v0, e0s[..i], hm0, hashmap, top, pairs, factors)
        invariant proposalEdges == Proposals(g, u0, v0, pairs)
        invariant stop.None?
      {
        var e0 := e0s[i];
        assert e0 in e0s;
        NumeratorRunLast(ejks.ejks, ejks.topologyNames, g, u0, v0, e0s, i, hm0);
        var hashmap', e1, f, top';
        stop, hashmap', e1, f, top' := PairNext(g, e1s, u0, v0, e0, hashmap, top, pairs);
        if stop.Some? {
          NumeratorRunStopped(ejks.ejks, ejks.topologyNames, g, u0, v0, e0s, hm0, i + 1);
          return;
        }
        NumeratorSoFarStep(ejks.ejks, ejks.topologyNames, g, e1s, u0, v0, e0s, i, hm0, hashmap, top, pairs, factors,
                           hashmap', e1, f, top');
        hashmap, top := hashmap', top';
        pairs := pairs + [(e0, e1)];
        factors := factors + [f];
        i := i + 1;
      }
      assert e0s[..i] == e0s;
      TakenBag(g, e1s, hashmap, Seconds(pairs));
    }

    /** One pass of the numerator loop for the u-corner edge `e0`: its
        topology index and the pop of its partner, the factor of the pair,
        and the running product, which returns False once it is zero. */
    method PairNext(g: Graph, e1s: seq<Edge>, u0: Vertex, v0: Vertex, e0: Edge, hashmap: map<string, seq<Edge>>,
                    top: real, ghost pairs: seq<(Edge, Edge)>)
      returns (stop: Option<Result<bool>>, hashmap': map<string, seq<Edge>>, e1: Edge, f: (real, real), top': real)
      requires HasEdge(g, e0.0, e0.1) && OtherVertex(u0, e0).Ok?
      requires InGraph(g, e1s) && Oriented(v0, e1s)
      requires PairsOk(g, u0, v0, pairs) && Unpopped(g, e1s, hashmap, Seconds(pairs))
      requires proposalEdges == Proposals(g, u0, v0, pairs)
      modifies this`proposalEdges
      ensures stop.Some? ==> stop.value == Ok(false) || (stop.value.Err? && stop.value.error in {KeyError, IndexError, TypeError, NameError, RewiringError})
      ensures stop.None? ==>
        e1 in e1s && HasEdge(g, e1.0, e1.1) && OtherVertex(v0, e1).Ok?
        && EdgeLabel(g, e1).topology == EdgeLabel(g, e0).topology
        && PairsOk(g, u0, v0, pairs + [(e0, e1)])
        && Unpopped(g, e1s, hashmap', Seconds(pairs) + [e1])
        && proposalEdges == Proposals(g, u0, v0, pairs + [(e0, e1)])
        && PairFactor(ejks.ejks, ejks.topologyNames, g, u0, v0, (e0, e1)) == Some(f)
        && top' == top * (f.0 * f.1) && top' != 0.0
      ensures NumeratorPass(ejks.ejks, ejks.topologyNames, g, u0, v0, e0, hashmap, top, pairs)
              == if stop.Some? then Stopped(stop.value) else Running(hashmap', top', pairs + [(e0, e1)])
    {
      var index;
      stop, index, hashmap', e1 := PopPartner(g, e1s, u0, v0, e0, hashmap, pairs);
      f, top' := (0.0, 0.0), top;
      if stop.None? {
        stop, f := FactorOf(g, u0, v0, (e0, e1), index);
      }
      if stop.None? {
        NumeratorPassPaired(ejks.ejks, ejks.topologyNames, g, u0, v0, e0, hashmap, top, pairs, e1, f);
        top' := top * (f.0 * f.1);
        if top' == 0.0 {
          stop := Some(Ok(false));
        }
      }
    }

    /** The topology index of `e0`, the pop of its partner from the bucket
        of its topology, and the two proposals of the pair. */
    method PopPartner(g: Graph, e1s: seq<Edge>, u0: Vertex, v0: Vertex, e0: Edge, hashmap: map<string, seq<Edge>>,
                      ghost pairs: seq<(Edge, Edge)>)
      returns (stop: Option<Result<bool>>, index: nat, hashmap': map<string, seq<Edge>>, e1: Edge)
      requires HasEdge(g, e0.0, e0.1) && OtherVertex(u0, e0).Ok?
      requires InGraph(g, e1s) && Oriented(v0, e1s)
      requires PairsOk(g, u0, v0, pairs) && Unpopped(g, e1s, hashmap, Seconds(pairs))
      requires proposalEdges == Proposals(g, u0, v0, pairs)
      modifies this`proposalEdges
      ensures stop.Some? ==> stop.value.Err? && stop.value.error in {KeyError, TypeError, NameError, RewiringError}
      ensures stop.None? ==>
        e1 in e1s && HasEdge(g, e1.0, e1.1) && OtherVertex(v0, e1).Ok?
        && EdgeLabel(g, e1).topology == EdgeLabel(g, e0).topology
        && TopologyIndex(ejks.topologyNames, EdgeLabel(g, e0).topology) == Ok(index)
        && PairsOk(g, u0, v0, pairs + [(e0, e1)])
        && Unpopped(g, e1s, hashmap', Seconds(pairs) + [e1])
        && proposalEdges == Proposals(g, u0, v0, pairs + [(e0, e1)])
      ensures var p := Pop(ejks.topologyNames, g, e0, hashmap);
        (stop.None? <==> p.Ok?) && (stop.Some? ==> stop.value == Err(p.error))
        && (stop.None? ==> p.value == (index, e1))
      ensures var t := EdgeLabel(g, e0).topology;
        stop.None? ==>
          t in hashmap && hashmap[t] != []
          && e1 == hashmap[t][|hashmap[t]| - 1] && hashmap' == hashmap[t := hashmap[t][..|hashmap[t]| - 1]]
    {
      stop, index, hashmap', e1 := PopFrom(g, e1s, e0, hashmap, Seconds(pairs));
      if stop.None? {
        assert OtherVertex(v0, e1).Ok?;
        PairsOkAppend(g, u0, v0, pairs, (e0, e1));
        ProposePair(g, u0, v0, pairs, (e0, e1));
      }
    }

    /** The topology index of `e0` and the pop from the bucket of its
        topology: the last remaining v-corner edge of that topology. */
    method PopFrom(g: Graph, e1s: seq<Edge>, e0: Edge, hashmap: map<string, seq<Edge>>, ghost taken: seq<Edge>)
      returns (stop: Option<Result<bool>>, index: nat, hashmap': map<string, seq<Edge>>, e1: Edge)
      requires HasEdge(g, e0.0, e0.1)
      requires InGraph(g, e1s) && Unpopped(g, e1s, hashmap, taken)
      ensures stop.Some? ==> stop.value.Err? && stop.value.error in {KeyError, TypeError, NameError, RewiringError}
      ensures stop.None? ==>
        e1 in e1s && HasEdge(g, e1.0, e1.1)
        && EdgeLabel(g, e1).topology == EdgeLabel(g, e0).topology
        && TopologyIndex(ejks.topologyNames, EdgeLabel(g, e0).topology) == Ok(index)
        && Unpopped(g, e1s, hashmap', taken + [e1])
      ensures var p := Pop(ejks.topologyNames, g, e0, hashmap);
        (stop.None? <==> p.Ok?) && (stop.Some? ==> stop.value == Err(p.error))
        && (stop.None? ==> p.value == (index, e1))
      ensures var t := EdgeLabel(g, e0).topology;
        stop.None? ==>
          t in hashmap && hashmap[t] != []
          && e1 == hashmap[t][|hashmap[t]| - 1] && hashmap' == hashmap[t := hashmap[t][..|hashmap[t]| - 1]]
    {
      var topology := EdgeLabel(g, e0).topology;
      var i := ejks.GetTopologyIndex(topology);
      if i.Err? {
        return Some(Err(i.error)), 0, hashmap, e0;
      }
      index := i.value;
      stop, hashmap', e1 := PopLast(hashmap, topology);
      if stop.None? {
        PopStep(g, e1s, hashmap, taken, topology);
      }
    }

    /** `hashmap_e1s[topology].pop()`: a missing bucket is a KeyError and an
        exhausted one the engine's own error; otherwise the last remaining
        edge of the bucket, which leaves the bucket. */
    static method PopLast(hashmap: map<string, seq<Edge>>, t: string)
      returns (stop: Option<Result<bool>>, hashmap': map<string, seq<Edge>>, e1: Edge)
      ensures stop.Some? <==> t !in hashmap || hashmap[t] == []
      ensures stop.Some? ==> stop == Some(Err(if t !in hashmap then KeyError else RewiringError))
      ensures stop.None? ==>
        e1 == hashmap[t][|hashmap[t]| - 1] && hashmap' == hashmap[t := hashmap[t][..|hashmap[t]| - 1]]
    {
      hashmap', e1 := hashmap, (0, 0);
      if t !in hashmap {
        return Some(Err(KeyError)), hashmap', e1;
      }
      var lst := hashmap[t];
      if lst == [] {
        return Some(Err(RewiringError)), hashmap', e1;
      }
      e1 := lst[|lst| - 1];
      hashmap' := hashmap[t := lst[..|lst| - 1]];
      stop := None;
    }

    /** The two `append_proposal_edges` calls of one pair. */
    method ProposePair(g: Graph, u0: Vertex, v0: Vertex, ghost pairs: seq<(Edge, Edge)>, pr: (Edge, Edge))
      requires HasEdge(g, pr.0.0, pr.0.1) && HasEdge(g, pr.1.0, pr.1.1)
      requires OtherVertex(u0, pr.0).Ok? && OtherVertex(v0, pr.1).Ok?
      requires PairsOk(g, u0, v0, pairs) && PairsOk(g, u0, v0, pairs + [pr])
      requires proposalEdges == Proposals(g, u0, v0, pairs)
      modifies this`proposalEdges
      ensures proposalEdges == Proposals(g, u0, v0, pairs + [pr])
    {
      var ok0 := AppendProposalEdges(g, u0, pr.0, (u0, OtherVertex(v0, pr.1).value));
      var ok1 := AppendProposalEdges(g, v0, pr.1, (v0, OtherVertex(u0, pr.0).value));
      ProposalsAppend(g, u0, v0, pairs, pr);
    }

    /** The swapped keys of a popped pair and the weights of the two
        proposed keys; a swap that changes no key, or a missing weight,
        rejects the swap. */
    method FactorOf(g: Graph, u0: Vertex, v0: Vertex, pr: (Edge, Edge), index: nat)
      returns (stop: Option<Result<bool>>, f: (real, real))
      requires HasEdge(g, pr.0.0, pr.0.1)
      requires TopologyIndex(ejks.topologyNames, EdgeLabel(g, pr.0).topology) == Ok(index)
      ensures stop.Some? ==> stop.value == Ok(false) || (stop.value.Err? && stop.value.error in {KeyError, IndexError, RewiringError})
      ensures stop.None? ==> PairFactor(ejks.ejks, ejks.topologyNames, g, u0, v0, pr) == Some(f)
      ensures var kv, t := SwappedKeys(g, pr.0, pr.1, u0, v0, index), EdgeLabel(g, pr.0).topology;
        (kv.Err? <==> stop.Some? && stop.value.Err?)
        && (kv.Err? ==> stop == Some(Err(kv.error)))
        && (kv.Ok? ==>
              (stop == Some(Ok(false)) <==>
                 NoOp(kv.value) || Weight(ejks.ejks, t, KV.U0V1(kv.value)).None? || Weight(ejks.ejks, t, KV.V0U1(kv.value)).None?)
              && (stop.None? ==> f == (Weight(ejks.ejks, t, KV.U0V1(kv.value)).value, Weight(ejks.ejks, t, KV.V0U1(kv.value)).value)))
    {
      f := (0.0, 0.0);
      var keyView := SwappedKeys(g, pr.0, pr.1, u0, v0, index);
      assert keyView == PairKeys(g, ejks.topologyNames, u0, v0, pr);
      if keyView.Err? {
        return Some(Err(keyView.error)), f;
      }
      var factor := KeysFactor(ejks.ejks, EdgeLabel(g, pr.0).topology, keyView.value);
      if factor.None? {
        return Some(Ok(false)), f;
      }
      f := factor.value;
      stop := None;
    }

    /** The denominator loop of `swap_condition` over the zipped corners.
        When it runs to the end (`stop` is None) `bottom` is the product of
        the edge weights; otherwise `stop` is the outcome of the early
        return. */
    method DenominatorLoop(g: Graph, e0s: seq<Edge>, e1s: seq<Edge>)
      returns (stop: Option<Result<bool>>, bottom: real, ghost bottoms: seq<(real, real)>)
      requires InGraph(g, e0s) && InGraph(g, e1s)
      ensures stop.Some? ==> stop.value == Ok(false) || (stop.value.Err? && stop.value.error in {KeyError, IndexError, TypeError, NameError})
      ensures stop.None? ==> Denominator(ejks.ejks, ejks.topologyNames, g, Zip(e0s, e1s)) == Some(bottoms) && bottom == Product(bottoms)
      ensures DenominatorRun(ejks.ejks, ejks.topologyNames, g, Zip(e0s, e1s)) == if stop.Some? then Halted(stop.value) else Partial(bottom)
    {
      var m, names := ejks.ejks, ejks.topologyNames;
      var zipped := Zip(e0s, e1s);
      bottom := 1.0;
      bottoms := [];
      var k := 0;
      while k < |zipped|
        invariant 0 <= k <= |zipped|
        invariant Denominator(m, names, g, zipped[..k]) == Some(bottoms) && bottom == Product(bottoms)
        invariant DenominatorRun(m, names, g, zipped[..k]) == Partial(bottom)
      {
        assert zipped[k].0 in e0s && zipped[k].1 in e1s;
        DenominatorRunLast(m, names, g, zipped, k);
        var w;
        stop, w := ZipWeights(g, zipped[k]);
        if stop.Some? {
          assert DenominatorPass(m, names, g, zipped[k], bottom) == Halted(stop.value);
          DenominatorRunHalted(m, names, g, zipped, k + 1);
          return stop, bottom, bottoms;
        }
        DenominatorStep(m, names, g, zipped, k, bottoms, bottom, w);
        bottom := bottom * (w.0 * w.1);
        bottoms := bottoms + [w];
        k := k + 1;
      }
      assert zipped[..k] == zipped;
      stop := None;
    }

    /** The weights of one zipped pair of the denominator loop: the
        u-side key's weight and then the v-side key's. */
    method ZipWeights(g: Graph, z: (Edge, Edge)) returns (stop: Option<Result<bool>>, w: (real, real))
      requires HasEdge(g, z.0.0, z.0.1) && HasEdge(g, z.1.0, z.1.1)
      ensures stop.Some? ==> stop.value == Ok(false) || (stop.value.Err? && stop.value.error in {KeyError, IndexError, TypeError, NameError})
      ensures stop.None? <==> ZipFactor(ejks.ejks, ejks.topologyNames, g, z).Some?
      ensures stop.None? ==> ZipFactor(ejks.ejks, ejks.topologyNames, g, z) == Some(w)
      ensures forall bottom :: DenominatorPass(ejks.ejks, ejks.topologyNames, g, z, bottom)
                               == if stop.Some? then Halted(stop.value) else Partial(bottom * (w.0 * w.1))
    {
      w := (0.0, 0.0);
      var a := EdgeWeight(ejks.ejks, ejks.topologyNames, g, z.0);
      var b := EdgeWeight(ejks.ejks, ejks.topologyNames, g, z.1);
      if a.Err? {
        return Some(Err(a.error)), w;
      }
      if b.Err? {
        return Some(Err(b.error)), w;
      }
      if a.value.None? || b.value.None? {
        return Some(Ok(false)), w;
      }
      w := (a.value.value, b.value.value);
      stop := None;
    }
  }

  /** As written, `rewire` logs the acceptance ratio from the engine's own
      counters, which `__init__` sets to zero and nothing increments (the
      decorator counts on the class attributes), so a run that returns a
      network has recorded no ratio at all, although the class counters
      show every accepted swap. `Mcmc.LogRatio` is the intended step. */
  method RatiosNeverRecorded(params: Params, counters: MarkovChainMonteCarlo, fuel: nat)
    returns (logged: seq<real>, r: Result<Graph>)
    requires params.network.Some? && params.ejks.Some? && Canonical(params.network.value) && counters.Valid()
    modifies counters
    ensures logged == []
    ensures r.Ok? ==> counters.proposalsAccepted == old(counters.proposalsAccepted) + Swaps(Limits(params).value.0)
    ensures r.Ok? && Limits(params).value.0 >= 0 ==> counters.proposalCount > 0
  {
    var engine := MarkovChainMonteCarloRewiring.New(params, counters);
    var e := engine.value;
    r := e.Rewire(fuel);
    logged := e.acceptanceRatio;
  }
}
