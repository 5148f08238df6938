// Extraction of mixing patterns from a network. For every edge topology,
// each edge of that topology contributes its two joint excess joint-degree
// keys (the endpoints' joint-degree vectors with that topology's component
// reduced by one, concatenated in both orders), each weighted one over twice
// the number of edges of the topology. The overall variant does the same
// with plain degrees reduced by one. Weights are modelled as reals: a key
// seen c times carries c / (2 m), which is what repeated floating-point
// additions of 1 / (2 m) approximate.

module EjkExtraction {
  import opened Common
  import opened Graphs
  import opened EjkMatrices

  // ----- weighted maps -----

  /** `d.get(k, 0)` */
  function Get<K>(m: map<K, real>, k: K): real
  {
    if k in m then m[k] else 0.0
  }

  /** Every key of a bag, weighted by its multiplicity over d. */
  function Spread<K>(b: multiset<K>, d: real): map<K, real>
    requires d != 0.0
  {
    map k | k in b :: (b[k] as real) / d
  }

  lemma DivAdd(n: nat, d: real)
    requires d != 0.0
    ensures ((n + 1) as real) / d == (n as real) / d + 1.0 / d
  {
  }

  /** A count over itself is one. */
  lemma DivSelf(t: real, n: nat, d: real)
    requires d != 0.0 && n as real == d && t == (n as real) / d
    ensures t == 1.0
  {
    assert t == d / d;
  }

  /** A share of n over d plus one more share is n + 1 over d. */
  lemma DivNext(t: real, a: real, n: nat, d: real)
    requires d != 0.0 && a == (n as real) / d && t == a + 1.0 / d
    ensures t == ((n + 1) as real) / d
  {
    DivAdd(n, d);
  }

  /** One more occurrence of k adds 1 / d to its weight. */
  lemma SpreadAdd<K>(b: multiset<K>, k: K, d: real)
    requires d != 0.0
    ensures Spread(b + multiset{k}, d) == Spread(b, d)[k := Get(Spread(b, d), k) + 1.0 / d]
  {
    var l, r := Spread(b + multiset{k}, d), Spread(b, d)[k := Get(Spread(b, d), k) + 1.0 / d];
    forall x | x in l
      ensures x in r && l[x] == r[x]
    {
      if x == k {
        DivAdd(b[k], d);
      }
    }
    assert l.Keys == r.Keys;
  }

  /** An edge contributing two keys adds 1 / d under each. */
  lemma SpreadAddTwo<K>(b: multiset<K>, k1: K, k2: K, d: real)
    requires d != 0.0
    ensures var m1 := Spread(b, d)[k1 := Get(Spread(b, d), k1) + 1.0 / d];
      Spread(multiset{k1, k2} + b, d) == m1[k2 := Get(m1, k2) + 1.0 / d]
  {
    SpreadAdd(b, k1, d);
    SpreadAdd(b + multiset{k1}, k2, d);
    assert multiset{k1, k2} + b == b + multiset{k1} + multiset{k2};
  }

  lemma CountSum<X>(a: multiset<X>, b: multiset<X>, x: X)
    ensures (a + b)[x] == a[x] + b[x]
  {
  }

  /** `d[k] = d.get(k, 0) + w` */
  function AddWeight<K>(m: map<K, real>, k: K, w: real): map<K, real>
  {
    m[k := Get(m, k) + w]
  }

  /** The state of a loop over the edges of m that adds 1 / d under every
      key f gives an edge: `visited` lists the edges done, in order, and
      `acc` is their spread bag (empty while d is zero). */
  ghost predicate Accumulating<X>(m: map<Edge, Label>, f: (Edge, Label) -> multiset<X>, rest: set<Edge>,
                                  visited: seq<Edge>, acc: map<X, real>, d: real)
  {
    rest <= m.Keys && Enumerates(visited, m.Keys - rest) && (forall e :: e in visited ==> e in m)
    && (d == 0.0 ==> acc == map[])
    && (d != 0.0 ==> acc == Spread(ListedBag(m, visited, f), d))
  }

  lemma AccumulateStart<X>(m: map<Edge, Label>, f: (Edge, Label) -> multiset<X>, d: real)
    ensures Accumulating(m, f, m.Keys, [], map[], d)
  {
    assert (set x: Edge | x in []) == {};
  }

  lemma AccumulateVisit<X>(m: map<Edge, Label>, f: (Edge, Label) -> multiset<X>, rest: set<Edge>,
                           visited: seq<Edge>, e: Edge)
    requires rest <= m.Keys && Enumerates(visited, m.Keys - rest) && (forall x :: x in visited ==> x in m)
    requires e in rest
    ensures rest - {e} <= m.Keys && Enumerates(visited + [e], m.Keys - (rest - {e}))
    ensures forall x :: x in visited + [e] ==> x in m
    ensures ListedBag(m, visited + [e], f) == f(e, m[e]) + ListedBag(m, visited, f)
  {
    EnumeratesStep(visited, m.Keys - rest, e);
    assert (m.Keys - rest) + {e} == m.Keys - (rest - {e});
    ListedBagAppend(m, visited, f, e);
  }

  /** Weights that spread a bag, after adding w = 1 / d under k1 and k2,
      spread the bag with k1 and k2 added. */
  lemma SpreadStep<X>(b: multiset<X>, acc: map<X, real>, k1: X, k2: X, d: real, w: real)
    requires d != 0.0 && w == 1.0 / d && acc == Spread(b, d)
    ensures AddWeight(AddWeight(acc, k1, w), k2, w) == Spread(multiset{k1, k2} + b, d)
  {
    SpreadAddTwo(b, k1, k2, d);
  }

  /** An edge with keys k1 and k2 adds w = 1 / d under each. */
  lemma AccumulateAdd<X>(m: map<Edge, Label>, f: (Edge, Label) -> multiset<X>, rest: set<Edge>,
                         visited: seq<Edge>, acc: map<X, real>, d: real, e: Edge, k1: X, k2: X, w: real)
    requires Accumulating(m, f, rest, visited, acc, d) && e in rest && f(e, m[e]) == multiset{k1, k2}
    requires d != 0.0 && w == 1.0 / d
    ensures Accumulating(m, f, rest - {e}, visited + [e], AddWeight(AddWeight(acc, k1, w), k2, w), d)
  {
    AccumulateVisit(m, f, rest, visited, e);
    SpreadStep(ListedBag(m, visited, f), acc, k1, k2, d, w);
  }

  /** When every edge is done, the weights are the spread bag of all edges,
      whatever order they were visited in. */
  lemma AccumulateEnd<X>(m: map<Edge, Label>, f: (Edge, Label) -> multiset<X>, visited: seq<Edge>,
                         acc: map<X, real>, d: real)
    requires Accumulating(m, f, {}, visited, acc, d)
    ensures d == 0.0 ==> acc == map[]
    ensures d != 0.0 ==> acc == Spread(Bag(m, f), d)
  {
    assert m.Keys - {} == m.Keys;
    ListedBagIsBag(m, visited, f);
  }

  /** The sum of the values of a map. */
  ghost function Total<K>(m: map<K, real>): real
    decreases |m.Keys|
  {
    if m.Keys == {} then 0.0
    else
      var k :| k in m.Keys;
      assert |(m - {k}).Keys| < |m.Keys| by {
        assert (m - {k}).Keys == m.Keys - {k};
      }
      m[k] + Total(m - {k})
  }

  lemma TotalEmpty<K>(m: map<K, real>)
    requires m == map[]
    ensures Total(m) == 0.0
  {
  }

  lemma {:induction false} TotalRemove<K>(m: map<K, real>, k: K)
    requires k in m
    ensures Total(m) == m[k] + Total(m - {k})
    decreases |m.Keys|
  {
    var d :| d in m.Keys && Total(m) == m[d] + Total(m - {d});
    if d != k {
      assert (m - {d}).Keys == m.Keys - {d};
      TotalRemove(m - {d}, k);
      assert (m - {k}).Keys == m.Keys - {k};
      TotalRemove(m - {k}, d);
      assert m - {d} - {k} == m - {k} - {d};
    }
  }

  /** Adding x to the weight of one key adds x to the total. */
  lemma TotalUpdate<K>(m: map<K, real>, k: K, x: real)
    ensures Total(m[k := Get(m, k) + x]) == Total(m) + x
  {
    var m' := m[k := Get(m, k) + x];
    TotalRemove(m', k);
    if k in m {
      TotalRemove(m, k);
      assert m' - {k} == m - {k};
    } else {
      assert m' - {k} == m;
    }
  }

  lemma SpreadTotalStep<K>(b: multiset<K>, k: K, d: real)
    requires d != 0.0
    ensures Total(Spread(b + multiset{k}, d)) == Total(Spread(b, d)) + 1.0 / d
  {
    SpreadAdd(b, k, d);
    TotalUpdate(Spread(b, d), k, 1.0 / d);
  }

  /** The weights of a spread bag add up to its size over d. */
  lemma {:induction false} SpreadTotal<K>(b: multiset<K>, d: real)
    requires d != 0.0
    ensures Total(Spread(b, d)) == (|b| as real) / d
    decreases |b|
  {
    if b == multiset{} {
      assert Spread(b, d) == map[];
    } else {
      var k :| k in b;
      var b' := b - multiset{k};
      assert b == b' + multiset{k};
      SpreadTotal(b', d);
      SpreadTotalStep(b', k, d);
      DivNext(Total(Spread(b, d)), Total(Spread(b', d)), |b'|, d);
    }
  }

  /** Spread over its own size, a bag's weights add up to one. */
  lemma SpreadTotalOne<K>(b: multiset<K>, d: real)
    requires d != 0.0 && |b| as real == d
    ensures Total(Spread(b, d)) == 1.0
  {
    SpreadTotal(b, d);
    DivSelf(Total(Spread(b, d)), |b|, d);
  }

  /** A bag of two keys per item, spread over twice the item count, has
      weights adding up to one. */
  lemma SpreadPairsTotal<K>(b: multiset<K>, n: nat)
    requires n > 0 && |b| == 2 * n
    ensures Total(Spread(b, 2.0 * n as real)) == 1.0
  {
    SpreadTotalOne(b, 2.0 * n as real);
  }

  /** Two concatenations with first parts of one length agree exactly when
      both parts do. */
  lemma ConcatSame<T>(a: seq<T>, b: seq<T>, c: seq<T>, d: seq<T>)
    requires |a| == |c|
    ensures a + b == c + d <==> a == c && b == d
  {
    if a + b == c + d {
      assert a == (a + b)[..|a|] && c == (c + d)[..|c|];
      assert b == (a + b)[|a|..] && d == (c + d)[|c|..];
    }
  }

  // ----- the joint excess joint-degree patterns of one topology -----

  /** The joint-degree vector of u with component i reduced by one; a vertex
      without a vector is a KeyError and a vector too short an IndexError,
      both vectors being read before either is indexed. */
  function EdgeKeys(g: Graph, e: Edge, i: nat): (r: Result<(Key, Key)>)
    ensures r.Err? ==> r.error in {KeyError, IndexError}
  {
    if e.0 !in g.jd || e.1 !in g.jd then Err(KeyError)
    else if i >= |g.jd[e.0]| || i >= |g.jd[e.1]| then Err(IndexError)
    else
      var ku, kv := Excess(g.jd[e.0], i), Excess(g.jd[e.1], i);
      Ok((ku + kv, kv + ku))
  }

  function Excess(jd: Key, i: nat): (r: Key)
    requires i < |jd|
  {
    jd[i := jd[i] - 1]
  }

  /** The edges of the graph labelled with topology `name`. */
  function Labelled(m: map<Edge, Label>, name: string): set<Edge>
  {
    set e | e in m && m[e].topology == name
  }

  /** Every labelled edge has both keys. */
  predicate KeysDefined(g: Graph, i: nat, name: string)
  {
    forall e :: e in Labelled(g.edges, name) ==> EdgeKeys(g, e, i).Ok?
  }

  /** The keys an edge contributes: both orders for an edge of topology
      `name`, nothing for the others. */
  function EdgeBag(g: Graph, i: nat, name: string, e: Edge, l: Label): multiset<Key>
  {
    var ks := EdgeKeys(g, e, i);
    if l.topology == name && ks.Ok? then multiset{ks.value.0, ks.value.1} else multiset{}
  }

  function KeyFn(g: Graph, i: nat, name: string): (Edge, Label) -> multiset<Key>
  {
    (e: Edge, l: Label) => EdgeBag(g, i, name, e, l)
  }

  /** All keys the edges of topology `name` contribute, with multiplicity. */
  ghost function KeyBag(g: Graph, i: nat, name: string): multiset<Key>
  {
    Bag(g.edges, KeyFn(g, i, name))
  }

  /** The mixing pattern `get_ejk(i, name)` computes when it succeeds, with
      `n` the stored number of edges of topology i. */
  ghost function Ejk(g: Graph, i: nat, name: string, n: nat): map<Key, real>
  {
    if n == 0 then map[] else Spread(KeyBag(g, i, name), 2.0 * n as real)
  }

  /** Removing an edge removes it from the labelled edges, if it was one. */
  lemma LabelledRemove(m: map<Edge, Label>, name: string, e: Edge)
    requires e in m
    ensures Labelled(m - {e}, name) <= Labelled(m, name)
    ensures |Labelled(m, name)| == |Labelled(m - {e}, name)| + (if m[e].topology == name then 1 else 0)
  {
    if m[e].topology == name {
      assert Labelled(m, name) == Labelled(m - {e}, name) + {e};
    } else {
      assert Labelled(m, name) == Labelled(m - {e}, name);
    }
  }

  lemma EdgeBagSize(g: Graph, i: nat, name: string, e: Edge, l: Label)
    requires l.topology == name ==> EdgeKeys(g, e, i).Ok?
    ensures |EdgeBag(g, i, name, e, l)| == if l.topology == name then 2 else 0
  {
  }

  /** An edge of topology `name` contributes exactly two keys. */
  lemma {:induction false} KeyBagSize(g: Graph, m: map<Edge, Label>, i: nat, name: string)
    requires forall e :: e in Labelled(m, name) ==> EdgeKeys(g, e, i).Ok?
    ensures |Bag(m, KeyFn(g, i, name))| == 2 * |Labelled(m, name)|
    decreases |m.Keys|
  {
    if m.Keys != {} {
      var e :| e in m.Keys;
      var m' := m - {e};
      assert m'.Keys == m.Keys - {e};
      var f := KeyFn(g, i, name);
      BagRemove(m, f, e);
      LabelledRemove(m, name, e);
      KeyBagSize(g, m', i, name);
      if m[e].topology == name {
        assert e in Labelled(m, name);
      }
      EdgeBagSize(g, i, name, e, m[e]);
      assert f(e, m[e]) == EdgeBag(g, i, name, e, m[e]);
    }
  }

  /** Every vertex carries a joint-degree vector of length t. */
  predicate UniformVectors(g: Graph, t: nat)
  {
    forall u :: u in g.jd ==> |g.jd[u]| == t
  }

  /** The two orders of a pair of halves of one length hold a key as often
      as its swapped form. */
  lemma HalvesSymmetric(p: Key, q: Key, x: Key, y: Key)
    requires |p| == |q| == |x| == |y|
    ensures multiset{p + q, q + p}[x + y] == multiset{p + q, q + p}[y + x]
  {
    ConcatSame(p, q, x, y);
    ConcatSame(q, p, x, y);
    ConcatSame(p, q, y, x);
    ConcatSame(q, p, y, x);
  }

  lemma EdgeBagSymmetric(g: Graph, i: nat, name: string, e: Edge, l: Label, x: Key, y: Key)
    requires UniformVectors(g, |x|) && |y| == |x|
    ensures EdgeBag(g, i, name, e, l)[x + y] == EdgeBag(g, i, name, e, l)[y + x]
  {
    var ks := EdgeKeys(g, e, i);
    if l.topology == name && ks.Ok? {
      assert e.0 in g.jd && e.1 in g.jd;
      assert forall u :: u in g.jd ==> |g.jd[u]| == |x|;
      assert |g.jd[e.0]| == |x| && |g.jd[e.1]| == |x|;
      HalvesSymmetric(Excess(g.jd[e.0], i), Excess(g.jd[e.1], i), x, y);
    }
  }

  /** With vectors of one length, the two halves of a key can be swapped
      without changing how often the key was contributed. */
  lemma {:induction false} KeyBagSymmetric(g: Graph, m: map<Edge, Label>, i: nat, name: string, x: Key, y: Key)
    requires UniformVectors(g, |x|) && |y| == |x|
    ensures Bag(m, KeyFn(g, i, name))[x + y] == Bag(m, KeyFn(g, i, name))[y + x]
    decreases |m.Keys|
  {
    if m.Keys != {} {
      var e :| e in m.Keys;
      var m' := m - {e};
      assert m'.Keys == m.Keys - {e};
      var f := KeyFn(g, i, name);
      BagRemove(m, f, e);
      KeyBagSymmetric(g, m', i, name, x, y);
      var here := f(e, m[e]);
      assert here == EdgeBag(g, i, name, e, m[e]);
      EdgeBagSymmetric(g, i, name, e, m[e], x, y);
      CountSum(here, Bag(m', f), x + y);
      CountSum(here, Bag(m', f), y + x);
    }
  }

  /** `ejk[a + b] == ejk[b + a]` for vectors of the network's length. */
  lemma EjkSymmetric(g: Graph, i: nat, name: string, n: nat, x: Key, y: Key)
    requires UniformVectors(g, |x|) && |y| == |x|
    ensures Get(Ejk(g, i, name, n), x + y) == Get(Ejk(g, i, name, n), y + x)
  {
    KeyBagSymmetric(g, g.edges, i, name, x, y);
  }

  /** After one count of the edges of the topology, its weights add up to
      one: every edge adds 1 / (2 m) twice. */
  lemma EjkTotal(g: Graph, i: nat, name: string)
    requires KeysDefined(g, i, name) && Labelled(g.edges, name) != {}
    ensures Total(Ejk(g, i, name, |Labelled(g.edges, name)|)) == 1.0
  {
    KeyBagSize(g, g.edges, i, name);
    SpreadPairsTotal(KeyBag(g, i, name), |Labelled(g.edges, name)|);
  }

  /** Each weight is the number of times its key was contributed over twice
      the stored edge count. */
  lemma EjkWeight(g: Graph, i: nat, name: string, n: nat, k: Key)
    requires n > 0
    ensures Get(Ejk(g, i, name, n), k) == (KeyBag(g, i, name)[k] as real) / (2.0 * n as real)
  {
  }

  /** Every key of the pattern is the excess vector of one end of an edge
      of the topology followed by that of the other end. */
  lemma KeyBagOrigin(g: Graph, m: map<Edge, Label>, i: nat, name: string, k: Key)
    requires k in Bag(m, KeyFn(g, i, name))
    ensures exists e :: e in Labelled(m, name) && EdgeKeys(g, e, i).Ok?
                        && (k == EdgeKeys(g, e, i).value.0 || k == EdgeKeys(g, e, i).value.1)
  {
    BagOrigin(m, KeyFn(g, i, name), k);
    var e :| e in m && k in KeyFn(g, i, name)(e, m[e]);
    assert k in EdgeBag(g, i, name, e, m[e]);
    assert e in Labelled(m, name);
  }

  // ----- the loop of `get_ejk` -----

  /** The state of `get_ejk` after the edges outside `rest`: their keys are
      accumulated with weight 1 / (2 n), every labelled one had keys, and
      none was labelled when n is zero. */
  ghost predicate EjkLoop(g: Graph, i: nat, name: string, n: nat, rest: set<Edge>, visited: seq<Edge>,
                          ejk: map<Key, real>)
  {
    Accumulating(g.edges, KeyFn(g, i, name), rest, visited, ejk, 2.0 * n as real) && EjkChecked(g, i, name, n, rest)
  }

  /** Every labelled edge outside `rest` had keys, and none was labelled
      when n is zero. */
  ghost predicate EjkChecked(g: Graph, i: nat, name: string, n: nat, rest: set<Edge>)
  {
    (forall e :: e in Labelled(g.edges, name) && e !in rest ==> EdgeKeys(g, e, i).Ok?)
    && (n == 0 ==> Labelled(g.edges, name) <= rest)
  }

  lemma EjkCheckedNext(g: Graph, i: nat, name: string, n: nat, rest: set<Edge>, e: Edge)
    requires EjkChecked(g, i, name, n, rest) && e in g.edges
    requires g.edges[e].topology == name ==> EdgeKeys(g, e, i).Ok? && n > 0
    ensures EjkChecked(g, i, name, n, rest - {e})
  {
  }

  lemma EjkLoopStart(g: Graph, i: nat, name: string, n: nat)
    ensures EjkLoop(g, i, name, n, g.edges.Keys, [], map[])
  {
    AccumulateStart(g.edges, KeyFn(g, i, name), 2.0 * n as real);
  }

  /** The edge picked is an edge of the graph; one of topology `name` is
      labelled. */
  lemma EjkLoopRest(g: Graph, i: nat, name: string, n: nat, rest: set<Edge>, visited: seq<Edge>,
                    ejk: map<Key, real>, e: Edge)
    requires EjkLoop(g, i, name, n, rest, visited, ejk) && e in rest
    ensures e in g.edges
    ensures g.edges[e].topology == name ==> e in Labelled(g.edges, name)
  {
  }

  /** A labelled edge without keys: the keys are not all defined. */
  lemma EjkEdgeFails(g: Graph, i: nat, name: string, e: Edge)
    requires e in Labelled(g.edges, name) && EdgeKeys(g, e, i).Err?
    ensures !KeysDefined(g, i, name)
    ensures exists x :: x in Labelled(g.edges, name) && EdgeKeys(g, x, i) == Err(EdgeKeys(g, e, i).error)
  {
  }

  lemma EjkLoopAdd(g: Graph, i: nat, name: string, n: nat, rest: set<Edge>, visited: seq<Edge>,
                   ejk: map<Key, real>, e: Edge, w: real)
    requires EjkLoop(g, i, name, n, rest, visited, ejk) && e in rest
    requires e in g.edges && g.edges[e].topology == name && EdgeKeys(g, e, i).Ok?
    requires n > 0 && w == 1.0 / (2 * n) as real
    ensures var ks := EdgeKeys(g, e, i).value;
      EjkLoop(g, i, name, n, rest - {e}, visited + [e], AddWeight(AddWeight(ejk, ks.0, w), ks.1, w))
  {
    var ks := EdgeKeys(g, e, i).value;
    var f := KeyFn(g, i, name);
    assert f(e, g.edges[e]) == multiset{ks.0, ks.1};
    AccumulateAdd(g.edges, f, rest, visited, ejk, 2.0 * n as real, e, ks.0, ks.1, w);
    EjkCheckedNext(g, i, name, n, rest, e);
  }

  lemma EjkLoopSkip(g: Graph, i: nat, name: string, n: nat, rest: set<Edge>, visited: seq<Edge>,
                    ejk: map<Key, real>, e: Edge)
    requires Accumulating(g.edges, KeyFn(g, i, name), rest, visited, ejk, 2.0 * n as real)
    requires EjkChecked(g, i, name, n, rest) && e in rest
    requires e in g.edges && g.edges[e].topology != name
    ensures Accumulating(g.edges, KeyFn(g, i, name), rest - {e}, visited + [e], ejk, 2.0 * n as real)
    ensures EjkChecked(g, i, name, n, rest - {e})
  {
    var f := KeyFn(g, i, name);
    AccumulateVisit(g.edges, f, rest, visited, e);
    assert f(e, g.edges[e]) == multiset{};
    assert ListedBag(g.edges, visited + [e], f) == ListedBag(g.edges, visited, f);
    EjkCheckedNext(g, i, name, n, rest, e);
  }

  lemma EjkLoopEnd(g: Graph, i: nat, name: string, n: nat, visited: seq<Edge>, ejk: map<Key, real>)
    requires EjkLoop(g, i, name, n, {}, visited, ejk)
    ensures KeysDefined(g, i, name) && (Labelled(g.edges, name) != {} ==> n > 0)
    ensures ejk == Ejk(g, i, name, n)
  {
    EjkCheckedEnd(g, i, name, n);
    AccumulateEnd(g.edges, KeyFn(g, i, name), visited, ejk, 2.0 * n as real);
    if n > 0 {
      assert ejk == Spread(KeyBag(g, i, name), 2.0 * n as real);
    }
  }

  lemma EjkCheckedEnd(g: Graph, i: nat, name: string, n: nat)
    requires EjkChecked(g, i, name, n, {})
    ensures KeysDefined(g, i, name) && (Labelled(g.edges, name) != {} ==> n > 0)
  {
  }

  // ----- the excess keys of the joint-degree keys -----

  /** The excess keys of topology i: every degree key with a positive
      component i, that component reduced by one. */
  function ExcessKeysOf(keys: set<Key>, i: nat): set<Key>
    requires forall jd :: jd in keys ==> i < |jd|
  {
    set jd | jd in keys && jd[i] > 0 :: Excess(jd, i)
  }

  /** The excess keys and the degree keys determine each other: raising
      component i of an excess key gives back a degree key whose component
      i is positive, and every such degree key has its excess key. */
  lemma ExcessKeysInverse(keys: set<Key>, i: nat, k: Key)
    requires forall jd :: jd in keys ==> i < |jd|
    ensures k in ExcessKeysOf(keys, i) <==> i < |k| && k[i] >= 0 && k[i := k[i] + 1] in keys
  {
    if k in ExcessKeysOf(keys, i) {
      var jd :| jd in keys && jd[i] > 0 && k == Excess(jd, i);
      assert k[i := k[i] + 1] == jd;
    }
    if i < |k| && k[i] >= 0 && k[i := k[i] + 1] in keys {
      var jd := k[i := k[i] + 1];
      assert Excess(jd, i) == k;
    }
  }

  /** `resolve_excess_degree_keys` over `t` topologies: a degree key with
      fewer than t components makes the indexing fail. */
  function ResolvedKeys(keys: set<Key>, t: nat): (r: Result<seq<set<Key>>>)
    ensures r.Ok? <==> forall jd :: jd in keys ==> t <= |jd|
    ensures r.Err? ==> r.error == IndexError
    ensures r.Ok? ==> |r.value| == t && forall i :: 0 <= i < t ==> r.value[i] == ExcessKeysOf(keys, i)
  {
    if exists jd :: jd in keys && |jd| < t then Err(IndexError)
    else Ok(seq(t, i requires 0 <= i < t => ExcessKeysOf(keys, i)))
  }

  // ----- the extractor object -----

  /** The k patterns after `base` in the list are those of the first k
      topologies. */
  ghost predicate Stored(ejks: seq<map<Key, real>>, base: nat, g: Graph, names: seq<string>, counts: seq<nat>, k: nat)
  {
    base + k <= |ejks| && k <= |names| && k <= |counts|
    && forall j :: 0 <= j < k ==> ejks[base + j] == Ejk(g, j, names[j], counts[j])
  }

  lemma StoredNext(ejks: seq<map<Key, real>>, base: nat, g: Graph, names: seq<string>, counts: seq<nat>, k: nat,
                   x: map<Key, real>)
    requires Stored(ejks, base, g, names, counts, k) && |ejks| == base + k
    requires k < |names| && k < |counts| && x == Ejk(g, k, names[k], counts[k])
    ensures Stored(ejks + [x], base, g, names, counts, k + 1)
  {
  }

  /** The class-level list `_ejks`, shared by every extractor. */
  class EjkStore {
    var ejks: seq<map<Key, real>>

    constructor ()
      ensures ejks == []
    {
      ejks := [];
    }
  }

  datatype ExtractorParams = ExtractorParams(network: Option<Graph>, edgeNames: Option<seq<string>>,
                                             jdd: Option<map<Key, real>>)

  /** Every endpoint of an edge carries a joint-degree vector. */
  predicate VectorsPresent(g: Graph)
  {
    forall e :: e in g.edges ==> e.0 in g.jd && e.1 in g.jd
  }

  /** The degree keys the constructor takes: the keys of the given joint
      degree distribution, or else the distinct vectors of the nodes. */
  function DegreeKeys(g: Graph, jdd: Option<map<Key, real>>): set<Key>
  {
    if jdd.Some? then jdd.value.Keys else g.jd.Values
  }

  class JointExcessJointDegreeDistribution {
    const network: Graph
    const topologyNames: seq<string>
    var numEdges: seq<nat>
    const degreeKeys: set<Key>
    var excessDegreeKeys: seq<set<Key>>
    const store: EjkStore

    ghost predicate Valid()
      reads this
    {
      |numEdges| == |topologyNames|
    }

    constructor (network: Graph, topologyNames: seq<string>, degreeKeys: set<Key>, store: EjkStore)
      ensures this.network == network && this.topologyNames == topologyNames
      ensures this.degreeKeys == degreeKeys && this.store == store
      ensures numEdges == seq(|topologyNames|, _ => 0) && excessDegreeKeys == []
      ensures Valid()
    {
      this.network := network;
      this.topologyNames := topologyNames;
      this.degreeKeys := degreeKeys;
      this.store := store;
      numEdges := seq(|topologyNames|, _ => 0);
      excessDegreeKeys := [];
    }

    /** `__init__`: the network and the edge names are required, and without
        a joint degree distribution every node must carry a vector; a
        failure there is re-raised as a formatted string, a TypeError. The
        excess keys are then resolved, whose IndexError is not caught. */
    static method New(params: ExtractorParams, store: EjkStore) returns (r: Result<JointExcessJointDegreeDistribution>)
      ensures r.Ok? <==> params.network.Some? && params.edgeNames.Some?
                         && (params.jdd.None? ==> VectorsPresent(params.network.value))
                         && ResolvedKeys(DegreeKeys(params.network.value, params.jdd), |params.edgeNames.value|).Ok?
      ensures r.Err? ==> r.error in {TypeError, IndexError}
      ensures r.Ok? ==>
        var g, names := params.network.value, params.edgeNames.value;
        fresh(r.value) && r.value.Valid() && r.value.network == g && r.value.topologyNames == names
        && r.value.store == store && r.value.numEdges == seq(|names|, _ => 0)
        && r.value.degreeKeys == DegreeKeys(g, params.jdd)
        && r.value.excessDegreeKeys == ResolvedKeys(DegreeKeys(g, params.jdd), |names|).value
    {
      if params.network.None? || params.edgeNames.None? {
        return Err(TypeError);
      }
      var g := params.network.value;
      if params.jdd.None? && !VectorsPresent(g) {
        return Err(TypeError);
      }
      var x := new JointExcessJointDegreeDistribution(g, params.edgeNames.value, DegreeKeys(g, params.jdd), store);
      var ok := x.ResolveExcessDegreeKeys();
      if ok.Err? {
        return Err(ok.error);
      }
      r := Ok(x);
    }

    /** `resolve_excess_degree_keys`: one set per topology, built key by key;
        a degree key too short for the topology's index raises, leaving
        the sets of the earlier topologies behind. */
    method ResolveExcessDegreeKeys() returns (r: Result<()>)
      modifies this`excessDegreeKeys
      ensures r.Ok? <==> ResolvedKeys(degreeKeys, |topologyNames|).Ok?
      ensures r.Err? ==> r.error == IndexError
      ensures r.Ok? ==> excessDegreeKeys == ResolvedKeys(degreeKeys, |topologyNames|).value
      ensures |excessDegreeKeys| <= |topologyNames|
      ensures forall jd :: jd in degreeKeys ==> |excessDegreeKeys| <= |jd|
      ensures forall j :: 0 <= j < |excessDegreeKeys| ==> excessDegreeKeys[j] == ExcessKeysOf(degreeKeys, j)
    {
      excessDegreeKeys := [];
      var i := 0;
      while i < |topologyNames|
        invariant 0 <= i <= |topologyNames| && |excessDegreeKeys| == i
        invariant forall jd :: jd in degreeKeys ==> i <= |jd|
        invariant forall j :: 0 <= j < i ==> excessDegreeKeys[j] == ExcessKeysOf(degreeKeys, j)
      {
        var keys := ExcessKeysAt(i);
        if keys.Err? {
          var jd :| jd in degreeKeys && |jd| <= i;
          assert !(|topologyNames| <= |jd|);
          return Err(IndexError);
        }
        excessDegreeKeys := excessDegreeKeys + [keys.value];
        i := i + 1;
      }
      r := Ok(());
    }

    /** The inner loop of `resolve_excess_degree_keys` for topology i. */
    method ExcessKeysAt(i: nat) returns (r: Result<set<Key>>)
      ensures r.Ok? <==> forall jd :: jd in degreeKeys ==> i < |jd|
      ensures r.Err? ==> r.error == IndexError
      ensures r.Ok? ==> r.value == ExcessKeysOf(degreeKeys, i)
    {
      var acc: set<Key> := {};
      var rest := degreeKeys;
      while rest != {}
        invariant rest <= degreeKeys
        invariant forall jd :: jd in degreeKeys - rest ==> i < |jd|
        invariant acc == set jd | jd in degreeKeys - rest && jd[i] > 0 :: Excess(jd, i)
        decreases |rest|
      {
        var jd :| jd in rest;
        if i >= |jd| {
          return Err(IndexError);
        }
        if jd[i] > 0 {
          acc := acc + {Excess(jd, i)};
        }
        rest := rest - {jd};
      }
      assert degreeKeys - rest == degreeKeys;
      r := Ok(acc);
    }

    /** `count_edge_types`: adds, for every topology, the number of edges
        of that topology to the stored count. The counts are never reset,
        so a second call doubles them. */
    method CountEdgeTypes()
      requires Valid()
      modifies this`numEdges
      ensures Valid()
      ensures forall i :: 0 <= i < |numEdges| ==>
        numEdges[i] == old(numEdges[i]) + |Labelled(network.edges, topologyNames[i])|
    {
      var i := 0;
      while i < |topologyNames|
        invariant 0 <= i <= |topologyNames| && Valid()
        invariant forall j :: 0 <= j < |numEdges| ==>
          numEdges[j] == old(numEdges[j]) + (if j < i then |Labelled(network.edges, topologyNames[j])| else 0)
      {
        var c := CountLabelled(topologyNames[i]);
        numEdges := numEdges[i := numEdges[i] + c];
        i := i + 1;
      }
    }

    /** The inner loop of `count_edge_types` for one name. */
    method CountLabelled(name: string) returns (c: nat)
      ensures c == |Labelled(network.edges, name)|
    {
      c := 0;
      var rest := network.edges.Keys;
      while rest != {}
        invariant rest <= network.edges.Keys
        invariant c == |Labelled(network.edges, name) - rest|
        decreases |rest|
      {
        var e :| e in rest;
        var before := Labelled(network.edges, name) - rest;
        if network.edges[e].topology == name {
          assert Labelled(network.edges, name) - (rest - {e}) == before + {e};
          c := c + 1;
        } else {
          assert Labelled(network.edges, name) - (rest - {e}) == before;
        }
        rest := rest - {e};
      }
      assert Labelled(network.edges, name) - rest == Labelled(network.edges, name);
    }

    /** `get_ejk(i, name)`: each edge of topology `name` adds 1 / (2 n) under
        both of its keys, n being the stored count of topology i. It fails
        on an edge without keys, on an index beyond the counts, and on a
        zero count, the errors depending on which edge comes first. */
    method GetEjk(i: nat, name: string) returns (r: Result<map<Key, real>>)
      ensures var n := if i < |numEdges| then numEdges[i] else 0;
        r.Ok? <==> KeysDefined(network, i, name) && (Labelled(network.edges, name) != {} ==> n > 0)
      ensures r.Ok? ==> r.value == Ejk(network, i, name, if i < |numEdges| then numEdges[i] else 0)
      ensures r.Err? ==>
        (exists e :: e in Labelled(network.edges, name) && EdgeKeys(network, e, i) == Err(r.error))
        || (r.error == IndexError && i >= |numEdges| && Labelled(network.edges, name) != {})
        || (r.error == ZeroDivisionError && i < |numEdges| && numEdges[i] == 0 && Labelled(network.edges, name) != {})
    {
      var g := network;
      var n := if i < |numEdges| then numEdges[i] else 0;
      var ejk: map<Key, real> := map[];
      var rest := g.edges.Keys;
      ghost var visited: seq<Edge> := [];
      EjkLoopStart(g, i, name, n);
      while rest != {}
        invariant EjkLoop(g, i, name, n, rest, visited, ejk)
        decreases |rest|
      {
        var e :| e in rest;
        EjkLoopRest(g, i, name, n, rest, visited, ejk, e);
        if g.edges[e].topology == name {
          var ks := EdgeKeys(g, e, i);
          if ks.Err? {
            EjkEdgeFails(g, i, name, e);
            return Err(ks.error);
          }
          if i >= |numEdges| {
            return Err(IndexError);
          }
          if numEdges[i] == 0 {
            return Err(ZeroDivisionError);
          }
          var w := 1.0 / (2 * numEdges[i]) as real;
          EjkLoopAdd(g, i, name, n, rest, visited, ejk, e, w);
          ejk := AddWeight(ejk, ks.value.0, w);
          ejk := AddWeight(ejk, ks.value.1, w);
        } else {
          EjkLoopSkip(g, i, name, n, rest, visited, ejk, e);
        }
        visited := visited + [e];
        rest := rest - {e};
      }
      EjkLoopEnd(g, i, name, n, visited, ejk);
      r := Ok(ejk);
    }

    /** `get_ejks`: counts the edge types, then appends the pattern of every
        topology, in order, to the shared list and returns that list. */
    method GetEjks() returns (r: Result<seq<map<Key, real>>>)
      requires Valid()
      modifies this`numEdges, store
      ensures Valid()
      ensures forall i :: 0 <= i < |numEdges| ==>
        numEdges[i] == old(numEdges[i]) + |Labelled(network.edges, topologyNames[i])|
      ensures |old(store.ejks)| <= |store.ejks| <= |old(store.ejks)| + |topologyNames|
      ensures store.ejks[..|old(store.ejks)|] == old(store.ejks)
      ensures forall j :: 0 <= j < |store.ejks| - |old(store.ejks)| ==>
        store.ejks[|old(store.ejks)| + j] == Ejk(network, j, topologyNames[j], numEdges[j])
      ensures r.Ok? <==> forall j :: 0 <= j < |topologyNames| ==>
        KeysDefined(network, j, topologyNames[j]) && (Labelled(network.edges, topologyNames[j]) != {} ==> numEdges[j] > 0)
      ensures r.Ok? ==> |store.ejks| == |old(store.ejks)| + |topologyNames| && r.value == store.ejks
    {
      CountEdgeTypes();
      ghost var before := store.ejks;
      ghost var counted := numEdges;
      var i := 0;
      while i < |topologyNames|
        invariant 0 <= i <= |topologyNames| && Valid() && numEdges == counted
        invariant |store.ejks| == |before| + i && store.ejks[..|before|] == before
        invariant Stored(store.ejks, |before|, network, topologyNames, numEdges, i)
        invariant forall j :: 0 <= j < i ==>
          KeysDefined(network, j, topologyNames[j]) && (Labelled(network.edges, topologyNames[j]) != {} ==> numEdges[j] > 0)
      {
        var ejk := GetEjk(i, topologyNames[i]);
        if ejk.Err? {
          return Err(ejk.error);
        }
        StoredNext(store.ejks, |before|, network, topologyNames, numEdges, i, ejk.value);
        store.ejks := store.ejks + [ejk.value];
        i := i + 1;
      }
      r := Ok(store.ejks);
    }
  }

  // ----- the joint excess degree of the whole network -----

  /** The two keys of an edge for the degrees `deg`: both ends' degrees
      reduced by one, in both orders. */
  function DegreeFn(deg: Vertex -> int): (Edge, Label) -> multiset<(int, int)>
  {
    (e: Edge, l: Label) => multiset{(deg(e.0) - 1, deg(e.1) - 1), (deg(e.1) - 1, deg(e.0) - 1)}
  }

  /** `G.degree` as a function. */
  function DegreesOf(g: Graph): Vertex -> int
  {
    u => DegreeOf(g, u)
  }

  /** The pattern of edges `m` whose ends have degrees `deg`. */
  ghost function ExcessEjkOver(m: map<Edge, Label>, deg: Vertex -> int): map<(int, int), real>
  {
    if |m| == 0 then map[] else Spread(Bag(m, DegreeFn(deg)), 2.0 * |m| as real)
  }

  /** `JointExcessDegree.get_ejk` when it is done: every edge adds 0.5 / m,
      that is 1 / (2 m), under both of its keys; an empty graph gives an
      empty map without dividing. */
  ghost function ExcessDegreeEjk(g: Graph): map<(int, int), real>
  {
    ExcessEjkOver(g.edges, DegreesOf(g))
  }

  lemma Half(m: real)
    requires m != 0.0
    ensures 0.5 / m == 1.0 / (2.0 * m)
  {
  }

  /** One step of the loop: the edge e adds 0.5 / m under both of its
      keys. */
  lemma ExcessDegreeStep(g: Graph, rest: set<Edge>, visited: seq<Edge>, ejk: map<(int, int), real>, e: Edge, w: real)
    requires Accumulating(g.edges, DegreeFn(DegreesOf(g)), rest, visited, ejk, 2.0 * |g.edges| as real)
    requires e in rest && |g.edges| > 0 && w == 0.5 / |g.edges| as real
    ensures var key1, key2 := (DegreeOf(g, e.0) - 1, DegreeOf(g, e.1) - 1), (DegreeOf(g, e.1) - 1, DegreeOf(g, e.0) - 1);
      Accumulating(g.edges, DegreeFn(DegreesOf(g)), rest - {e}, visited + [e],
                   AddWeight(AddWeight(ejk, key1, w), key2, w), 2.0 * |g.edges| as real)
  {
    Half(|g.edges| as real);
    var key1, key2 := (DegreeOf(g, e.0) - 1, DegreeOf(g, e.1) - 1), (DegreeOf(g, e.1) - 1, DegreeOf(g, e.0) - 1);
    assert DegreeFn(DegreesOf(g))(e, g.edges[e]) == multiset{key1, key2};
    AccumulateAdd(g.edges, DegreeFn(DegreesOf(g)), rest, visited, ejk, 2.0 * |g.edges| as real, e, key1, key2, w);
  }

  /** When every edge is done, the weights are the network's pattern. */
  lemma ExcessDegreeEnd(g: Graph, visited: seq<Edge>, ejk: map<(int, int), real>)
    requires Accumulating(g.edges, DegreeFn(DegreesOf(g)), {}, visited, ejk, 2.0 * |g.edges| as real)
    ensures ejk == ExcessDegreeEjk(g)
  {
    AccumulateEnd(g.edges, DegreeFn(DegreesOf(g)), visited, ejk, 2.0 * |g.edges| as real);
  }

  lemma NonEmpty(m: map<Edge, Label>, rest: set<Edge>, e: Edge)
    requires rest <= m.Keys && e in rest
    ensures |m| > 0
  {
    assert e in m.Keys;
  }

  /** The loop of `JointExcessDegree.get_ejk`, reading degrees from the
      graph it never changes. */
  method GetExcessDegreeEjk(g: Graph) returns (ejk: map<(int, int), real>)
    ensures ejk == ExcessDegreeEjk(g)
  {
    ejk := map[];
    var numEdges := |g.edges|;
    var rest := g.edges.Keys;
    ghost var visited: seq<Edge> := [];
    AccumulateStart(g.edges, DegreeFn(DegreesOf(g)), 2.0 * |g.edges| as real);
    while rest != {}
      invariant Accumulating(g.edges, DegreeFn(DegreesOf(g)), rest, visited, ejk, 2.0 * |g.edges| as real)
      decreases |rest|
    {
      var e :| e in rest;
      var uExcess, vExcess := DegreeOf(g, e.0) - 1, DegreeOf(g, e.1) - 1;
      var key1, key2 := (uExcess, vExcess), (vExcess, uExcess);
      NonEmpty(g.edges, rest, e);
      var w := 0.5 / numEdges as real;
      ExcessDegreeStep(g, rest, visited, ejk, e, w);
      ejk := AddWeight(ejk, key1, w);
      ejk := AddWeight(ejk, key2, w);
      visited := visited + [e];
      rest := rest - {e};
    }
    ExcessDegreeEnd(g, visited, ejk);
  }

  /** Swapping the two degrees of a key does not change its multiplicity. */
  lemma {:induction false} DegreeBagSymmetric(m: map<Edge, Label>, deg: Vertex -> int, j: int, k: int)
    ensures Bag(m, DegreeFn(deg))[(j, k)] == Bag(m, DegreeFn(deg))[(k, j)]
    decreases |m.Keys|
  {
    if m.Keys != {} {
      var e :| e in m.Keys;
      var m' := m - {e};
      assert m'.Keys == m.Keys - {e};
      var f := DegreeFn(deg);
      BagRemove(m, f, e);
      DegreeBagSymmetric(m', deg, j, k);
      var a, b := deg(e.0) - 1, deg(e.1) - 1;
      assert f(e, m[e]) == multiset{(a, b), (b, a)};
      PairSymmetric(a, b, j, k);
      CountSum(f(e, m[e]), Bag(m', f), (j, k));
      CountSum(f(e, m[e]), Bag(m', f), (k, j));
    }
  }

  lemma PairSymmetric(a: int, b: int, j: int, k: int)
    ensures multiset{(a, b), (b, a)}[(j, k)] == multiset{(a, b), (b, a)}[(k, j)]
  {
  }

  /** The pattern is symmetric: `ejk[(j, k)] == ejk[(k, j)]`. */
  lemma ExcessDegreeSymmetric(g: Graph, j: int, k: int)
    ensures Get(ExcessDegreeEjk(g), (j, k)) == Get(ExcessDegreeEjk(g), (k, j))
  {
    DegreeBagSymmetric(g.edges, DegreesOf(g), j, k);
  }

  lemma {:induction false} DegreeBagSize(m: map<Edge, Label>, deg: Vertex -> int)
    ensures |Bag(m, DegreeFn(deg))| == 2 * |m|
    decreases |m.Keys|
  {
    if m.Keys != {} {
      var e :| e in m.Keys;
      var m' := m - {e};
      assert m'.Keys == m.Keys - {e};
      BagRemove(m, DegreeFn(deg), e);
      DegreeBagSize(m', deg);
    }
  }

  /** The weights of a non-empty graph add up to one, and those of an
      empty graph to zero. */
  lemma ExcessDegreeTotal(g: Graph)
    ensures Total(ExcessDegreeEjk(g)) == if |g.edges| == 0 then 0.0 else 1.0
  {
    ExcessOverTotal(g.edges, DegreesOf(g));
  }

  lemma ExcessOverTotal(m: map<Edge, Label>, deg: Vertex -> int)
    ensures Total(ExcessEjkOver(m, deg)) == if |m| == 0 then 0.0 else 1.0
  {
    if |m| == 0 {
      TotalEmpty(ExcessEjkOver(m, deg));
    } else {
      DegreeBagSize(m, deg);
      var b := Bag(m, DegreeFn(deg));
      SpreadPairsTotal(b, |m|);
      assert ExcessEjkOver(m, deg) == Spread(b, 2.0 * |m| as real);
    }
  }

  lemma ExcessDegreeKey(g: Graph, key: (int, int))
    requires key in ExcessDegreeEjk(g)
    ensures key in Bag(g.edges, DegreeFn(DegreesOf(g)))
  {
  }

  /** An edge whose degrees give the key. */
  lemma DegreeKeyEdge(m: map<Edge, Label>, deg: Vertex -> int, key: (int, int)) returns (e: Edge)
    requires key in Bag(m, DegreeFn(deg))
    ensures e in m && (key == (deg(e.0) - 1, deg(e.1) - 1) || key == (deg(e.1) - 1, deg(e.0) - 1))
  {
    BagOrigin(m, DegreeFn(deg), key);
    e :| e in m && key in DegreeFn(deg)(e, m[e]);
  }

  /** Every key of the network's pattern comes from one of its edges and
      the degrees of its ends (`DegreeOfMeaning` ties these to networkx's
      degree). */
  lemma ExcessDegreeOrigin(g: Graph, key: (int, int))
    requires key in ExcessDegreeEjk(g)
    ensures exists e :: e in g.edges && (key == (DegreeOf(g, e.0) - 1, DegreeOf(g, e.1) - 1) || key == (DegreeOf(g, e.1) - 1, DegreeOf(g, e.0) - 1))
  {
    ExcessDegreeKey(g, key);
    var e := DegreeKeyEdge(g.edges, DegreesOf(g), key);
    var a, b := DegreeOf(g, e.0) - 1, DegreeOf(g, e.1) - 1;
    assert DegreesOf(g)(e.0) - 1 == a && DegreesOf(g)(e.1) - 1 == b;
    assert e in g.edges && (key == (a, b) || key == (b, a));
  }
}
