// An undirected labelled graph as the rewiring engine sees a networkx Graph:
// every edge is stored once under its sorted vertex pair and carries its
// motif topology name and motif id; vertices carry a joint-degree vector.

module Graphs {
  import opened Common

  type Vertex = int

  /** An edge as a Python tuple; the order of the endpoints is significant
      for tuples but not for the graph. */
  type Edge = (Vertex, Vertex)

  datatype Label = Label(topology: string, motifId: int)

  datatype Graph = Graph(edges: map<Edge, Label>, jd: map<Vertex, seq<int>>)

  /** `tuple(sorted(e))` */
  function Sorted(e: Edge): (r: Edge)
    ensures r.0 <= r.1
    ensures r == e || r == (e.1, e.0)
  {
    if e.0 <= e.1 then e else (e.1, e.0)
  }

  /** Sorting keeps the endpoints. */
  lemma SortedEnds(e: Edge)
    ensures multiset{Sorted(e).0, Sorted(e).1} == multiset{e.0, e.1}
  {
  }

  lemma SortedSame(e: Edge, f: Edge)
    ensures Sorted(e) == Sorted(f) <==> multiset{e.0, e.1} == multiset{f.0, f.1}
  {
    if multiset{e.0, e.1} == multiset{f.0, f.1} {
      assert e.0 in multiset{f.0, f.1};
      if e.0 == f.0 {
        assert multiset{e.1} == multiset{e.0, e.1} - multiset{e.0};
        assert multiset{f.1} == multiset{f.0, f.1} - multiset{f.0};
      } else {
        assert e.0 == f.1;
        assert multiset{e.1} == multiset{e.0, e.1} - multiset{e.0};
        assert multiset{f.0} == multiset{f.0, f.1} - multiset{f.1};
      }
    }
  }

  /** Two edges at a common vertex are the same unordered pair only when
      their other endpoints agree. */
  lemma SortedSameFirst(a: Vertex, x: Vertex, y: Vertex)
    ensures Sorted((a, x)) == Sorted((a, y)) <==> x == y
  {
  }

  /** Every key is stored in sorted form, one entry per unordered pair. */
  predicate Canonical(g: Graph)
  {
    forall e :: e in g.edges ==> e.0 <= e.1
  }

  predicate HasEdge(g: Graph, u: Vertex, v: Vertex)
  {
    Sorted((u, v)) in g.edges
  }

  /** `G.edges[e]` for an edge of the graph. */
  function EdgeLabel(g: Graph, e: Edge): Label
    requires Sorted(e) in g.edges
  {
    g.edges[Sorted(e)]
  }

  predicate LoopFree(g: Graph)
  {
    forall e :: e in g.edges ==> e.0 != e.1
  }

  /** The neighbours of u, as the second components of `G.edges(u)`. */
  function Neighbours(g: Graph, u: Vertex): set<Vertex>
  {
    set e | e in g.edges && (e.0 == u || e.1 == u) :: if e.0 == u then e.1 else e.0
  }

  lemma NeighboursMeaning(g: Graph, u: Vertex, w: Vertex)
    requires Canonical(g)
    ensures w in Neighbours(g, u) <==> HasEdge(g, u, w)
  {
    if HasEdge(g, u, w) {
      var e := Sorted((u, w));
      assert e in g.edges && (e.0 == u || e.1 == u);
      assert (if e.0 == u then e.1 else e.0) == w;
    }
  }

  /** `G.add_edge(*e)` followed by setting both attributes. */
  function AddEdge(g: Graph, e: Edge, l: Label): (r: Graph)
    ensures r.jd == g.jd
    ensures HasEdge(r, e.0, e.1)
  {
    g.(edges := g.edges[Sorted(e) := l])
  }

  /** `G.remove_edge(*e)`, which raises NetworkXError for a missing edge. */
  function RemoveEdge(g: Graph, e: Edge): (r: Result<Graph>)
    ensures r.Ok? <==> HasEdge(g, e.0, e.1)
    ensures r.Ok? ==> r.value.jd == g.jd && !HasEdge(r.value, e.0, e.1)
  {
    if Sorted(e) in g.edges then Ok(g.(edges := g.edges - {Sorted(e)})) else Err(NetworkXError)
  }

  // ----- multisets over the edges of a graph -----

  /** The multiset obtained by adding f over every entry of m. */
  ghost function Bag<X>(m: map<Edge, Label>, f: (Edge, Label) -> multiset<X>): multiset<X>
    decreases |m.Keys|
  {
    if m.Keys == {} then multiset{}
    else
      var e :| e in m.Keys;
      assert |(m - {e}).Keys| < |m.Keys| by {
        assert (m - {e}).Keys == m.Keys - {e};
      }
      f(e, m[e]) + Bag(m - {e}, f)
  }

  lemma {:induction false} BagRemove<X>(m: map<Edge, Label>, f: (Edge, Label) -> multiset<X>, e: Edge)
    requires e in m
    ensures Bag(m, f) == f(e, m[e]) + Bag(m - {e}, f)
    decreases |m.Keys|
  {
    var d :| d in m.Keys && Bag(m, f) == f(d, m[d]) + Bag(m - {d}, f);
    if d != e {
      var md, me := m - {d}, m - {e};
      assert md.Keys == m.Keys - {d} && me.Keys == m.Keys - {e};
      BagRemove(md, f, e);
      BagRemove(me, f, d);
      assert md[e] == m[e] && me[d] == m[d];
      RemoveTwo(m, d, e);
      UnionSwap(f(d, m[d]), f(e, m[e]), Bag(md - {e}, f));
    }
  }

  lemma RemoveTwo(m: map<Edge, Label>, d: Edge, e: Edge)
    ensures m - {d} - {e} == m - {e} - {d}
  {
    assert (m - {d} - {e}).Keys == m.Keys - {d, e} == (m - {e} - {d}).Keys;
  }

  lemma UnionSwap<X>(a: multiset<X>, b: multiset<X>, c: multiset<X>)
    ensures a + (b + c) == b + (a + c)
  {
  }

  /** Whatever is in the bag was given by one of the entries. */
  lemma {:induction false} BagOrigin<X>(m: map<Edge, Label>, f: (Edge, Label) -> multiset<X>, x: X)
    requires x in Bag(m, f)
    ensures exists e :: e in m && x in f(e, m[e])
    decreases |m.Keys|
  {
    var e :| e in m.Keys;
    BagRemove(m, f, e);
    if x !in f(e, m[e]) {
      assert (m - {e}).Keys == m.Keys - {e};
      BagOrigin(m - {e}, f, x);
      var d :| d in m - {e} && x in f(d, (m - {e})[d]);
      assert d in m && x in f(d, m[d]);
    }
  }

  lemma BagEmpty<X>(f: (Edge, Label) -> multiset<X>)
    ensures Bag(map[], f) == multiset{}
  {
  }

  lemma BagInsert<X>(m: map<Edge, Label>, f: (Edge, Label) -> multiset<X>, e: Edge, l: Label)
    requires e !in m
    ensures Bag(m[e := l], f) == f(e, l) + Bag(m, f)
  {
    BagRemove(m[e := l], f, e);
    assert m[e := l] - {e} == m;
  }

  function EndpointsOf(e: Edge, l: Label): multiset<Vertex>
  {
    multiset{e.0, e.1}
  }

  function LabelOf(e: Edge, l: Label): multiset<Label>
  {
    multiset{l}
  }

  /** Each vertex occurs as often as networkx counts its degree (a
      self-loop adds two). */
  ghost function Endpoints(g: Graph): multiset<Vertex>
  {
    Bag(g.edges, EndpointsOf)
  }

  /** The multiset of (topology, motif id) labels carried by the edges. */
  ghost function Labels(g: Graph): multiset<Label>
  {
    Bag(g.edges, LabelOf)
  }

  ghost function Degree(g: Graph, u: Vertex): nat
  {
    Endpoints(g)[u]
  }

  /** `G.number_of_edges()` */
  function NumberOfEdges(g: Graph): nat
  {
    |g.edges|
  }

  lemma AddEdgeEffect(g: Graph, e: Edge, l: Label)
    requires Canonical(g) && !HasEdge(g, e.0, e.1)
    ensures Canonical(AddEdge(g, e, l))
    ensures NumberOfEdges(AddEdge(g, e, l)) == NumberOfEdges(g) + 1
    ensures Endpoints(AddEdge(g, e, l)) == Endpoints(g) + multiset{e.0, e.1}
    ensures Labels(AddEdge(g, e, l)) == Labels(g) + multiset{l}
  {
    SortedEnds(e);
    BagInsert(g.edges, EndpointsOf, Sorted(e), l);
    BagInsert(g.edges, LabelOf, Sorted(e), l);
  }

  /** `G.add_edge` on an edge already present only relabels it. */
  lemma AddEdgeExisting(g: Graph, e: Edge, l: Label)
    requires Canonical(g) && HasEdge(g, e.0, e.1)
    ensures Canonical(AddEdge(g, e, l))
    ensures AddEdge(g, e, l).edges.Keys == g.edges.Keys
    ensures NumberOfEdges(AddEdge(g, e, l)) == NumberOfEdges(g)
  {
    assert AddEdge(g, e, l).edges.Keys == g.edges.Keys;
  }

  lemma RemoveEdgeEffect(g: Graph, e: Edge)
    requires Canonical(g) && HasEdge(g, e.0, e.1)
    ensures Canonical(RemoveEdge(g, e).value)
    ensures NumberOfEdges(RemoveEdge(g, e).value) == NumberOfEdges(g) - 1
    ensures Endpoints(g) == Endpoints(RemoveEdge(g, e).value) + multiset{e.0, e.1}
    ensures Labels(g) == Labels(RemoveEdge(g, e).value) + multiset{EdgeLabel(g, e)}
  {
    SortedEnds(e);
    RemoveEntry(g.edges, Sorted(e));
    assert RemoveEdge(g, e).value.edges == g.edges - {Sorted(e)};
  }

  /** Removing one entry of an edge map takes its ends and its label out
      of the bags. */
  lemma RemoveEntry(m: map<Edge, Label>, s: Edge)
    requires s in m
    ensures |m - {s}| == |m| - 1
    ensures Bag(m, EndpointsOf) == Bag(m - {s}, EndpointsOf) + multiset{s.0, s.1}
    ensures Bag(m, LabelOf) == Bag(m - {s}, LabelOf) + multiset{m[s]}
  {
    BagRemove(m, EndpointsOf, s);
    BagRemove(m, LabelOf, s);
    assert (m - {s}).Keys == m.Keys - {s};
  }

  /** `G.degree(u)`: the edges whose first end is u plus those whose second
      end is u, so a self-loop counts twice. */
  function DegreeOf(g: Graph, u: Vertex): nat
  {
    |EdgesFrom(g.edges, u)| + |EdgesTo(g.edges, u)|
  }

  function EdgesFrom(m: map<Edge, Label>, u: Vertex): set<Edge>
  {
    set e | e in m && e.0 == u
  }

  function EdgesTo(m: map<Edge, Label>, u: Vertex): set<Edge>
  {
    set e | e in m && e.1 == u
  }

  /** The degree counted edge by edge is the multiplicity of the vertex
      among the endpoints. */
  lemma DegreeOfMeaning(g: Graph, u: Vertex)
    ensures DegreeOf(g, u) == Degree(g, u)
  {
    EndpointCount(g.edges, u);
  }

  lemma {:induction false} EndpointCount(m: map<Edge, Label>, u: Vertex)
    ensures |EdgesFrom(m, u)| + |EdgesTo(m, u)| == Bag(m, EndpointsOf)[u]
    decreases |m.Keys|
  {
    if m.Keys != {} {
      var e :| e in m.Keys;
      var m' := m - {e};
      assert m'.Keys == m.Keys - {e};
      BagRemove(m, EndpointsOf, e);
      EndpointCount(m', u);
      EdgesAtRemove(m, u, e);
    }
  }

  lemma EdgesAtRemove(m: map<Edge, Label>, u: Vertex, e: Edge)
    requires e in m
    ensures |EdgesFrom(m, u)| == |EdgesFrom(m - {e}, u)| + (if e.0 == u then 1 else 0)
    ensures |EdgesTo(m, u)| == |EdgesTo(m - {e}, u)| + (if e.1 == u then 1 else 0)
  {
    EdgesFromRemove(m, u, e);
    EdgesToRemove(m, u, e);
  }

  lemma EdgesFromRemove(m: map<Edge, Label>, u: Vertex, e: Edge)
    requires e in m
    ensures EdgesFrom(m, u) == EdgesFrom(m - {e}, u) + (if e.0 == u then {e} else {})
    ensures e !in EdgesFrom(m - {e}, u)
  {
  }

  lemma EdgesToRemove(m: map<Edge, Label>, u: Vertex, e: Edge)
    requires e in m
    ensures EdgesTo(m, u) == EdgesTo(m - {e}, u) + (if e.1 == u then {e} else {})
    ensures e !in EdgesTo(m - {e}, u)
  {
  }

  // ----- visiting the edges of a map one at a time -----

  /** `es` lists every element of `s` exactly once: an iteration order. */
  predicate Enumerates(es: seq<Edge>, s: set<Edge>)
  {
    (forall i, j :: 0 <= i < j < |es| ==> es[i] != es[j]) && (set x | x in es) == s
  }

  lemma EnumeratesStep(es: seq<Edge>, s: set<Edge>, e: Edge)
    requires Enumerates(es, s) && e !in s
    ensures Enumerates(es + [e], s + {e})
  {
    var es' := es + [e];
    assert (set x | x in es') == (set x | x in es) + {e};
    forall i, j | 0 <= i < j < |es'|
      ensures es'[i] != es'[j]
    {
      if j == |es| {
        assert es'[i] in (set x | x in es);
      }
    }
  }

  /** The multiset obtained by adding f over the entries of m listed in es,
      in that order. */
  function ListedBag<X>(m: map<Edge, Label>, es: seq<Edge>, f: (Edge, Label) -> multiset<X>): multiset<X>
    requires forall e :: e in es ==> e in m
  {
    if es == [] then multiset{} else f(es[|es| - 1], m[es[|es| - 1]]) + ListedBag(m, es[..|es| - 1], f)
  }

  lemma ListedBagAppend<X>(m: map<Edge, Label>, es: seq<Edge>, f: (Edge, Label) -> multiset<X>, e: Edge)
    requires (forall x :: x in es ==> x in m) && e in m
    ensures forall x :: x in es + [e] ==> x in m
    ensures ListedBag(m, es + [e], f) == f(e, m[e]) + ListedBag(m, es, f)
  {
    assert (es + [e])[..|es|] == es;
  }

  /** Only the entries listed matter. */
  lemma {:induction false} ListedBagFrame<X>(m: map<Edge, Label>, m': map<Edge, Label>, es: seq<Edge>, f: (Edge, Label) -> multiset<X>)
    requires forall e :: e in es ==> e in m && e in m' && m[e] == m'[e]
    ensures ListedBag(m, es, f) == ListedBag(m', es, f)
  {
    if es != [] {
      ListedBagFrame(m, m', es[..|es| - 1], f);
    }
  }

  /** Whatever the iteration order, the entries listed add up to the bag. */
  lemma {:induction false} ListedBagIsBag<X>(m: map<Edge, Label>, es: seq<Edge>, f: (Edge, Label) -> multiset<X>)
    requires Enumerates(es, m.Keys)
    ensures forall e :: e in es ==> e in m
    ensures ListedBag(m, es, f) == Bag(m, f)
    decreases |es|
  {
    assert forall e :: e in es ==> e in (set x | x in es);
    if es == [] {
      assert m == map[];
    } else {
      var n := |es| - 1;
      var e, es' := es[n], es[..n];
      assert es == es' + [e];
      var m' := m - {e};
      assert e !in es' by {
        forall i | 0 <= i < n
          ensures es'[i] != e
        {
          assert es[i] != es[n];
        }
      }
      assert (set x | x in es') == m'.Keys by {
        assert (set x | x in es) == (set x | x in es') + {e};
      }
      ListedBagIsBag(m', es', f);
      ListedBagFrame(m, m', es', f);
      BagRemove(m, f, e);
    }
  }
}
