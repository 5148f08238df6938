// The Markov-chain edge-swap rewiring engine. A drawn edge fixes a focal
// vertex u0 and its "corner" (the edges at u0 inside the same motif); a
// second drawn edge of the same topology fixes v0 and its corner. If the
// corners are compatible, each u-corner edge (u0,u1) is paired with a
// v-corner edge (v0,v1) of the same topology, and on acceptance the pair is
// replaced by (u0,v1) and (v0,u1), each keeping the labels of the edge it
// came from.

module Rewiring {
  import opened Common
  import opened Graphs
  import opened DrawSets
  import opened Mcmc
  import opened EjkMatrices
  import KV = KeysView

  /** A new edge of a proposed swap with the labels it will carry. */
  datatype ProposalEdge = ProposalEdge(topology: string, motifId: int, newEdge: Edge)

  function ProposalLabel(p: ProposalEdge): Label
  {
    Label(p.topology, p.motifId)
  }

  /** The endpoint of e other than u (u itself for a self-loop); an error
      when u is not an endpoint of e. */
  function OtherVertex(u: Vertex, e: Edge): (r: Result<Vertex>)
    ensures r.Ok? <==> (u == e.0 || u == e.1)
    ensures r.Err? ==> r.error == RewiringError
    ensures r.Ok? ==> (r.value == e.0 && u == e.1) || (r.value == e.1 && u == e.0)
  {
    if e.0 == u then Ok(e.1)
    else if e.1 == u then Ok(e.0)
    else Err(RewiringError)
  }

  lemma OtherVertexEnds(u: Vertex, e: Edge)
    requires OtherVertex(u, e).Ok?
    ensures multiset{u, OtherVertex(u, e).value} == multiset{e.0, e.1}
  {
  }

  predicate InGraph(g: Graph, es: seq<Edge>)
  {
    forall e :: e in es ==> HasEdge(g, e.0, e.1)
  }

  /** The edges of the corner at u0 of the motif with id `id`, oriented
      away from u0. */
  predicate IsCorner(g: Graph, u0: Vertex, id: int, e: Edge)
  {
    e.0 == u0 && HasEdge(g, e.0, e.1) && EdgeLabel(g, e).motifId == id
  }

  /** `get_all_edges`: every edge at u0 whose motif id is that of `edge`,
      each once, as (u0, other endpoint). The order of the neighbours is
      the graph's and is left open. */
  method GetAllEdges(g: Graph, u0: Vertex, edge: Edge) returns (es: seq<Edge>)
    requires Canonical(g) && HasEdge(g, edge.0, edge.1)
    ensures NoDuplicates(es)
    ensures forall e :: e in es <==> IsCorner(g, u0, EdgeLabel(g, edge).motifId, e)
  {
    var id := EdgeLabel(g, edge).motifId;
    es := [];
    var rest := Neighbours(g, u0);
    while rest != {}
      invariant rest <= Neighbours(g, u0)
      invariant NoDuplicates(es)
      invariant forall e :: e in es <==> IsCorner(g, u0, id, e) && e.1 in Neighbours(g, u0) - rest
      decreases |rest|
    {
      var w :| w in rest;
      NeighboursMeaning(g, u0, w);
      if EdgeLabel(g, (u0, w)).motifId == id {
        es := es + [(u0, w)];
      }
      rest := rest - {w};
    }
    forall e | IsCorner(g, u0, id, e) ensures e.1 in Neighbours(g, u0) {
      NeighboursMeaning(g, u0, e.1);
    }
  }

  /** The drawn edge, stored sorted, belongs to the corner of its first
      endpoint. */
  lemma DrawnEdgeInItsCorner(g: Graph, e: Edge)
    requires Canonical(g) && e in g.edges
    ensures IsCorner(g, e.0, g.edges[e].motifId, e)
  {
    assert Sorted(e) == e;
  }

  // ----- the topology hashmap -----

  predicate HasTopology(g: Graph, e: Edge, t: string)
  {
    HasEdge(g, e.0, e.1) && EdgeLabel(g, e).topology == t
  }

  /** The edges of es of topology t, in order. */
  function Bucket(g: Graph, es: seq<Edge>, t: string): (r: seq<Edge>)
    ensures |r| <= |es|
  {
    if es == [] then []
    else Bucket(g, es[..|es| - 1], t) + (if HasTopology(g, es[|es| - 1], t) then [es[|es| - 1]] else [])
  }

  lemma {:induction false} BucketCount(g: Graph, s: seq<Edge>, t: string, x: Edge)
    ensures multiset(Bucket(g, s, t))[x] == if HasTopology(g, x, t) then multiset(s)[x] else 0
  {
    if s != [] {
      BucketCount(g, s[..|s| - 1], t, x);
      assert s == s[..|s| - 1] + [s[|s| - 1]];
    }
  }

  /** The map `get_hashmap` builds: per topology, the edges of that
      topology in their original order, each appended to its bucket. */
  function Hashmap(g: Graph, es: seq<Edge>): map<string, seq<Edge>>
    requires InGraph(g, es)
  {
    if es == [] then map[]
    else
      var h, e := Hashmap(g, es[..|es| - 1]), es[|es| - 1];
      var t := EdgeLabel(g, e).topology;
      h[t := (if t in h then h[t] else []) + [e]]
  }

  /** `get_hashmap`, built edge by edge. */
  method GetHashmap(g: Graph, es: seq<Edge>) returns (hashmap: map<string, seq<Edge>>)
    requires InGraph(g, es)
    ensures forall t :: t in hashmap <==> exists x :: x in es && EdgeLabel(g, x).topology == t
    ensures forall t :: t in hashmap ==> hashmap[t] == Bucket(g, es, t)
    ensures hashmap == Hashmap(g, es)
  {
    hashmap := map[];
    var i := 0;
    while i < |es|
      invariant 0 <= i <= |es|
      invariant hashmap == Hashmap(g, es[..i])
    {
      var e := es[i];
      var topology := EdgeLabel(g, e).topology;
      var lst := if topology in hashmap then hashmap[topology] else [];
      assert es[..i + 1][..i] == es[..i];
      hashmap := hashmap[topology := lst + [e]];
      i := i + 1;
    }
    assert es[..i] == es;
    forall t ensures (t in hashmap <==> exists x :: x in es && EdgeLabel(g, x).topology == t)
                     && (t in hashmap ==> hashmap[t] == Bucket(g, es, t)) {
      HashmapBuckets(g, es, t);
    }
  }

  /** Each key of the hashmap is the topology of some edge, and its bucket
      is exactly the edges of that topology, in order. */
  lemma {:induction false} HashmapBuckets(g: Graph, es: seq<Edge>, t: string)
    requires InGraph(g, es)
    ensures t in Hashmap(g, es) <==> exists x :: x in es && EdgeLabel(g, x).topology == t
    ensures t in Hashmap(g, es) ==> Hashmap(g, es)[t] == Bucket(g, es, t)
    ensures t !in Hashmap(g, es) ==> Bucket(g, es, t) == []
  {
    if es != [] {
      var es' := es[..|es| - 1];
      var e := es[|es| - 1];
      assert forall x :: x in es' ==> x in es;
      HashmapBuckets(g, es', t);
      assert es == es' + [e];
      if exists x :: x in es && EdgeLabel(g, x).topology == t {
        var x :| x in es && EdgeLabel(g, x).topology == t;
        if x != e {
          assert x in es';
        }
      }
    }
  }

  /** The hashmap partitions the edges by topology: each bucket holds
      exactly the edges of its topology, with their multiplicities. */
  lemma HashmapPartitions(g: Graph, es: seq<Edge>, t: string, e: Edge)
    requires InGraph(g, es)
    ensures t in Hashmap(g, es) <==> exists x :: x in es && EdgeLabel(g, x).topology == t
    ensures t in Hashmap(g, es) ==>
      multiset(Hashmap(g, es)[t])[e] == if HasTopology(g, e, t) then multiset(es)[e] else 0
  {
    HashmapBuckets(g, es, t);
    BucketCount(g, es, t, e);
  }

  // ----- choosing a partner corner -----

  predicate Oriented(u: Vertex, es: seq<Edge>)
  {
    forall e :: e in es ==> OtherVertex(u, e).Ok?
  }

  /** `is_edge_choice_suitable`: equal corner sizes, equal per-topology
      counts, different motifs pair by pair, and none of the edges a
      same-topology swap could create already present. */
  predicate Suitable(g: Graph, u0: Vertex, v0: Vertex, e0s: seq<Edge>, e1s: seq<Edge>)
    requires InGraph(g, e0s) && InGraph(g, e1s)
    requires Oriented(u0, e0s) && Oriented(v0, e1s)
  {
    var h0, h1 := Hashmap(g, e0s), Hashmap(g, e1s);
    |e0s| == |e1s|
    && h0.Keys == h1.Keys
    && (forall t :: t in h0 ==> |h0[t]| == |h1[t]|)
    && (forall i :: 0 <= i < |e0s| ==> EdgeLabel(g, e0s[i]).motifId != EdgeLabel(g, e1s[i]).motifId)
    && (forall e0, e1 :: e0 in e0s && e1 in e1s ==> TargetsFree(g, u0, v0, e0, e1))
  }

  /** A same-topology pair whose swap would create no edge already in `g`. */
  predicate TargetsFree(g: Graph, u0: Vertex, v0: Vertex, e0: Edge, e1: Edge)
    requires HasEdge(g, e0.0, e0.1) && HasEdge(g, e1.0, e1.1)
    requires OtherVertex(u0, e0).Ok? && OtherVertex(v0, e1).Ok?
  {
    EdgeLabel(g, e1).topology == EdgeLabel(g, e0).topology ==>
      !HasEdge(g, u0, OtherVertex(v0, e1).value) && !HasEdge(g, v0, OtherVertex(u0, e0).value)
  }

  // ----- excess joint-degree keys -----

  /** A joint-degree vector with its `index` component reduced by one. */
  function Excess(jd: seq<int>, index: nat): (r: seq<int>)
    requires index < |jd|
    ensures |r| == |jd| && r[index] == jd[index] - 1
    ensures forall i :: 0 <= i < |jd| && i != index ==> r[i] == jd[i]
  {
    jd[index := jd[index] - 1]
  }

  predicate HasJointDegrees(g: Graph, us: seq<Vertex>, index: nat)
  {
    forall u :: u in us ==> u in g.jd && index < |g.jd[u]|
  }

  /** `get_joint_excess_degree_key`: the excess vectors of both endpoints,
      concatenated. A vertex without a joint degree is a KeyError, a vector
      too short for `index` an IndexError; the stored vectors are copied,
      never changed. */
  function JointExcessDegreeKey(g: Graph, e: Edge, index: nat): (r: Result<seq<int>>)
    ensures r.Ok? <==> e.0 in g.jd && e.1 in g.jd && index < |g.jd[e.0]| && index < |g.jd[e.1]|
    ensures r.Err? ==> r.error == (if e.0 in g.jd && e.1 in g.jd then IndexError else KeyError)
    ensures r.Ok? ==> e.0 in g.jd && e.1 in g.jd && |r.value| == |g.jd[e.0]| + |g.jd[e.1]|
  {
    if e.0 !in g.jd || e.1 !in g.jd then Err(KeyError)
    else if index >= |g.jd[e.0]| || index >= |g.jd[e.1]| then Err(IndexError)
    else Ok(Excess(g.jd[e.0], index) + Excess(g.jd[e.1], index))
  }

  /** `get_swapped_joint_excess_degree_key`: the excess vectors of
      [u0, u1, v0, v1] wrapped in a keys view. */
  function SwappedKeys(g: Graph, e0: Edge, e1: Edge, u0: Vertex, v0: Vertex, index: nat): (r: Result<KV.KeysView>)
    ensures r.Ok? ==> |r.value.keys| == 4
  {
    var u1 :- OtherVertex(u0, e0);
    var v1 :- OtherVertex(v0, e1);
    var us := [u0, u1, v0, v1];
    if exists u :: u in us && u !in g.jd then Err(KeyError)
    else if exists u :: u in us && index >= |g.jd[u]| then Err(IndexError)
    else Ok(KV.KeysView([Excess(g.jd[u0], index), Excess(g.jd[u1], index),
                         Excess(g.jd[v0], index), Excess(g.jd[v1], index)]))
  }

  /** The keys view agrees with the per-edge keys: its u0u1 and v0v1 keys
      are those of the two existing edges, and its u0v1 and v0u1 keys are
      those the two proposed edges have (a swap changes no joint degree). */
  lemma SwappedKeysAgree(g: Graph, e0: Edge, e1: Edge, u0: Vertex, v0: Vertex, index: nat)
    requires SwappedKeys(g, e0, e1, u0, v0, index).Ok?
    ensures var v, u1, v1 := SwappedKeys(g, e0, e1, u0, v0, index).value,
                             OtherVertex(u0, e0).value, OtherVertex(v0, e1).value;
      JointExcessDegreeKey(g, (u0, u1), index) == Ok(KV.U0U1(v))
      && JointExcessDegreeKey(g, (v0, v1), index) == Ok(KV.V0V1(v))
      && JointExcessDegreeKey(g, (u0, v1), index) == Ok(KV.U0V1(v))
      && JointExcessDegreeKey(g, (v0, u1), index) == Ok(KV.V0U1(v))
  {
    var u1, v1 := OtherVertex(u0, e0).value, OtherVertex(v0, e1).value;
    var us := [u0, u1, v0, v1];
    assert u0 in us && u1 in us && v0 in us && v1 in us;
  }

  // ----- the accept step as a function of the graph -----

  /** Inserting the proposals in order; an already present edge is an
      error. */
  function InsertProposals(g: Graph, ps: seq<ProposalEdge>): Result<Graph>
  {
    if ps == [] then Ok(g)
    else
      var g' :- InsertProposals(g, ps[..|ps| - 1]);
      var p := ps[|ps| - 1];
      if HasEdge(g', p.newEdge.0, p.newEdge.1) then Err(RewiringError)
      else Ok(AddEdge(g', p.newEdge, ProposalLabel(p)))
  }

  /** Removing the edges in order; a missing edge is a NetworkXError. */
  function RemoveEdges(g: Graph, os: seq<Edge>): Result<Graph>
  {
    if os == [] then Ok(g)
    else
      var g' :- RemoveEdges(g, os[..|os| - 1]);
      RemoveEdge(g', os[|os| - 1])
  }

  /** The edges the accept step removes, in removal order: the zipped
      corners e0, e1, e0', e1', ... */
  function Originals(e0s: seq<Edge>, e1s: seq<Edge>): seq<Edge>
  {
    Interleave(Zip(e0s, e1s))
  }

  /** The accept step of `rewire`: insert every proposal, remove every
      zipped original, then insist that the edge count is `n`. */
  function AcceptSpec(g: Graph, ps: seq<ProposalEdge>, e0s: seq<Edge>, e1s: seq<Edge>, n: nat): Result<Graph>
  {
    var g1 :- InsertProposals(g, ps);
    var g2 :- RemoveEdges(g1, Originals(e0s, e1s));
    if NumberOfEdges(g2) != n then Err(RewiringError) else Ok(g2)
  }

  // ----- what the accept step adds and removes -----

  function EdgeEnds(e: Edge): multiset<Vertex>
  {
    multiset{e.0, e.1}
  }

  function ProposalEnds(p: ProposalEdge): multiset<Vertex>
  {
    multiset{p.newEdge.0, p.newEdge.1}
  }

  function ProposalLabelBag(p: ProposalEdge): multiset<Label>
  {
    multiset{ProposalLabel(p)}
  }

  function LabelIn(g: Graph): Edge -> multiset<Label>
  {
    (e: Edge) => if HasEdge(g, e.0, e.1) then multiset{g.edges[Sorted(e)]} else multiset{}
  }

  predicate Fresh(g: Graph, ps: seq<ProposalEdge>)
  {
    (forall i :: 0 <= i < |ps| ==> !HasEdge(g, ps[i].newEdge.0, ps[i].newEdge.1))
    && (forall i, j :: 0 <= i < j < |ps| ==> Sorted(ps[i].newEdge) != Sorted(ps[j].newEdge))
  }

  predicate Present(g: Graph, os: seq<Edge>)
  {
    (forall i :: 0 <= i < |os| ==> HasEdge(g, os[i].0, os[i].1))
    && (forall i, j :: 0 <= i < j < |os| ==> Sorted(os[i]) != Sorted(os[j]))
  }

  /** Insertion succeeds exactly when the proposals are new to the graph
      and to each other; it then keeps every existing edge with its label
      and adds exactly the proposed edges. */
  lemma {:induction false} InsertProposalsShape(g: Graph, ps: seq<ProposalEdge>)
    requires Canonical(g)
    ensures InsertProposals(g, ps).Ok? <==> Fresh(g, ps)
    ensures InsertProposals(g, ps).Ok? ==>
      var g' := InsertProposals(g, ps).value;
      g'.jd == g.jd
      && (forall e :: e in g.edges ==> e in g'.edges && g'.edges[e] == g.edges[e])
      && (forall e :: e in g'.edges <==> e in g.edges || exists i :: 0 <= i < |ps| && Sorted(ps[i].newEdge) == e)
  {
    if ps != [] {
      var ps' := ps[..|ps| - 1];
      var p := ps[|ps| - 1];
      InsertProposalsShape(g, ps');
      if InsertProposals(g, ps').Ok? {
        var g' := InsertProposals(g, ps').value;
        if !HasEdge(g', p.newEdge.0, p.newEdge.1) {
          InsertOneMore(g, g', ps);
        } else if Fresh(g, ps) {
          FreshPrefix(g, ps);
          assert false;
        }
      } else if Fresh(g, ps) {
        FreshPrefix(g, ps);
        assert false;
      }
    }
  }

  lemma FreshPrefix(g: Graph, ps: seq<ProposalEdge>)
    requires ps != [] && Fresh(g, ps)
    ensures Fresh(g, ps[..|ps| - 1])
  {
    var ps' := ps[..|ps| - 1];
    assert forall i :: 0 <= i < |ps'| ==> ps'[i] == ps[i];
  }

  /** One more proposal, absent from the graph built so far, extends a
      successful insertion. */
  lemma InsertOneMore(g: Graph, g': Graph, ps: seq<ProposalEdge>)
    requires ps != []
    requires var ps' := ps[..|ps| - 1];
      Fresh(g, ps') && InsertProposals(g, ps') == Ok(g') && g'.jd == g.jd
      && (forall e :: e in g.edges ==> e in g'.edges && g'.edges[e] == g.edges[e])
      && (forall e :: e in g'.edges <==> e in g.edges || exists i :: 0 <= i < |ps'| && Sorted(ps'[i].newEdge) == e)
    requires !HasEdge(g', ps[|ps| - 1].newEdge.0, ps[|ps| - 1].newEdge.1)
    ensures InsertProposals(g, ps) == Ok(AddEdge(g', ps[|ps| - 1].newEdge, ProposalLabel(ps[|ps| - 1])))
    ensures Fresh(g, ps)
    ensures var g'' := AddEdge(g', ps[|ps| - 1].newEdge, ProposalLabel(ps[|ps| - 1]));
      (forall e :: e in g.edges ==> e in g''.edges && g''.edges[e] == g.edges[e])
      && (forall e :: e in g''.edges <==> e in g.edges || exists i :: 0 <= i < |ps| && Sorted(ps[i].newEdge) == e)
  {
    var ps' := ps[..|ps| - 1];
    var p := ps[|ps| - 1];
    var g'' := AddEdge(g', p.newEdge, ProposalLabel(p));
    forall e ensures e in g''.edges <==> e in g.edges || exists i :: 0 <= i < |ps| && Sorted(ps[i].newEdge) == e {
      ProposedSplit(ps, ps', e);
    }
    FreshExtend(g, g', ps);
  }

  /** An edge is proposed by ps exactly when the earlier proposals or the
      last one propose it. */
  lemma ProposedSplit(ps: seq<ProposalEdge>, ps': seq<ProposalEdge>, e: Edge)
    requires ps != [] && ps' == ps[..|ps| - 1]
    ensures (exists i :: 0 <= i < |ps| && Sorted(ps[i].newEdge) == e)
      <==> (exists i :: 0 <= i < |ps'| && Sorted(ps'[i].newEdge) == e) || Sorted(ps[|ps| - 1].newEdge) == e
  {
    if exists i :: 0 <= i < |ps| && Sorted(ps[i].newEdge) == e {
      var i :| 0 <= i < |ps| && Sorted(ps[i].newEdge) == e;
      if i < |ps'| {
        assert ps'[i] == ps[i];
      }
    }
    if exists i :: 0 <= i < |ps'| && Sorted(ps'[i].newEdge) == e {
      var i :| 0 <= i < |ps'| && Sorted(ps'[i].newEdge) == e;
      assert ps'[i] == ps[i];
    }
  }

  lemma FreshExtend(g: Graph, g': Graph, ps: seq<ProposalEdge>)
    requires ps != []
    requires var ps' := ps[..|ps| - 1];
      Fresh(g, ps')
      && (forall e :: e in g.edges ==> e in g'.edges)
      && (forall i :: 0 <= i < |ps'| ==> Sorted(ps'[i].newEdge) in g'.edges)
    requires !HasEdge(g', ps[|ps| - 1].newEdge.0, ps[|ps| - 1].newEdge.1)
    ensures Fresh(g, ps)
  {
    var ps' := ps[..|ps| - 1];
    forall i | 0 <= i < |ps| ensures !HasEdge(g, ps[i].newEdge.0, ps[i].newEdge.1) {
      if i < |ps'| {
        assert ps[i] == ps'[i];
      }
    }
    forall i, j | 0 <= i < j < |ps| ensures Sorted(ps[i].newEdge) != Sorted(ps[j].newEdge) {
      assert ps[i] == ps'[i];
      if j < |ps'| {
        assert ps[j] == ps'[j];
      }
    }
  }

  /** A successful insertion adds one edge per proposal, with its
      endpoints and its labels. */
  lemma InsertProposalsBags(g: Graph, ps: seq<ProposalEdge>)
    requires Canonical(g) && InsertProposals(g, ps).Ok?
    ensures var g' := InsertProposals(g, ps).value;
      Canonical(g')
      && NumberOfEdges(g') == NumberOfEdges(g) + |ps|
      && Endpoints(g') == Endpoints(g) + SeqBag(ps, ProposalEnds)
      && Labels(g') == Labels(g) + SeqBag(ps, ProposalLabelBag)
  {
    InsertProposalsCount(g, ps);
    InsertProposalsEnds(g, ps);
    InsertProposalsLabels(g, ps);
  }

  lemma {:induction false} InsertProposalsCount(g: Graph, ps: seq<ProposalEdge>)
    requires Canonical(g) && InsertProposals(g, ps).Ok?
    ensures var g' := InsertProposals(g, ps).value;
      Canonical(g') && NumberOfEdges(g') == NumberOfEdges(g) + |ps|
  {
    if ps != [] {
      InsertProposalsCount(g, ps[..|ps| - 1]);
      InsertLastBags(g, ps);
    }
  }

  lemma {:induction false} InsertProposalsEnds(g: Graph, ps: seq<ProposalEdge>)
    requires Canonical(g) && InsertProposals(g, ps).Ok?
    ensures Endpoints(InsertProposals(g, ps).value) == Endpoints(g) + SeqBag(ps, ProposalEnds)
  {
    if ps != [] {
      InsertProposalsEnds(g, ps[..|ps| - 1]);
      InsertProposalsCount(g, ps[..|ps| - 1]);
      InsertLastBags(g, ps);
      SeqBagLast(ps, ProposalEnds);
    }
  }

  lemma {:induction false} InsertProposalsLabels(g: Graph, ps: seq<ProposalEdge>)
    requires Canonical(g) && InsertProposals(g, ps).Ok?
    ensures Labels(InsertProposals(g, ps).value) == Labels(g) + SeqBag(ps, ProposalLabelBag)
  {
    if ps != [] {
      InsertProposalsLabels(g, ps[..|ps| - 1]);
      InsertProposalsCount(g, ps[..|ps| - 1]);
      InsertLastBags(g, ps);
      SeqBagLast(ps, ProposalLabelBag);
    }
  }

  /** The last insertion of a successful `InsertProposals`. */
  lemma InsertLastBags(g: Graph, ps: seq<ProposalEdge>)
    requires ps != [] && InsertProposals(g, ps).Ok?
    requires Canonical(InsertProposals(g, ps[..|ps| - 1]).value)
    ensures var ps', p := ps[..|ps| - 1], ps[|ps| - 1];
      var a, b := InsertProposals(g, ps').value, InsertProposals(g, ps).value;
      Canonical(b)
      && NumberOfEdges(b) == NumberOfEdges(a) + 1
      && Endpoints(b) == Endpoints(a) + ProposalEnds(p)
      && Labels(b) == Labels(a) + ProposalLabelBag(p)
  {
    var ps', p := ps[..|ps| - 1], ps[|ps| - 1];
    var g' := InsertProposals(g, ps').value;
    AddEdgeEffect(g', p.newEdge, ProposalLabel(p));
  }

  /** Removal succeeds exactly when every edge is present and none is
      listed twice; it then keeps the other edges with their labels. */
  lemma {:induction false} RemoveEdgesShape(g: Graph, os: seq<Edge>)
    requires Canonical(g)
    ensures RemoveEdges(g, os).Ok? <==> Present(g, os)
    ensures RemoveEdges(g, os).Ok? ==> RemovedFrom(g, os, RemoveEdges(g, os).value)
  {
    if os != [] {
      var os' := os[..|os| - 1];
      var o := os[|os| - 1];
      RemoveEdgesShape(g, os');
      if RemoveEdges(g, os').Ok? {
        var g' := RemoveEdges(g, os').value;
        if HasEdge(g', o.0, o.1) {
          RemoveOneMore(g, g', os);
        } else {
          RemoveMissing(g, g', os);
        }
      } else if Present(g, os) {
        PresentPrefix(g, os);
        assert false;
      }
    }
  }

  /** What a successful removal of os leaves of g: the other edges with
      their labels, and none of the listed ones. */
  ghost predicate RemovedFrom(g: Graph, os: seq<Edge>, g': Graph)
  {
    Canonical(g') && g'.jd == g.jd
    && (forall e :: e in g'.edges ==> e in g.edges && g'.edges[e] == g.edges[e])
    && (forall e :: e in g.edges ==> e in g'.edges || exists i :: 0 <= i < |os| && Sorted(os[i]) == e)
    && (forall i :: 0 <= i < |os| ==> !HasEdge(g', os[i].0, os[i].1))
  }

  lemma PresentPrefix(g: Graph, os: seq<Edge>)
    requires os != [] && Present(g, os)
    ensures Present(g, os[..|os| - 1])
  {
    var os' := os[..|os| - 1];
    assert forall i :: 0 <= i < |os'| ==> os'[i] == os[i];
  }

  /** One more edge, still in the graph removed so far, extends a
      successful removal. */
  lemma RemoveOneMore(g: Graph, g': Graph, os: seq<Edge>)
    requires os != [] && Canonical(g)
    requires var os' := os[..|os| - 1];
      Present(g, os') && RemoveEdges(g, os') == Ok(g') && RemovedFrom(g, os', g')
    requires HasEdge(g', os[|os| - 1].0, os[|os| - 1].1)
    ensures RemoveEdges(g, os).Ok? && Present(g, os) && RemovedFrom(g, os, RemoveEdges(g, os).value)
  {
    var os', o := os[..|os| - 1], os[|os| - 1];
    var g'' := RemoveEdge(g', o).value;
    assert RemoveEdges(g, os) == Ok(g'');
    PresentExtend(g, g', os);
    forall i | 0 <= i < |os| ensures !HasEdge(g'', os[i].0, os[i].1) {
      if i < |os| - 1 {
        assert os[i] == os'[i];
      }
    }
    forall e | e in g.edges ensures e in g''.edges || exists i :: 0 <= i < |os| && Sorted(os[i]) == e {
      ListedSplit(os, os', e);
    }
  }

  /** The listed edges stay distinct and present when the last one is still
      in the graph the earlier removals leave. */
  lemma PresentExtend(g: Graph, g': Graph, os: seq<Edge>)
    requires os != []
    requires var os' := os[..|os| - 1]; Present(g, os') && RemovedFrom(g, os', g')
    requires HasEdge(g', os[|os| - 1].0, os[|os| - 1].1)
    ensures Present(g, os)
  {
    var os' := os[..|os| - 1];
    forall i, j | 0 <= i < j < |os| ensures Sorted(os[i]) != Sorted(os[j]) {
      if j < |os| - 1 {
        assert os[i] == os'[i] && os[j] == os'[j];
      } else {
        assert os[i] == os'[i];
      }
    }
    forall i | 0 <= i < |os| ensures HasEdge(g, os[i].0, os[i].1) {
      if i < |os| - 1 {
        assert os[i] == os'[i];
      }
    }
  }

  /** An edge is listed in os exactly when the earlier entries or the last
      one list it. */
  lemma ListedSplit(os: seq<Edge>, os': seq<Edge>, e: Edge)
    requires os != [] && os' == os[..|os| - 1]
    ensures (exists i :: 0 <= i < |os| && Sorted(os[i]) == e)
      <==> (exists i :: 0 <= i < |os'| && Sorted(os'[i]) == e) || Sorted(os[|os| - 1]) == e
  {
    if exists i :: 0 <= i < |os| && Sorted(os[i]) == e {
      var i :| 0 <= i < |os| && Sorted(os[i]) == e;
      if i < |os'| {
        assert os'[i] == os[i];
      }
    }
    if exists i :: 0 <= i < |os'| && Sorted(os'[i]) == e {
      var i :| 0 <= i < |os'| && Sorted(os'[i]) == e;
      assert os'[i] == os[i];
    }
  }

  /** An edge that is gone after the earlier removals makes the list not
      present: it was never there, or it was listed twice. */
  lemma RemoveMissing(g: Graph, g': Graph, os: seq<Edge>)
    requires os != []
    requires var os' := os[..|os| - 1]; RemoveEdges(g, os') == Ok(g') && RemovedFrom(g, os', g')
    requires !HasEdge(g', os[|os| - 1].0, os[|os| - 1].1)
    ensures RemoveEdges(g, os).Err? && !Present(g, os)
  {
    var os', o := os[..|os| - 1], os[|os| - 1];
    if HasEdge(g, o.0, o.1) {
      var i :| 0 <= i < |os'| && Sorted(os'[i]) == Sorted(o);
      assert os[i] == os'[i];
    }
  }

  /** A successful removal takes away one edge per listed edge, with its
      endpoints and its labels. */
  lemma RemoveEdgesBags(g: Graph, os: seq<Edge>)
    requires Canonical(g) && RemoveEdges(g, os).Ok?
    ensures var g' := RemoveEdges(g, os).value;
      NumberOfEdges(g') + |os| == NumberOfEdges(g)
      && Endpoints(g) == Endpoints(g') + SeqBag(os, EdgeEnds)
      && Labels(g) == Labels(g') + SeqBag(os, LabelIn(g))
  {
    RemoveEdgesCount(g, os);
    RemoveEdgesEnds(g, os);
    RemoveEdgesLabels(g, os);
  }

  lemma {:induction false} RemoveEdgesCount(g: Graph, os: seq<Edge>)
    requires Canonical(g) && RemoveEdges(g, os).Ok?
    ensures NumberOfEdges(RemoveEdges(g, os).value) + |os| == NumberOfEdges(g)
  {
    if os != [] {
      RemoveLastBags(g, os);
      RemoveEdgesCount(g, os[..|os| - 1]);
    }
  }

  lemma {:induction false} RemoveEdgesEnds(g: Graph, os: seq<Edge>)
    requires Canonical(g) && RemoveEdges(g, os).Ok?
    ensures Endpoints(g) == Endpoints(RemoveEdges(g, os).value) + SeqBag(os, EdgeEnds)
  {
    if os != [] {
      RemoveLastBags(g, os);
      RemoveEdgesEnds(g, os[..|os| - 1]);
      SeqBagLast(os, EdgeEnds);
    }
  }

  lemma {:induction false} RemoveEdgesLabels(g: Graph, os: seq<Edge>)
    requires Canonical(g) && RemoveEdges(g, os).Ok?
    ensures Labels(g) == Labels(RemoveEdges(g, os).value) + SeqBag(os, LabelIn(g))
  {
    if os != [] {
      RemoveLastBags(g, os);
      RemoveEdgesLabels(g, os[..|os| - 1]);
      SeqBagLast(os, LabelIn(g));
    }
  }

  /** The last removal of a successful `RemoveEdges`. */
  lemma RemoveLastBags(g: Graph, os: seq<Edge>)
    requires Canonical(g) && os != [] && RemoveEdges(g, os).Ok?
    ensures var os', o := os[..|os| - 1], os[|os| - 1];
      RemoveEdges(g, os').Ok? &&
      var a, b := RemoveEdges(g, os').value, RemoveEdges(g, os).value;
      NumberOfEdges(b) + 1 == NumberOfEdges(a)
      && Endpoints(a) == Endpoints(b) + EdgeEnds(o)
      && Labels(a) == Labels(b) + LabelIn(g)(o)
  {
    var os', o := os[..|os| - 1], os[|os| - 1];
    RemoveEdgesShape(g, os');
    var g' := RemoveEdges(g, os').value;
    RemoveEdgeEffect(g', o);
    assert LabelIn(g)(o) == multiset{EdgeLabel(g', o)};
  }

  // ----- the proposals of a pairing -----

  /** Each pair (e0, e1) is a u-corner edge and a v-corner edge that
      `swap_condition` matched; both are edges of g, oriented away from u0
      and v0 respectively. */
  predicate PairsOk(g: Graph, u0: Vertex, v0: Vertex, pairs: seq<(Edge, Edge)>)
  {
    forall i :: 0 <= i < |pairs| ==>
      HasEdge(g, pairs[i].0.0, pairs[i].0.1) && HasEdge(g, pairs[i].1.0, pairs[i].1.1)
      && OtherVertex(u0, pairs[i].0).Ok? && OtherVertex(v0, pairs[i].1).Ok?
  }

  /** The two calls of `append_proposal_edges` for one pair: (u0, v1) with
      the labels of e0, then (v0, u1) with the labels of e1. */
  function ProposalPair(g: Graph, u0: Vertex, v0: Vertex, pr: (Edge, Edge)): (r: (ProposalEdge, ProposalEdge))
    requires HasEdge(g, pr.0.0, pr.0.1) && HasEdge(g, pr.1.0, pr.1.1)
    requires OtherVertex(u0, pr.0).Ok? && OtherVertex(v0, pr.1).Ok?
    ensures ProposalLabel(r.0) == EdgeLabel(g, pr.0) && ProposalLabel(r.1) == EdgeLabel(g, pr.1)
    ensures r.0.newEdge == (u0, OtherVertex(v0, pr.1).value)
    ensures r.1.newEdge == (v0, OtherVertex(u0, pr.0).value)
  {
    var l0, l1 := EdgeLabel(g, pr.0), EdgeLabel(g, pr.1);
    (ProposalEdge(l0.topology, l0.motifId, (u0, OtherVertex(v0, pr.1).value)),
     ProposalEdge(l1.topology, l1.motifId, (v0, OtherVertex(u0, pr.0).value)))
  }

  /** `self._proposal_edges` after the numerator loop has handled `pairs`. */
  function Proposals(g: Graph, u0: Vertex, v0: Vertex, pairs: seq<(Edge, Edge)>): (ps: seq<ProposalEdge>)
    requires PairsOk(g, u0, v0, pairs)
    ensures |ps| == 2 * |pairs|
  {
    Interleave(seq(|pairs|, i requires 0 <= i < |pairs| => ProposalPair(g, u0, v0, pairs[i])))
  }

  lemma ProposalAt(g: Graph, u0: Vertex, v0: Vertex, pairs: seq<(Edge, Edge)>, k: nat)
    requires PairsOk(g, u0, v0, pairs) && k < 2 * |pairs|
    ensures var pr := pairs[k / 2];
      Proposals(g, u0, v0, pairs)[k]
        == if k % 2 == 0 then ProposalPair(g, u0, v0, pr).0 else ProposalPair(g, u0, v0, pr).1
  {
    InterleaveAt(seq(|pairs|, i requires 0 <= i < |pairs| => ProposalPair(g, u0, v0, pairs[i])), k);
  }

  /** The proposals of a pairing carry exactly the endpoints and the labels
      of the pairs they replace: u0 trades u1 for v1 and v0 trades v1 for
      u1, and each new edge takes the labels of one old edge. */
  lemma ProposalBags(g: Graph, u0: Vertex, v0: Vertex, pairs: seq<(Edge, Edge)>)
    requires PairsOk(g, u0, v0, pairs)
    ensures SeqBag(Proposals(g, u0, v0, pairs), ProposalEnds)
            == SeqBag(Firsts(pairs), EdgeEnds) + SeqBag(Seconds(pairs), EdgeEnds)
    ensures SeqBag(Proposals(g, u0, v0, pairs), ProposalLabelBag)
            == SeqBag(Firsts(pairs), LabelIn(g)) + SeqBag(Seconds(pairs), LabelIn(g))
  {
    var pp := seq(|pairs|, i requires 0 <= i < |pairs| => ProposalPair(g, u0, v0, pairs[i]));
    InterleaveBag(pp, ProposalEnds);
    InterleaveBag(pp, ProposalLabelBag);
    forall i | 0 <= i < |pp|
      ensures ProposalEnds(pp[i].0) + ProposalEnds(pp[i].1) == EdgeEnds(pairs[i].0) + EdgeEnds(pairs[i].1)
      ensures ProposalLabelBag(pp[i].0) + ProposalLabelBag(pp[i].1) == LabelIn(g)(pairs[i].0) + LabelIn(g)(pairs[i].1)
    {
      ProposalPairBags(g, u0, v0, pairs[i]);
    }
    PairwiseBag(pp, pairs, ProposalEnds, EdgeEnds);
    PairwiseBag(pp, pairs, ProposalLabelBag, LabelIn(g));
  }

  lemma ProposalPairBags(g: Graph, u0: Vertex, v0: Vertex, pr: (Edge, Edge))
    requires HasEdge(g, pr.0.0, pr.0.1) && HasEdge(g, pr.1.0, pr.1.1)
    requires OtherVertex(u0, pr.0).Ok? && OtherVertex(v0, pr.1).Ok?
    ensures var pp := ProposalPair(g, u0, v0, pr);
      ProposalEnds(pp.0) + ProposalEnds(pp.1) == EdgeEnds(pr.0) + EdgeEnds(pr.1)
      && ProposalLabelBag(pp.0) + ProposalLabelBag(pp.1) == LabelIn(g)(pr.0) + LabelIn(g)(pr.1)
  {
    var u1, v1 := OtherVertex(u0, pr.0).value, OtherVertex(v0, pr.1).value;
    OtherVertexEnds(u0, pr.0);
    OtherVertexEnds(v0, pr.1);
    assert EdgeEnds(pr.0) == multiset{u0, u1};
    assert EdgeEnds(pr.1) == multiset{v0, v1};
  }

  /** Labels looked up in a graph that agrees with g on g's edges. */
  lemma {:induction false} LabelsInAgree(g: Graph, g1: Graph, os: seq<Edge>)
    requires InGraph(g, os)
    requires forall e :: e in g.edges ==> e in g1.edges && g1.edges[e] == g.edges[e]
    ensures SeqBag(os, LabelIn(g1)) == SeqBag(os, LabelIn(g))
  {
    if os != [] {
      assert os[|os| - 1] in os;
      assert forall x :: x in os[..|os| - 1] ==> x in os;
      LabelsInAgree(g, g1, os[..|os| - 1]);
    }
  }

  /** The originals carry the endpoints and labels of both corner lists. */
  lemma OriginalsBag<X>(e0s: seq<Edge>, e1s: seq<Edge>, f: Edge -> multiset<X>)
    requires |e0s| == |e1s|
    ensures SeqBag(Originals(e0s, e1s), f) == SeqBag(e0s, f) + SeqBag(e1s, f)
  {
    InterleaveBag(Zip(e0s, e1s), f);
    ZipHalves(e0s, e1s);
  }

  /** A pairing as `swap_condition` builds it: every u-corner edge in order,
      each with a v-corner edge of the same topology, using up the
      v-corner. */
  predicate Pairing(g: Graph, u0: Vertex, v0: Vertex, e0s: seq<Edge>, e1s: seq<Edge>, pairs: seq<(Edge, Edge)>)
  {
    PairsOk(g, u0, v0, pairs)
    && Firsts(pairs) == e0s && multiset(Seconds(pairs)) == multiset(e1s)
    && forall i :: 0 <= i < |pairs| ==> EdgeLabel(g, pairs[i].0).topology == EdgeLabel(g, pairs[i].1).topology
  }

  /** A swap that goes through preserves everything the model is meant to
      preserve: the number of edges, every vertex's degree (with self-loops
      counted twice), the multiset of (topology, motif id) labels, and the
      joint-degree vectors. */
  lemma AcceptPreserves(g: Graph, u0: Vertex, v0: Vertex, e0s: seq<Edge>, e1s: seq<Edge>, pairs: seq<(Edge, Edge)>)
    requires Canonical(g) && InGraph(g, e0s) && InGraph(g, e1s)
    requires Pairing(g, u0, v0, e0s, e1s, pairs) && |e0s| == |e1s|
    requires AcceptSpec(g, Proposals(g, u0, v0, pairs), e0s, e1s, NumberOfEdges(g)).Ok?
    ensures var g2 := AcceptSpec(g, Proposals(g, u0, v0, pairs), e0s, e1s, NumberOfEdges(g)).value;
      Canonical(g2) && g2.jd == g.jd
      && NumberOfEdges(g2) == NumberOfEdges(g)
      && Endpoints(g2) == Endpoints(g)
      && Labels(g2) == Labels(g)
      && (forall u :: Degree(g2, u) == Degree(g, u))
  {
    var ps := Proposals(g, u0, v0, pairs);
    var os := Originals(e0s, e1s);
    var g1 := InsertProposals(g, ps).value;
    var g2 := RemoveEdges(g1, os).value;
    InsertProposalsShape(g, ps);
    InsertProposalsBags(g, ps);
    RemoveEdgesShape(g1, os);
    RemoveEdgesBags(g1, os);
    SwapBalance(g, g1, u0, v0, e0s, e1s, pairs);
    MultisetCancel(Endpoints(g2), Endpoints(g), SeqBag(os, EdgeEnds));
    MultisetCancel(Labels(g2), Labels(g), SeqBag(os, LabelIn(g1)));
  }

  /** What the proposals add is what the originals take away. */
  lemma SwapBalance(g: Graph, g1: Graph, u0: Vertex, v0: Vertex, e0s: seq<Edge>, e1s: seq<Edge>, pairs: seq<(Edge, Edge)>)
    requires InGraph(g, e0s) && InGraph(g, e1s)
    requires Pairing(g, u0, v0, e0s, e1s, pairs) && |e0s| == |e1s|
    requires forall e :: e in g.edges ==> e in g1.edges && g1.edges[e] == g.edges[e]
    ensures SeqBag(Proposals(g, u0, v0, pairs), ProposalEnds) == SeqBag(Originals(e0s, e1s), EdgeEnds)
    ensures SeqBag(Proposals(g, u0, v0, pairs), ProposalLabelBag) == SeqBag(Originals(e0s, e1s), LabelIn(g1))
  {
    ProposalBags(g, u0, v0, pairs);
    OriginalsBag(e0s, e1s, EdgeEnds);
    OriginalsBag(e0s, e1s, LabelIn(g1));
    LabelsInAgree(g, g1, e0s);
    LabelsInAgree(g, g1, e1s);
    SeqBagPermutation(Seconds(pairs), e1s, EdgeEnds);
    SeqBagPermutation(Seconds(pairs), e1s, LabelIn(g));
  }

  // ----- when the accept step succeeds -----

  /** The corners `rewire` hands over: each list without duplicates, all
      edges at its focal vertex and inside one motif. */
  predicate Corners(g: Graph, u0: Vertex, v0: Vertex, m0: int, m1: int, e0s: seq<Edge>, e1s: seq<Edge>)
  {
    NoDuplicates(e0s) && NoDuplicates(e1s)
    && (forall e :: e in e0s ==> IsCorner(g, u0, m0, e))
    && (forall e :: e in e1s ==> IsCorner(g, v0, m1, e))
  }

  lemma ProposalEdgeAt(g: Graph, u0: Vertex, v0: Vertex, m0: int, m1: int, e0s: seq<Edge>, e1s: seq<Edge>,
                       pairs: seq<(Edge, Edge)>, k: nat)
    requires Corners(g, u0, v0, m0, m1, e0s, e1s) && Pairing(g, u0, v0, e0s, e1s, pairs)
    requires k < 2 * |pairs|
    ensures pairs[k / 2].0 == e0s[k / 2] && pairs[k / 2].1 in e1s
    ensures pairs[k / 2].0.0 == u0 && pairs[k / 2].1.0 == v0
    ensures Proposals(g, u0, v0, pairs)[k].newEdge
            == if k % 2 == 0 then (u0, pairs[k / 2].1.1) else (v0, pairs[k / 2].0.1)
  {
    ProposalAt(g, u0, v0, pairs, k);
    var pr := pairs[k / 2];
    assert pr.0 == Firsts(pairs)[k / 2];
    assert pr.0 in e0s;
    assert IsCorner(g, u0, m0, pr.0);
    assert pr.1 == Seconds(pairs)[k / 2];
    assert pr.1 in multiset(e1s);
    assert IsCorner(g, v0, m1, pr.1);
  }

  /** With suitable corners the proposals are new: absent from the graph
      and pairwise different. Self-loops must be absent: an existing loop
      (u0, u0) could coincide with a proposed edge. */
  lemma ProposalsFresh(g: Graph, u0: Vertex, v0: Vertex, m0: int, m1: int, e0s: seq<Edge>, e1s: seq<Edge>,
                       pairs: seq<(Edge, Edge)>)
    requires LoopFree(g) && Corners(g, u0, v0, m0, m1, e0s, e1s)
    requires Suitable(g, u0, v0, e0s, e1s) && Pairing(g, u0, v0, e0s, e1s, pairs)
    ensures Fresh(g, Proposals(g, u0, v0, pairs))
  {
    var ps := Proposals(g, u0, v0, pairs);
    forall k | 0 <= k < |ps| ensures !HasEdge(g, ps[k].newEdge.0, ps[k].newEdge.1) {
      ProposalAbsent(g, u0, v0, m0, m1, e0s, e1s, pairs, k);
    }
    NoDuplicatesPermutation(e1s, Seconds(pairs));
    forall a, b | 0 <= a < b < |ps| ensures Sorted(ps[a].newEdge) != Sorted(ps[b].newEdge) {
      ProposalsDiffer(g, u0, v0, m0, m1, e0s, e1s, pairs, a, b);
    }
  }

  lemma ProposalAbsent(g: Graph, u0: Vertex, v0: Vertex, m0: int, m1: int, e0s: seq<Edge>, e1s: seq<Edge>,
                       pairs: seq<(Edge, Edge)>, k: nat)
    requires Corners(g, u0, v0, m0, m1, e0s, e1s)
    requires Suitable(g, u0, v0, e0s, e1s) && Pairing(g, u0, v0, e0s, e1s, pairs)
    requires k < 2 * |pairs|
    ensures var e := Proposals(g, u0, v0, pairs)[k].newEdge; !HasEdge(g, e.0, e.1)
  {
    ProposalEdgeAt(g, u0, v0, m0, m1, e0s, e1s, pairs, k);
    var pr := pairs[k / 2];
    assert EdgeLabel(g, pr.0).topology == EdgeLabel(g, pr.1).topology;
    assert TargetsFree(g, u0, v0, pr.0, pr.1);
    assert !HasEdge(g, u0, OtherVertex(v0, pr.1).value) && !HasEdge(g, v0, OtherVertex(u0, pr.0).value);
  }

  lemma ProposalsDiffer(g: Graph, u0: Vertex, v0: Vertex, m0: int, m1: int, e0s: seq<Edge>, e1s: seq<Edge>,
                        pairs: seq<(Edge, Edge)>, a: nat, b: nat)
    requires LoopFree(g) && Corners(g, u0, v0, m0, m1, e0s, e1s)
    requires Suitable(g, u0, v0, e0s, e1s) && Pairing(g, u0, v0, e0s, e1s, pairs)
    requires NoDuplicates(Seconds(pairs))
    requires a < b < 2 * |pairs|
    ensures Sorted(Proposals(g, u0, v0, pairs)[a].newEdge) != Sorted(Proposals(g, u0, v0, pairs)[b].newEdge)
  {
    var ps := Proposals(g, u0, v0, pairs);
    ProposalEdgeAt(g, u0, v0, m0, m1, e0s, e1s, pairs, a);
    ProposalEdgeAt(g, u0, v0, m0, m1, e0s, e1s, pairs, b);
    var i, j := a / 2, b / 2;
    if a % 2 == b % 2 {
      assert i != j;
      if a % 2 == 0 {
        SortedSameFirst(u0, pairs[i].1.1, pairs[j].1.1);
        assert Seconds(pairs)[i] != Seconds(pairs)[j];
      } else {
        SortedSameFirst(v0, pairs[i].0.1, pairs[j].0.1);
        assert e0s[i] != e0s[j];
      }
    } else {
      var x := if a % 2 == 0 then a else b;
      var y := if a % 2 == 0 then b else a;
      ProposalAbsent(g, u0, v0, m0, m1, e0s, e1s, pairs, x);
      CrossProposalsDiffer(g, u0, v0, pairs[x / 2].1, pairs[y / 2].0);
    }
  }

  /** A proposed (u0, v1) never coincides with a proposed (v0, u1): that
      would need u0 = v0, but (v0, v1) exists while (u0, v1) does not, or a
      self-loop (u0, u0). */
  lemma CrossProposalsDiffer(g: Graph, u0: Vertex, v0: Vertex, e1: Edge, e0: Edge)
    requires LoopFree(g) && HasEdge(g, e0.0, e0.1) && HasEdge(g, e1.0, e1.1)
    requires e0.0 == u0 && e1.0 == v0 && !HasEdge(g, u0, e1.1)
    ensures Sorted((u0, e1.1)) != Sorted((v0, e0.1))
  {
  }

  lemma OriginalAt(e0s: seq<Edge>, e1s: seq<Edge>, k: nat)
    requires |e0s| == |e1s| && k < 2 * |e0s|
    ensures |Originals(e0s, e1s)| == 2 * |e0s|
    ensures Originals(e0s, e1s)[k] == if k % 2 == 0 then e0s[k / 2] else e1s[k / 2]
  {
    InterleaveAt(Zip(e0s, e1s), k);
  }

  /** Two corner edges are different unordered pairs: within a corner
      because the corner has no duplicates, across the corners because the
      two motifs differ. */
  lemma OriginalsDiffer(g: Graph, u0: Vertex, v0: Vertex, m0: int, m1: int, e0s: seq<Edge>, e1s: seq<Edge>, a: nat, b: nat)
    requires Corners(g, u0, v0, m0, m1, e0s, e1s) && |e0s| == |e1s| && m0 != m1
    requires a < b < 2 * |e0s|
    ensures Sorted(Originals(e0s, e1s)[a]) != Sorted(Originals(e0s, e1s)[b])
  {
    OriginalAt(e0s, e1s, a);
    OriginalAt(e0s, e1s, b);
    var i, j := a / 2, b / 2;
    assert e0s[i] in e0s && e0s[j] in e0s && e1s[i] in e1s && e1s[j] in e1s;
    if a % 2 == b % 2 {
      if a % 2 == 0 {
        SortedSameFirst(u0, e0s[i].1, e0s[j].1);
      } else {
        SortedSameFirst(v0, e1s[i].1, e1s[j].1);
      }
    }
  }

  /** With suitable corners every original is an edge of the graph the
      proposals were inserted into, and no edge is listed twice. */
  lemma OriginalsPresent(g: Graph, g1: Graph, u0: Vertex, v0: Vertex, m0: int, m1: int, e0s: seq<Edge>, e1s: seq<Edge>)
    requires Corners(g, u0, v0, m0, m1, e0s, e1s) && Suitable(g, u0, v0, e0s, e1s)
    requires forall e :: e in g.edges ==> e in g1.edges
    ensures Present(g1, Originals(e0s, e1s))
  {
    var os := Originals(e0s, e1s);
    if e0s != [] {
      assert e0s[0] in e0s && e1s[0] in e1s;
      assert m0 != m1;
    }
    forall k | 0 <= k < |os| ensures HasEdge(g1, os[k].0, os[k].1) {
      OriginalAt(e0s, e1s, k);
      assert e0s[k / 2] in e0s && e1s[k / 2] in e1s;
    }
    forall a, b | 0 <= a < b < |os| ensures Sorted(os[a]) != Sorted(os[b]) {
      OriginalsDiffer(g, u0, v0, m0, m1, e0s, e1s, a, b);
    }
  }

  /** With loop-free graph, suitable corners and a pairing as
      `swap_condition` builds it, the accept step cannot fail: no proposal
      is already present, every original can be removed, and the edge count
      comes out unchanged. */
  lemma AcceptSucceeds(g: Graph, u0: Vertex, v0: Vertex, m0: int, m1: int, e0s: seq<Edge>, e1s: seq<Edge>,
                       pairs: seq<(Edge, Edge)>)
    requires Canonical(g) && LoopFree(g) && Corners(g, u0, v0, m0, m1, e0s, e1s)
    requires Suitable(g, u0, v0, e0s, e1s) && Pairing(g, u0, v0, e0s, e1s, pairs)
    ensures AcceptSpec(g, Proposals(g, u0, v0, pairs), e0s, e1s, NumberOfEdges(g)).Ok?
  {
    var ps := Proposals(g, u0, v0, pairs);
    ProposalsFresh(g, u0, v0, m0, m1, e0s, e1s, pairs);
    InsertProposalsShape(g, ps);
    InsertProposalsBags(g, ps);
    var g1 := InsertProposals(g, ps).value;
    var os := Originals(e0s, e1s);
    OriginalsPresent(g, g1, u0, v0, m0, m1, e0s, e1s);
    RemoveEdgesShape(g1, os);
    RemoveEdgesBags(g1, os);
  }

  // ----- `is_edge_choice_suitable` as the source runs it -----

  lemma BucketMembers(g: Graph, s: seq<Edge>, t: string, x: Edge)
    ensures x in Bucket(g, s, t) <==> x in s && HasTopology(g, x, t)
  {
    BucketCount(g, s, t, x);
  }

  /** The checks of `is_edge_choice_suitable` in the source's order: the
      lengths, the topology key sets, the per-topology counts, the zipped
      motif ids, and finally every same-topology combination's target
      edges. */
  method IsEdgeChoiceSuitable(g: Graph, u0: Vertex, v0: Vertex, e0s: seq<Edge>, e1s: seq<Edge>) returns (b: bool)
    requires InGraph(g, e0s) && InGraph(g, e1s)
    requires Oriented(u0, e0s) && Oriented(v0, e1s)
    ensures b == Suitable(g, u0, v0, e0s, e1s)
  {
    if |e0s| != |e1s| {
      return false;
    }
    var h0 := GetHashmap(g, e0s);
    var h1 := GetHashmap(g, e1s);
    if h0.Keys != h1.Keys {
      return false;
    }
    b := BucketSizesAgree(h0, h1);
    if !b {
      return;
    }
    b := MotifsDiffer(g, e0s, e1s);
    if !b {
      return;
    }
    b := TargetsAbsent(g, u0, v0, e0s, e1s, h1);
  }

  /** The per-topology count comparison of `is_edge_choice_suitable`. */
  method BucketSizesAgree(h0: map<string, seq<Edge>>, h1: map<string, seq<Edge>>) returns (b: bool)
    requires h0.Keys == h1.Keys
    ensures b <==> forall t :: t in h0 ==> |h0[t]| == |h1[t]|
  {
    var todo := h0.Keys;
    while todo != {}
      invariant todo <= h0.Keys
      invariant forall t :: t in h0 && t !in todo ==> |h0[t]| == |h1[t]|
      decreases |todo|
    {
      var t :| t in todo;
      if |h0[t]| != |h1[t]| {
        return false;
      }
      todo := todo - {t};
    }
    return true;
  }

  /** The zipped motif-id comparison of `is_edge_choice_suitable`. */
  method MotifsDiffer(g: Graph, e0s: seq<Edge>, e1s: seq<Edge>) returns (b: bool)
    requires InGraph(g, e0s) && InGraph(g, e1s) && |e0s| == |e1s|
    ensures b <==> forall i :: 0 <= i < |e0s| ==> EdgeLabel(g, e0s[i]).motifId != EdgeLabel(g, e1s[i]).motifId
  {
    var i := 0;
    while i < |e0s|
      invariant 0 <= i <= |e0s|
      invariant forall j :: 0 <= j < i ==> EdgeLabel(g, e0s[j]).motifId != EdgeLabel(g, e1s[j]).motifId
    {
      if EdgeLabel(g, e0s[i]).motifId == EdgeLabel(g, e1s[i]).motifId {
        return false;
      }
      i := i + 1;
    }
    return true;
  }

  /** The target-edge test of `is_edge_choice_suitable`: for each edge of
      the first corner, every same-topology edge of the second corner's
      bucket. */
  method TargetsAbsent(g: Graph, u0: Vertex, v0: Vertex, e0s: seq<Edge>, e1s: seq<Edge>, h1: map<string, seq<Edge>>)
    returns (b: bool)
    requires InGraph(g, e0s) && InGraph(g, e1s)
    requires Oriented(u0, e0s) && Oriented(v0, e1s)
    requires forall t :: t in h1 ==> h1[t] == Bucket(g, e1s, t)
    requires forall e0 :: e0 in e0s ==> EdgeLabel(g, e0).topology in h1
    ensures b <==> forall e0, e1 :: e0 in e0s && e1 in e1s ==> TargetsFree(g, u0, v0, e0, e1)
  {
    var i := 0;
    while i < |e0s|
      invariant 0 <= i <= |e0s|
      invariant forall k :: 0 <= k < i ==> AllTargetsFree(g, u0, v0, e0s[k], e1s)
    {
      var ok := TargetsAbsentFor(g, u0, v0, e0s[i], e1s, h1);
      if !ok {
        TargetsFreeEach(g, u0, v0, e0s, e1s);
        return false;
      }
      i := i + 1;
    }
    TargetsFreeEach(g, u0, v0, e0s, e1s);
    return true;
  }

  lemma TargetsFreeEach(g: Graph, u0: Vertex, v0: Vertex, e0s: seq<Edge>, e1s: seq<Edge>)
    requires InGraph(g, e0s) && InGraph(g, e1s)
    requires Oriented(u0, e0s) && Oriented(v0, e1s)
    ensures (forall e0, e1 :: e0 in e0s && e1 in e1s ==> TargetsFree(g, u0, v0, e0, e1))
        <==> forall k :: 0 <= k < |e0s| ==> AllTargetsFree(g, u0, v0, e0s[k], e1s)
  {
  }

  predicate AllTargetsFree(g: Graph, u0: Vertex, v0: Vertex, e0: Edge, e1s: seq<Edge>)
    requires HasEdge(g, e0.0, e0.1) && OtherVertex(u0, e0).Ok?
    requires InGraph(g, e1s) && Oriented(v0, e1s)
  {
    forall e1 :: e1 in e1s ==> TargetsFree(g, u0, v0, e0, e1)
  }

  /** The inner loop of the target-edge test, for one edge `e0` of the
      first corner. */
  method TargetsAbsentFor(g: Graph, u0: Vertex, v0: Vertex, e0: Edge, e1s: seq<Edge>, h1: map<string, seq<Edge>>)
    returns (b: bool)
    requires HasEdge(g, e0.0, e0.1) && OtherVertex(u0, e0).Ok?
    requires InGraph(g, e1s) && Oriented(v0, e1s)
    requires EdgeLabel(g, e0).topology in h1 && h1[EdgeLabel(g, e0).topology] == Bucket(g, e1s, EdgeLabel(g, e0).topology)
    ensures b <==> AllTargetsFree(g, u0, v0, e0, e1s)
  {
    var u1 := OtherVertex(u0, e0).value;
    var topology := EdgeLabel(g, e0).topology;
    var lst := h1[topology];
    forall x | x in lst
      ensures x in e1s && EdgeLabel(g, x).topology == topology
    {
      BucketMembers(g, e1s, topology, x);
    }
    var j := 0;
    while j < |lst|
      invariant 0 <= j <= |lst|
      invariant forall k :: 0 <= k < j ==> TargetsFree(g, u0, v0, e0, lst[k])
    {
      var v1 := OtherVertex(v0, lst[j]).value;
      if HasEdge(g, u0, v1) || HasEdge(g, v0, u1) {
        return false;
      }
      j := j + 1;
    }
    forall e1 | e1 in e1s
      ensures TargetsFree(g, u0, v0, e0, e1)
    {
      BucketMembers(g, e1s, topology, e1);
      if EdgeLabel(g, e1).topology == topology {
        var k :| 0 <= k < |lst| && lst[k] == e1;
      }
    }
    return true;
  }
}
