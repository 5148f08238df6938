// The generalised configuration model: the stub list of every topology is
// shuffled and cut into consecutive groups of the motif size, and a builder
// callback turns each group into the edges of one motif. The networkx
// generator adds those edges to a simple undirected graph, counts the motif
// at each of its vertices and names its edges; the fast generator only
// concatenates the edge lists.

module Gcm {
  import opened Common
  import opened Stubs
  import G = Graphs
  import M = Motifs

  type Edge = G.Edge

  /** A builder callback: the vertices of one motif to its edges. A builder
      may raise, as the diamond builder does on a short list. */
  type Builder = seq<int> -> Result<seq<Edge>>

  /** `motif_sizes`, `build_functions` and `edge_names` (None and the empty
      list both meaning "do not name edges"). */
  datatype Config = Config(motifSizes: seq<nat>, builders: seq<Builder>, edgeNames: seq<string>)

  /** Every motif size is positive, as the clique counts divide by it. */
  predicate PositiveSizes(cfg: Config)
  {
    forall k :: 0 <= k < |cfg.motifSizes| ==> cfg.motifSizes[k] > 0
  }

  /** The generated networkx graph: every undirected edge once, under its
      sorted pair, with its 'topology' attribute if it has one; and the
      'joint_degree' vector of every vertex 0 .. N-1. */
  datatype Network = Network(edges: map<Edge, Option<string>>, jointDegree: seq<seq<nat>>)

  /** N rows of the given width. */
  predicate Shaped(jd: seq<seq<nat>>, rows: nat, width: nat)
  {
    |jd| == rows && forall n :: 0 <= n < |jd| ==> |jd[n]| == width
  }

  /** Every vertex of the list is one of the N vertices. */
  predicate VerticesIn(s: seq<int>, rows: nat)
  {
    forall v :: v in s ==> 0 <= v < rows
  }

  /** Every stub is one of the N vertices. */
  predicate InRange(stubs: seq<seq<int>>, rows: nat)
  {
    forall k :: 0 <= k < |stubs| ==> VerticesIn(stubs[k], rows)
  }

  lemma VerticesInPrefix(s: seq<int>, rows: nat, n: nat)
    requires VerticesIn(s, rows) && n <= |s|
    ensures VerticesIn(s[..n], rows)
  {
    assert forall v :: v in s[..n] ==> v in s;
  }

  /** The groups cut from a list of vertices hold only those vertices. */
  lemma ChunksIn(s: seq<int>, n: nat, rows: nat)
    requires n > 0 && VerticesIn(s, rows)
    ensures InRange(Chunks(s, n), rows)
  {
    var cs := Chunks(s, n);
    forall i | 0 <= i < |cs| ensures VerticesIn(cs[i], rows) {
      forall v | v in cs[i] ensures 0 <= v < rows {
        FlattenMember(cs, i, v);
        ChunksFlatten(s, n);
      }
    }
  }

  // ----- the graph operations networkx performs -----

  /** The unordered pairs of an edge list. */
  function KeySet(es: seq<Edge>): (r: set<Edge>)
    ensures forall e :: e in r ==> e.0 <= e.1
  {
    if es == [] then {} else KeySet(es[..|es| - 1]) + {G.Sorted(es[|es| - 1])}
  }

  lemma {:induction false} KeySetConcat(a: seq<Edge>, b: seq<Edge>)
    ensures KeySet(a + b) == KeySet(a) + KeySet(b)
    decreases |b|
  {
    if b == [] {
      assert a + b == a;
    } else {
      assert (a + b)[..|a + b| - 1] == a + b[..|b| - 1];
      KeySetConcat(a, b[..|b| - 1]);
    }
  }

  /** `add_edges_from(es)`: (u, v) and (v, u) are one edge, and an edge
      already present keeps its attributes. */
  function AddEdges(m: map<Edge, Option<string>>, es: seq<Edge>): map<Edge, Option<string>>
  {
    if es == [] then m
    else
      var m' := AddEdges(m, es[..|es| - 1]);
      var key := G.Sorted(es[|es| - 1]);
      if key in m' then m' else m'[key := None]
  }

  /** Adding edges adds exactly their pairs, and only new pairs come
      without a name. */
  lemma {:induction false} AddEdgesEffect(m: map<Edge, Option<string>>, es: seq<Edge>)
    ensures AddEdges(m, es).Keys == m.Keys + KeySet(es)
    ensures forall e :: e in AddEdges(m, es) ==> AddEdges(m, es)[e] == if e in m then m[e] else None
  {
    if es != [] {
      AddEdgesEffect(m, es[..|es| - 1]);
    }
  }

  /** `G.edges[e]['topology'] = name` for every e in es. */
  function NameEdges(m: map<Edge, Option<string>>, es: seq<Edge>, name: string): map<Edge, Option<string>>
  {
    if es == [] then m else NameEdges(m, es[..|es| - 1], name)[G.Sorted(es[|es| - 1]) := Some(name)]
  }

  /** Naming keeps the edge set and overwrites the name of exactly the
      named edges, so an edge named twice keeps the later name. */
  lemma {:induction false} NameEdgesEffect(m: map<Edge, Option<string>>, es: seq<Edge>, name: string)
    requires KeySet(es) <= m.Keys
    ensures NameEdges(m, es, name).Keys == m.Keys
    ensures forall e :: e in m ==> NameEdges(m, es, name)[e] == if e in KeySet(es) then Some(name) else m[e]
  {
    if es != [] {
      NameEdgesEffect(m, es[..|es| - 1], name);
    }
  }

  /** `joint_degree[k] += 1` at every vertex of the group, once per
      occurrence. */
  function Increment(jd: seq<seq<nat>>, group: seq<int>, k: nat): (r: seq<seq<nat>>)
    requires VerticesIn(group, |jd|)
    requires forall n :: 0 <= n < |jd| ==> k < |jd[n]|
    ensures |r| == |jd| && forall n :: 0 <= n < |jd| ==> |r[n]| == |jd[n]|
  {
    if group == [] then jd
    else
      VerticesInPrefix(group, |jd|, |group| - 1);
      assert group[|group| - 1] in group;
      var r := Increment(jd, group[..|group| - 1], k);
      var v := group[|group| - 1];
      r[v := r[v][k := r[v][k] + 1]]
  }

  /** Entry k of vertex n grows by the number of times n occurs in the
      group, even when the group repeats a vertex; no other entry moves. */
  lemma {:induction false} IncrementCount(jd: seq<seq<nat>>, group: seq<int>, k: nat)
    requires VerticesIn(group, |jd|)
    requires forall n :: 0 <= n < |jd| ==> k < |jd[n]|
    ensures forall n, c :: 0 <= n < |jd| && 0 <= c < |jd[n]| ==>
              Increment(jd, group, k)[n][c] == jd[n][c] + (if c == k then multiset(group)[n] else 0)
  {
    if group != [] {
      var init := group[..|group| - 1];
      VerticesInPrefix(group, |jd|, |group| - 1);
      IncrementCount(jd, init, k);
      assert group == init + [group[|group| - 1]];
    }
  }

  // ----- the networkx generator -----

  /** One motif: its builder's edges are added, the motif is counted at each
      of its vertices, and its edges are named when names are given. A
      missing builder or name raises IndexError, a failing builder its own
      error. */
  function PlaceGroup(cfg: Config, net: Network, k: nat, group: seq<int>): (r: Result<Network>)
    requires k < |cfg.motifSizes|
    requires Shaped(net.jointDegree, |net.jointDegree|, |cfg.motifSizes|)
    requires VerticesIn(group, |net.jointDegree|)
    ensures r.Ok? ==> Shaped(r.value.jointDegree, |net.jointDegree|, |cfg.motifSizes|)
  {
    if k >= |cfg.builders| then Err(IndexError)
    else
      match cfg.builders[k](group)
      case Err(e) => Err(e)
      case Ok(es) =>
        var edges := AddEdges(net.edges, es);
        var jd := Increment(net.jointDegree, group, k);
        if cfg.edgeNames == [] || es == [] then Ok(Network(edges, jd))
        else if k >= |cfg.edgeNames| then Err(IndexError)
        else Ok(Network(NameEdges(edges, es, cfg.edgeNames[k]), jd))
  }

  /** The groups of one stub list, in order. */
  function PlaceGroups(cfg: Config, net: Network, k: nat, groups: seq<seq<int>>): (r: Result<Network>)
    requires k < |cfg.motifSizes|
    requires Shaped(net.jointDegree, |net.jointDegree|, |cfg.motifSizes|)
    requires InRange(groups, |net.jointDegree|)
    ensures r.Ok? ==> Shaped(r.value.jointDegree, |net.jointDegree|, |cfg.motifSizes|)
    decreases |groups|
  {
    if groups == [] then Ok(net)
    else
      match PlaceGroup(cfg, net, k, groups[0])
      case Err(e) => Err(e)
      case Ok(next) => PlaceGroups(cfg, next, k, groups[1..])
  }

  /** The stub lists from k on, each cut into groups of its motif size;
      a topology without a motif size raises IndexError, and one whose
      motif size is 0 raises ValueError (groups must have a member). */
  function PlaceColumns(cfg: Config, net: Network, stubs: seq<seq<int>>, k: nat): (r: Result<Network>)
    requires k <= |stubs|
    requires Shaped(net.jointDegree, |net.jointDegree|, |cfg.motifSizes|)
    requires InRange(stubs, |net.jointDegree|)
    ensures r.Ok? ==> Shaped(r.value.jointDegree, |net.jointDegree|, |cfg.motifSizes|)
    decreases |stubs| - k
  {
    if k == |stubs| then Ok(net)
    else if k >= |cfg.motifSizes| then Err(IndexError)
    else if cfg.motifSizes[k] == 0 then Err(ValueError)
    else
      ChunksIn(stubs[k], cfg.motifSizes[k], |net.jointDegree|);
      match PlaceGroups(cfg, net, k, Chunks(stubs[k], cfg.motifSizes[k]))
      case Err(e) => Err(e)
      case Ok(next) => PlaceColumns(cfg, next, stubs, k + 1)
  }

  /** Vertices 0 .. N-1, each with its own zero vector, and no edges. */
  function EmptyNetwork(rows: nat, width: nat): (r: Network)
    ensures Shaped(r.jointDegree, rows, width) && r.edges == map[]
    ensures forall n, c :: 0 <= n < rows && 0 <= c < width ==> r.jointDegree[n][c] == 0
  {
    Network(map[], seq(rows, _ => Repeat(0, width)))
  }

  /** `GCMAlgorithm.random_clustered_graph` for given shuffles. */
  function Generated(cfg: Config, jds: Jds, stubs: seq<seq<int>>): Result<Network>
    requires InRange(stubs, |jds|)
  {
    PlaceColumns(cfg, EmptyNetwork(|jds|, |cfg.motifSizes|), stubs, 0)
  }

  /** One motif, as the loop body does it. */
  method AddMotif(cfg: Config, net: Network, k: nat, group: seq<int>) returns (r: Result<Network>)
    requires k < |cfg.motifSizes|
    requires Shaped(net.jointDegree, |net.jointDegree|, |cfg.motifSizes|)
    requires VerticesIn(group, |net.jointDegree|)
    ensures r == PlaceGroup(cfg, net, k, group)
  {
    if k >= |cfg.builders| {
      return Err(IndexError);
    }
    var built := cfg.builders[k](group);
    if built.Err? {
      return Err(built.error);
    }
    var es := built.value;
    var edges := AddEdges(net.edges, es);
    var jd := net.jointDegree;
    for i := 0 to |group|
      invariant VerticesIn(group[..i], |net.jointDegree|)
      invariant jd == Increment(net.jointDegree, group[..i], k)
    {
      assert group[..i + 1][..i] == group[..i];
      VerticesInPrefix(group, |net.jointDegree|, i + 1);
      var v := group[i];
      assert v in group;
      jd := jd[v := jd[v][k := jd[v][k] + 1]];
    }
    assert group[..|group|] == group;
    if cfg.edgeNames != [] {
      for i := 0 to |es|
        invariant k < |cfg.edgeNames| || i == 0
        invariant i > 0 ==> edges == NameEdges(AddEdges(net.edges, es), es[..i], cfg.edgeNames[k])
        invariant i == 0 ==> edges == AddEdges(net.edges, es)
      {
        if k >= |cfg.edgeNames| {
          return Err(IndexError);
        }
        assert es[..i + 1][..i] == es[..i];
        if i == 0 {
          assert NameEdges(AddEdges(net.edges, es), es[..0], cfg.edgeNames[k]) == AddEdges(net.edges, es);
        }
        edges := edges[G.Sorted(es[i]) := Some(cfg.edgeNames[k])];
      }
      assert es[..|es|] == es;
    }
    r := Ok(Network(edges, jd));
  }

  /** `GCMAlgorithm.random_clustered_graph(jds)`: the shuffles it makes are
      returned alongside the graph, which is the one `Generated` describes
      for them. */
  method RandomClusteredGraph(cfg: Config, jds: Jds) returns (r: Result<Network>, ghost stubs: seq<seq<int>>)
    ensures Shuffled(jds, stubs) && InRange(stubs, |jds|)
    ensures r == Generated(cfg, jds, stubs)
  {
    var shuffled := ShuffledStubs(jds);
    stubs := shuffled;
    ShuffledInRange(jds, shuffled);
    var start := EmptyNetwork(|jds|, |cfg.motifSizes|);
    var net := start;
    for k := 0 to |shuffled|
      invariant Shaped(net.jointDegree, |jds|, |cfg.motifSizes|)
      invariant PlaceColumns(cfg, start, shuffled, 0) == PlaceColumns(cfg, net, shuffled, k)
    {
      ColumnStep(cfg, net, shuffled, k);
      if k >= |cfg.motifSizes| {
        return Err(IndexError), stubs;
      }
      if cfg.motifSizes[k] == 0 {
        return Err(ValueError), stubs;
      }
      var groups := Chunks(shuffled[k], cfg.motifSizes[k]);
      var placed := AddMotifs(cfg, net, k, groups);
      if placed.Err? {
        return placed, stubs;
      }
      net := placed.value;
    }
    r := Ok(net);
  }

  /** The networkx generator returns a graph only when every stub list has
      a positive motif size, and a first motif size of 0 is a ValueError. */
  lemma GeneratedSized(cfg: Config, jds: Jds, stubs: seq<seq<int>>)
    requires InRange(stubs, |jds|)
    ensures Generated(cfg, jds, stubs).Ok? ==> SizedFor(cfg, |stubs|)
    ensures 0 < |stubs| && 0 < |cfg.motifSizes| && cfg.motifSizes[0] == 0 ==> Generated(cfg, jds, stubs) == Err(ValueError)
  {
    if Generated(cfg, jds, stubs).Ok? {
      PlacedSized(cfg, EmptyNetwork(|jds|, |cfg.motifSizes|), stubs, 0);
    }
  }

  /** The first n topologies each have a motif size, and it is positive. */
  predicate SizedFor(cfg: Config, n: nat)
  {
    n <= |cfg.motifSizes| && forall c :: 0 <= c < n ==> cfg.motifSizes[c] > 0
  }

  /** Placing columns k onwards succeeds only when each of them has a
      positive motif size. */
  lemma {:induction false} PlacedSized(cfg: Config, net: Network, stubs: seq<seq<int>>, k: nat)
    requires k <= |stubs| && k <= |cfg.motifSizes|
    requires Shaped(net.jointDegree, |net.jointDegree|, |cfg.motifSizes|)
    requires InRange(stubs, |net.jointDegree|)
    requires PlaceColumns(cfg, net, stubs, k).Ok?
    ensures |stubs| <= |cfg.motifSizes| && forall c :: k <= c < |stubs| ==> cfg.motifSizes[c] > 0
    decreases |stubs| - k
  {
    if k < |stubs| {
      ColumnStep(cfg, net, stubs, k);
      PlacedSized(cfg, PlaceGroups(cfg, net, k, Chunks(stubs[k], cfg.motifSizes[k])).value, stubs, k + 1);
    }
  }

  /** One column of `PlaceColumns`: its groups are placed, and the rest
      follows from the network they give. */
  lemma ColumnStep(cfg: Config, net: Network, stubs: seq<seq<int>>, k: nat)
    requires k < |stubs|
    requires Shaped(net.jointDegree, |net.jointDegree|, |cfg.motifSizes|)
    requires InRange(stubs, |net.jointDegree|)
    ensures k >= |cfg.motifSizes| ==> PlaceColumns(cfg, net, stubs, k) == Err(IndexError)
    ensures k < |cfg.motifSizes| && cfg.motifSizes[k] == 0 ==> PlaceColumns(cfg, net, stubs, k) == Err(ValueError)
    ensures k < |cfg.motifSizes| && cfg.motifSizes[k] > 0 ==>
      && InRange(Chunks(stubs[k], cfg.motifSizes[k]), |net.jointDegree|)
      && var placed := PlaceGroups(cfg, net, k, Chunks(stubs[k], cfg.motifSizes[k]));
         PlaceColumns(cfg, net, stubs, k) == if placed.Err? then Err(placed.error)
                                             else PlaceColumns(cfg, placed.value, stubs, k + 1)
  {
    if k < |cfg.motifSizes| && cfg.motifSizes[k] > 0 {
      ChunksIn(stubs[k], cfg.motifSizes[k], |net.jointDegree|);
    }
  }

  /** Every stub of a shuffled sequence is a vertex of it. */
  lemma ShuffledInRange(jds: Jds, stubs: seq<seq<int>>)
    requires Shuffled(jds, stubs)
    ensures InRange(stubs, |jds|)
  {
    forall k, v | 0 <= k < |stubs| && v in stubs[k] ensures 0 <= v < |jds| {
      ShuffledCount(jds, stubs, k, v);
    }
  }

  /** The inner loop: the motifs of one column, one group at a time. */
  method AddMotifs(cfg: Config, net0: Network, k: nat, groups: seq<seq<int>>) returns (r: Result<Network>)
    requires k < |cfg.motifSizes|
    requires Shaped(net0.jointDegree, |net0.jointDegree|, |cfg.motifSizes|)
    requires InRange(groups, |net0.jointDegree|)
    ensures r == PlaceGroups(cfg, net0, k, groups)
  {
    var net := net0;
    for i := 0 to |groups|
      invariant Shaped(net.jointDegree, |net0.jointDegree|, |cfg.motifSizes|)
      invariant PlaceGroups(cfg, net0, k, groups) == PlaceGroups(cfg, net, k, groups[i..])
    {
      assert groups[i..][1..] == groups[i + 1..];
      var placed := AddMotif(cfg, net, k, groups[i]);
      if placed.Err? {
        return placed;
      }
      net := placed.value;
    }
    assert groups[|groups|..] == [];
    r := Ok(net);
  }

  // ----- what the generated graph satisfies -----

  /** One motif adds the number of occurrences of each vertex to its
      counter k. */
  lemma PlaceGroupCounts(cfg: Config, net: Network, k: nat, group: seq<int>)
    requires k < |cfg.motifSizes|
    requires Shaped(net.jointDegree, |net.jointDegree|, |cfg.motifSizes|)
    requires VerticesIn(group, |net.jointDegree|)
    requires PlaceGroup(cfg, net, k, group).Ok?
    ensures forall n, c :: 0 <= n < |net.jointDegree| && 0 <= c < |cfg.motifSizes| ==>
              PlaceGroup(cfg, net, k, group).value.jointDegree[n][c]
              == net.jointDegree[n][c] + (if c == k then multiset(group)[n] else 0)
  {
    IncrementCount(net.jointDegree, group, k);
  }

  lemma {:induction false} PlaceGroupsCounts(cfg: Config, net: Network, k: nat, groups: seq<seq<int>>)
    requires k < |cfg.motifSizes|
    requires Shaped(net.jointDegree, |net.jointDegree|, |cfg.motifSizes|)
    requires InRange(groups, |net.jointDegree|)
    requires PlaceGroups(cfg, net, k, groups).Ok?
    ensures forall n, c :: 0 <= n < |net.jointDegree| && 0 <= c < |cfg.motifSizes| ==>
              PlaceGroups(cfg, net, k, groups).value.jointDegree[n][c]
              == net.jointDegree[n][c] + (if c == k then multiset(Flatten(groups))[n] else 0)
    decreases |groups|
  {
    if groups != [] {
      var next := PlaceGroup(cfg, net, k, groups[0]).value;
      PlaceGroupCounts(cfg, net, k, groups[0]);
      PlaceGroupsCounts(cfg, next, k, groups[1..]);
      FlattenCons(groups[0], groups[1..]);
      assert groups == [groups[0]] + groups[1..];
    }
  }

  lemma {:induction false} PlaceColumnsCounts(cfg: Config, net: Network, stubs: seq<seq<int>>, k: nat, n: nat, c: nat)
    requires k <= |stubs|
    requires Shaped(net.jointDegree, |net.jointDegree|, |cfg.motifSizes|)
    requires InRange(stubs, |net.jointDegree|)
    requires PlaceColumns(cfg, net, stubs, k).Ok?
    requires n < |net.jointDegree| && c < |cfg.motifSizes|
    ensures PlaceColumns(cfg, net, stubs, k).value.jointDegree[n][c]
            == net.jointDegree[n][c] + (if k <= c < |stubs| then multiset(stubs[c])[n] else 0)
    decreases |stubs| - k
  {
    if k < |stubs| {
      var groups := Chunks(stubs[k], cfg.motifSizes[k]);
      ChunksIn(stubs[k], cfg.motifSizes[k], |net.jointDegree|);
      PlaceGroupsCounts(cfg, net, k, groups);
      ChunksFlatten(stubs[k], cfg.motifSizes[k]);
      var mid := PlaceGroups(cfg, net, k, groups).value;
      assert PlaceColumns(cfg, net, stubs, k) == PlaceColumns(cfg, mid, stubs, k + 1);
      PlaceColumnsCounts(cfg, mid, stubs, k + 1, n, c);
    }
  }

  /** The realised joint degrees are exactly the input ones: vertex n
      belongs to jds[n][k] motifs of topology k, and to none of a topology
      beyond the columns of the sequence. */
  lemma GeneratedJointDegrees(cfg: Config, jds: Jds, stubs: seq<seq<int>>)
    requires Shuffled(jds, stubs) && InRange(stubs, |jds|)
    requires Generated(cfg, jds, stubs).Ok?
    ensures Shaped(Generated(cfg, jds, stubs).value.jointDegree, |jds|, |cfg.motifSizes|)
    ensures forall n, k :: 0 <= n < |jds| && 0 <= k < |cfg.motifSizes| ==>
              Generated(cfg, jds, stubs).value.jointDegree[n][k] == if k < Columns(jds) then jds[n][k] else 0
  {
    var start := EmptyNetwork(|jds|, |cfg.motifSizes|);
    var fin := Generated(cfg, jds, stubs).value;
    forall n, k | 0 <= n < |jds| && 0 <= k < |cfg.motifSizes|
      ensures fin.jointDegree[n][k] == if k < Columns(jds) then jds[n][k] else 0
    {
      PlaceColumnsCounts(cfg, start, stubs, 0, n, k);
      if k < |stubs| {
        ShuffledCount(jds, stubs, k, n);
      }
    }
  }

  // ----- the fast generator -----

  /** The groups of one stub list: the builder outputs appended to acc. */
  function FastGroups(cfg: Config, acc: seq<Edge>, k: nat, groups: seq<seq<int>>): Result<seq<Edge>>
    decreases |groups|
  {
    if groups == [] then Ok(acc)
    else if k >= |cfg.builders| then Err(IndexError)
    else
      match cfg.builders[k](groups[0])
      case Err(e) => Err(e)
      case Ok(es) => FastGroups(cfg, acc + es, k, groups[1..])
  }

  /** The stub lists from k on. */
  function FastColumns(cfg: Config, acc: seq<Edge>, stubs: seq<seq<int>>, k: nat): Result<seq<Edge>>
    requires k <= |stubs|
    decreases |stubs| - k
  {
    if k == |stubs| then Ok(acc)
    else if k >= |cfg.motifSizes| then Err(IndexError)
    else if cfg.motifSizes[k] == 0 then Err(ValueError)
    else
      match FastGroups(cfg, acc, k, Chunks(stubs[k], cfg.motifSizes[k]))
      case Err(e) => Err(e)
      case Ok(next) => FastColumns(cfg, next, stubs, k + 1)
  }

  /** The fast generator succeeds only when each column has a positive
      motif size. */
  lemma {:induction false} FastSized(cfg: Config, acc: seq<Edge>, stubs: seq<seq<int>>, k: nat)
    requires k <= |stubs| && k <= |cfg.motifSizes|
    requires FastColumns(cfg, acc, stubs, k).Ok?
    ensures |stubs| <= |cfg.motifSizes| && forall c :: k <= c < |stubs| ==> cfg.motifSizes[c] > 0
    decreases |stubs| - k
  {
    if k < |stubs| {
      FastSized(cfg, FastGroups(cfg, acc, k, Chunks(stubs[k], cfg.motifSizes[k])).value, stubs, k + 1);
    }
  }

  /** `FastGCMAlgorithm.random_clustered_graph(jds)`: the builder outputs
      concatenated in topology order and then group order, duplicates and
      self-loops kept; `edge_names` is not used. */
  method FastRandomClusteredGraph(cfg: Config, jds: Jds) returns (r: Result<seq<Edge>>, ghost stubs: seq<seq<int>>)
    ensures Shuffled(jds, stubs)
    ensures r == FastColumns(cfg, [], stubs, 0)
    ensures r.Ok? ==> SizedFor(cfg, |stubs|)
    ensures 0 < |stubs| && 0 < |cfg.motifSizes| && cfg.motifSizes[0] == 0 ==> r == Err(ValueError)
  {
    var shuffled := ShuffledStubs(jds);
    stubs := shuffled;
    var edgeList: seq<Edge> := [];
    for k := 0 to |shuffled|
      invariant FastColumns(cfg, [], shuffled, 0) == FastColumns(cfg, edgeList, shuffled, k)
    {
      if k >= |cfg.motifSizes| {
        return Err(IndexError), stubs;
      }
      if cfg.motifSizes[k] == 0 {
        return Err(ValueError), stubs;
      }
      var extended := ExtendGroups(cfg, edgeList, k, Chunks(shuffled[k], cfg.motifSizes[k]));
      if extended.Err? {
        return extended, stubs;
      }
      edgeList := extended.value;
    }
    r := Ok(edgeList);
    FastSized(cfg, [], stubs, 0);
  }

  /** The inner loop of the fast generator: the builder outputs of the
      groups of one stub list appended to the edge list. */
  method ExtendGroups(cfg: Config, acc: seq<Edge>, k: nat, groups: seq<seq<int>>) returns (r: Result<seq<Edge>>)
    ensures r == FastGroups(cfg, acc, k, groups)
  {
    var edgeList := acc;
    for i := 0 to |groups|
      invariant FastGroups(cfg, acc, k, groups) == FastGroups(cfg, edgeList, k, groups[i..])
    {
      assert groups[i..][1..] == groups[i + 1..];
      if k >= |cfg.builders| {
        return Err(IndexError);
      }
      var built := cfg.builders[k](groups[i]);
      if built.Err? {
        return Err(built.error);
      }
      edgeList := edgeList + built.value;
    }
    r := Ok(edgeList);
  }

  // ----- the two generators agree -----

  /** Names can be given to every topology that has stubs. */
  predicate NamesCover(cfg: Config, stubs: seq<seq<int>>)
  {
    cfg.edgeNames == [] || |stubs| <= |cfg.edgeNames|
  }

  lemma {:induction false} GroupsAgree(cfg: Config, net: Network, acc: seq<Edge>, k: nat, groups: seq<seq<int>>)
    requires k < |cfg.motifSizes| && (cfg.edgeNames == [] || k < |cfg.edgeNames|)
    requires Shaped(net.jointDegree, |net.jointDegree|, |cfg.motifSizes|)
    requires InRange(groups, |net.jointDegree|)
    requires net.edges.Keys == KeySet(acc)
    ensures PlaceGroups(cfg, net, k, groups).Ok? <==> FastGroups(cfg, acc, k, groups).Ok?
    ensures PlaceGroups(cfg, net, k, groups).Ok? ==>
              PlaceGroups(cfg, net, k, groups).value.edges.Keys == KeySet(FastGroups(cfg, acc, k, groups).value)
    decreases |groups|
  {
    if groups != [] && k < |cfg.builders| && cfg.builders[k](groups[0]).Ok? {
      var es := cfg.builders[k](groups[0]).value;
      AddEdgesEffect(net.edges, es);
      KeySetConcat(acc, es);
      if cfg.edgeNames != [] && es != [] {
        NameEdgesEffect(AddEdges(net.edges, es), es, cfg.edgeNames[k]);
      }
      GroupsAgree(cfg, PlaceGroup(cfg, net, k, groups[0]).value, acc + es, k, groups[1..]);
    }
  }

  lemma {:induction false} ColumnsAgree(cfg: Config, net: Network, acc: seq<Edge>, stubs: seq<seq<int>>, k: nat)
    requires k <= |stubs| && NamesCover(cfg, stubs)
    requires Shaped(net.jointDegree, |net.jointDegree|, |cfg.motifSizes|)
    requires InRange(stubs, |net.jointDegree|)
    requires net.edges.Keys == KeySet(acc)
    ensures PlaceColumns(cfg, net, stubs, k).Ok? <==> FastColumns(cfg, acc, stubs, k).Ok?
    ensures PlaceColumns(cfg, net, stubs, k).Ok? ==>
              PlaceColumns(cfg, net, stubs, k).value.edges.Keys == KeySet(FastColumns(cfg, acc, stubs, k).value)
    decreases |stubs| - k
  {
    if k < |stubs| && k < |cfg.motifSizes| && cfg.motifSizes[k] > 0 {
      var groups := Chunks(stubs[k], cfg.motifSizes[k]);
      ChunksIn(stubs[k], cfg.motifSizes[k], |net.jointDegree|);
      GroupsAgree(cfg, net, acc, k, groups);
      if PlaceGroups(cfg, net, k, groups).Ok? {
        ColumnsAgree(cfg, PlaceGroups(cfg, net, k, groups).value, FastGroups(cfg, acc, k, groups).value, stubs, k + 1);
      }
    }
  }

  /** For the same shuffles, the networkx generator succeeds exactly when
      the fast one does (given a name for every topology, if any), and its
      edges are the unordered pairs of the fast generator's edge list. */
  lemma GeneratedMatchesFast(cfg: Config, jds: Jds, stubs: seq<seq<int>>)
    requires InRange(stubs, |jds|) && NamesCover(cfg, stubs)
    ensures Generated(cfg, jds, stubs).Ok? <==> FastColumns(cfg, [], stubs, 0).Ok?
    ensures Generated(cfg, jds, stubs).Ok? ==>
              Generated(cfg, jds, stubs).value.edges.Keys == KeySet(FastColumns(cfg, [], stubs, 0).value)
  {
    ColumnsAgree(cfg, EmptyNetwork(|jds|, |cfg.motifSizes|), [], stubs, 0);
  }

  // ----- edge names -----

  /** Every edge carries one of the given names. */
  predicate AllNamed(m: map<Edge, Option<string>>, names: seq<string>)
  {
    forall e :: e in m ==> m[e].Some? && m[e].value in names
  }

  /** No edge carries a name. */
  predicate NoneNamed(m: map<Edge, Option<string>>)
  {
    forall e :: e in m ==> m[e] == None
  }

  lemma {:induction false} GroupsNames(cfg: Config, net: Network, k: nat, groups: seq<seq<int>>)
    requires k < |cfg.motifSizes|
    requires Shaped(net.jointDegree, |net.jointDegree|, |cfg.motifSizes|)
    requires InRange(groups, |net.jointDegree|)
    requires PlaceGroups(cfg, net, k, groups).Ok?
    requires if cfg.edgeNames == [] then NoneNamed(net.edges) else AllNamed(net.edges, cfg.edgeNames)
    ensures var m := PlaceGroups(cfg, net, k, groups).value.edges;
      if cfg.edgeNames == [] then NoneNamed(m) else AllNamed(m, cfg.edgeNames)
    decreases |groups|
  {
    if groups != [] {
      var es := cfg.builders[k](groups[0]).value;
      AddEdgesEffect(net.edges, es);
      var added := AddEdges(net.edges, es);
      if cfg.edgeNames != [] && es != [] {
        NameEdgesEffect(added, es, cfg.edgeNames[k]);
      } else if cfg.edgeNames != [] {
        assert added == net.edges;
      }
      GroupsNames(cfg, PlaceGroup(cfg, net, k, groups[0]).value, k, groups[1..]);
    }
  }

  lemma {:induction false} ColumnsNames(cfg: Config, net: Network, stubs: seq<seq<int>>, k: nat)
    requires k <= |stubs|
    requires Shaped(net.jointDegree, |net.jointDegree|, |cfg.motifSizes|)
    requires InRange(stubs, |net.jointDegree|)
    requires PlaceColumns(cfg, net, stubs, k).Ok?
    requires if cfg.edgeNames == [] then NoneNamed(net.edges) else AllNamed(net.edges, cfg.edgeNames)
    ensures var m := PlaceColumns(cfg, net, stubs, k).value.edges;
      if cfg.edgeNames == [] then NoneNamed(m) else AllNamed(m, cfg.edgeNames)
    decreases |stubs| - k
  {
    if k < |stubs| {
      var groups := Chunks(stubs[k], cfg.motifSizes[k]);
      ChunksIn(stubs[k], cfg.motifSizes[k], |net.jointDegree|);
      GroupsNames(cfg, net, k, groups);
      ColumnsNames(cfg, PlaceGroups(cfg, net, k, groups).value, stubs, k + 1);
    }
  }

  /** With names, every edge of the generated graph is named after one of
      the topologies; without names, no edge has a 'topology' attribute. */
  lemma GeneratedNames(cfg: Config, jds: Jds, stubs: seq<seq<int>>)
    requires InRange(stubs, |jds|)
    requires Generated(cfg, jds, stubs).Ok?
    ensures cfg.edgeNames == [] ==> NoneNamed(Generated(cfg, jds, stubs).value.edges)
    ensures cfg.edgeNames != [] ==> AllNamed(Generated(cfg, jds, stubs).value.edges, cfg.edgeNames)
  {
    ColumnsNames(cfg, EmptyNetwork(|jds|, |cfg.motifSizes|), stubs, 0);
  }

  // ----- clique builders -----

  /** Every builder is the clique builder. */
  ghost predicate CliqueBuilders(cfg: Config)
  {
    forall k, s :: 0 <= k < |cfg.builders| ==> cfg.builders[k](s) == Ok(M.CliqueMotif(s))
  }

  /** Each full group of m vertices gives m (m - 1) / 2 edges. */
  function CliqueEdges(sizes: seq<nat>, stubs: seq<seq<int>>, k: nat): int
    requires k <= |stubs| <= |sizes|
    requires forall c :: 0 <= c < |sizes| ==> sizes[c] > 0
    decreases |stubs| - k
  {
    if k == |stubs| then 0
    else (|stubs[k]| / sizes[k]) * (sizes[k] * (sizes[k] - 1) / 2) + CliqueEdges(sizes, stubs, k + 1)
  }

  lemma {:induction false} CliqueGroups(cfg: Config, acc: seq<Edge>, k: nat, groups: seq<seq<int>>, m: nat)
    requires CliqueBuilders(cfg) && k < |cfg.builders|
    requires forall i :: 0 <= i < |groups| ==> |groups[i]| == m
    ensures FastGroups(cfg, acc, k, groups).Ok?
    ensures |FastGroups(cfg, acc, k, groups).value| == |acc| + |groups| * (m * (m - 1) / 2)
    decreases |groups|
  {
    if groups != [] {
      M.CliqueLength(groups[0]);
      CliqueGroups(cfg, acc + M.CliqueMotif(groups[0]), k, groups[1..], m);
    }
  }

  lemma {:induction false} CliqueColumns(cfg: Config, acc: seq<Edge>, stubs: seq<seq<int>>, k: nat)
    requires PositiveSizes(cfg) && CliqueBuilders(cfg) && k <= |stubs|
    requires |stubs| <= |cfg.motifSizes| && |stubs| <= |cfg.builders|
    requires forall c :: k <= c < |stubs| ==> |stubs[c]| % cfg.motifSizes[c] == 0
    ensures FastColumns(cfg, acc, stubs, k).Ok?
    ensures |FastColumns(cfg, acc, stubs, k).value| == |acc| + CliqueEdges(cfg.motifSizes, stubs, k)
    decreases |stubs| - k
  {
    if k < |stubs| {
      var m := cfg.motifSizes[k];
      var groups := Chunks(stubs[k], m);
      ChunksExact(stubs[k], m);
      CliqueGroups(cfg, acc, k, groups, m);
      CliqueColumns(cfg, FastGroups(cfg, acc, k, groups).value, stubs, k + 1);
    }
  }

  /** With clique builders and every column sum S_k divisible by its motif
      size m_k, the fast generator returns sum over k of
      (S_k / m_k) * m_k (m_k - 1) / 2 edges. */
  lemma FastCliqueCount(cfg: Config, jds: Jds, stubs: seq<seq<int>>)
    requires PositiveSizes(cfg) && CliqueBuilders(cfg) && Shuffled(jds, stubs)
    requires Columns(jds) <= |cfg.motifSizes| && Columns(jds) <= |cfg.builders|
    requires forall c :: 0 <= c < Columns(jds) ==> ColumnSum(jds, c) % cfg.motifSizes[c] == 0
    ensures FastColumns(cfg, [], stubs, 0).Ok?
    ensures |FastColumns(cfg, [], stubs, 0).value| == CliqueEdges(cfg.motifSizes, AllStubs(jds), 0)
  {
    forall c | 0 <= c < |stubs| ensures |stubs[c]| == |AllStubs(jds)[c]| == ColumnSum(jds, c) {
      assert |multiset(stubs[c])| == |multiset(Stub(jds, c))|;
      StubLength(jds, c);
    }
    CliqueColumns(cfg, [], stubs, 0);
    CliqueEdgesLengths(cfg.motifSizes, stubs, AllStubs(jds), 0);
  }

  /** The count depends only on the list lengths. */
  lemma {:induction false} CliqueEdgesLengths(sizes: seq<nat>, a: seq<seq<int>>, b: seq<seq<int>>, k: nat)
    requires k <= |a| == |b| <= |sizes|
    requires forall c :: 0 <= c < |sizes| ==> sizes[c] > 0
    requires forall c :: 0 <= c < |a| ==> |a[c]| == |b[c]|
    ensures CliqueEdges(sizes, a, k) == CliqueEdges(sizes, b, k)
    decreases |a| - k
  {
    if k < |a| {
      CliqueEdgesLengths(sizes, a, b, k + 1);
    }
  }
}
