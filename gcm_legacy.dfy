// The earlier generator, `GCM_algorithm`, and its resampling subclass.
// Stub lists are built row by row, shuffled, and drained from the end:
// each motif takes the last `motif_size` stubs, last first.

module GcmLegacy {
  import opened Common
  import opened Stubs
  import G = Graphs

  type Edge = G.Edge

  /** A builder callback: a vertex list to the motif's edges, or the
      exception it raises. */
  type Builder = seq<int> -> Result<seq<Edge>>

  /** `num_networks`, `motif_sizes` and `build_functions` (which may be
      None). */
  datatype Config = Config(numNetworks: int, motifSizes: seq<nat>, builders: Option<seq<Builder>>)

  /** `output_data`: experiment index, name and the generated edge list. */
  datatype Output = Output(experiment: nat, name: Option<string>, network: seq<Edge>)

  function Reversed<T>(s: seq<T>): (r: seq<T>)
    ensures |r| == |s|
    ensures forall i :: 0 <= i < |s| ==> r[i] == s[|s| - 1 - i]
  {
    if s == [] then [] else [s[|s| - 1]] + Reversed(s[..|s| - 1])
  }

  lemma {:induction false} ReversedMultiset<T>(s: seq<T>)
    ensures multiset(Reversed(s)) == multiset(s)
  {
    if s != [] {
      ReversedMultiset(s[..|s| - 1]);
      assert s == s[..|s| - 1] + [s[|s| - 1]];
    }
  }

  /** Every row has at least as many entries as the first: reading
      `jds[n][k]` for each stub list k raises IndexError otherwise. */
  predicate LongRows(jds: Jds)
  {
    jds != [] && forall n :: 0 <= n < |jds| ==> |jds[0]| <= |jds[n]|
  }

  /** `while k_list:` pops `motif_size` stubs, calls the builder of
      topology k and adds its edges. Running out of stubs mid-motif raises
      IndexError; a motif size of zero never empties the list, which the
      model reports as OutOfFuel (the source does not terminate). */
  function Drain(list: seq<int>, size: nat, builders: seq<Builder>, k: nat, acc: seq<Edge>): Result<seq<Edge>>
    decreases |list|
  {
    if list == [] then Ok(acc)
    else if |list| < size then Err(IndexError)
    else if k >= |builders| then Err(IndexError)
    else
      var nodes := Reversed(list[|list| - size..]);
      match builders[k](nodes)
      case Err(e) => Err(e)
      case Ok(es) =>
        if size == 0 then Err(OutOfFuel)
        else Drain(list[..|list| - size], size, builders, k, acc + es)
  }

  /** The topologies from k on. */
  function Topologies(cfg: Config, builders: seq<Builder>, stubs: seq<seq<int>>, k: nat, acc: seq<Edge>): Result<seq<Edge>>
    requires k <= |stubs|
    decreases |stubs| - k
  {
    if k == |stubs| then Ok(acc)
    else if k >= |cfg.motifSizes| then Err(IndexError)
    else
      match Drain(stubs[k], cfg.motifSizes[k], builders, k, acc)
      case Err(e) => Err(e)
      case Ok(es) => Topologies(cfg, builders, stubs, k + 1, es)
  }

  /** The edge list `random_clustered_graph` returns for given shuffles:
      ValueError without builders, IndexError for an empty sequence or a
      short row. */
  function Generated(cfg: Config, jds: Jds, stubs: seq<seq<int>>): Result<seq<Edge>>
  {
    if cfg.builders.None? then Err(ValueError)
    else if !LongRows(jds) then Err(IndexError)
    else if |stubs| != |jds[0]| then Err(IndexError)
    else Topologies(cfg, cfg.builders.value, stubs, 0, [])
  }

  /** The nested loops that fill the stub lists: node n is appended to
      list k once per motif of topology k it belongs to. */
  method BuildStubs(jds: Jds) returns (stubs: seq<seq<int>>)
    requires LongRows(jds)
    ensures |stubs| == |jds[0]|
    ensures forall k :: 0 <= k < |stubs| ==> HasColumn(jds, k) && stubs[k] == Stub(jds, k)
  {
    var width := |jds[0]|;
    stubs := seq(width, _ => []);
    for n := 0 to |jds|
      invariant |stubs| == width
      invariant forall k :: 0 <= k < width ==> HasColumn(jds[..n], k) && stubs[k] == Stub(jds[..n], k)
    {
      for k := 0 to width
        invariant |stubs| == width
        invariant forall j :: 0 <= j < k ==> stubs[j] == Stub(jds[..n + 1], j)
        invariant forall j :: k <= j < width ==> stubs[j] == Stub(jds[..n], j)
      {
        assert jds[..n + 1][..n] == jds[..n];
        var list := stubs[k];
        for c := 0 to jds[n][k]
          invariant list == Stub(jds[..n], k) + Repeat(n, c)
        {
          list := list + [n];
        }
        stubs := stubs[k := list];
      }
    }
    assert jds[..|jds|] == jds;
  }

  /** `GCM_algorithm.random_clustered_graph(jds)`; the shuffles made are
      returned alongside the edge list. */
  method RandomClusteredGraph(cfg: Config, jds: Jds) returns (r: Result<seq<Edge>>, ghost stubs: seq<seq<int>>)
    ensures r == Generated(cfg, jds, stubs)
    ensures cfg.builders.Some? && LongRows(jds) ==> Shuffled(jds, stubs)
  {
    stubs := [];
    if cfg.builders.None? {
      return Err(ValueError), stubs;
    }
    if !LongRows(jds) {
      return Err(IndexError), stubs;
    }
    var lists := BuildStubs(jds);
    var shuffled: seq<seq<int>> := [];
    for k := 0 to |lists|
      invariant |shuffled| == k
      invariant forall j :: 0 <= j < k ==> multiset(shuffled[j]) == multiset(lists[j])
    {
      var t := Shuffle(lists[k]);
      shuffled := shuffled + [t];
    }
    stubs := shuffled;
    var builders := cfg.builders.value;
    var edges: seq<Edge> := [];
    for k := 0 to |shuffled|
      invariant Topologies(cfg, builders, shuffled, 0, []) == Topologies(cfg, builders, shuffled, k, edges)
    {
      if k >= |cfg.motifSizes| {
        return Err(IndexError), stubs;
      }
      var drained := DrainList(shuffled[k], cfg.motifSizes[k], builders, k, edges);
      if drained.Err? {
        return drained, stubs;
      }
      edges := drained.value;
    }
    r := Ok(edges);
  }

  /** The `while k_list:` loop for one topology. */
  method DrainList(list0: seq<int>, size: nat, builders: seq<Builder>, k: nat, acc0: seq<Edge>) returns (r: Result<seq<Edge>>)
    ensures r == Drain(list0, size, builders, k, acc0)
  {
    var list := list0;
    var acc := acc0;
    while list != []
      invariant Drain(list0, size, builders, k, acc0) == Drain(list, size, builders, k, acc)
      decreases |list|
    {
      if |list| < size {
        return Err(IndexError);
      }
      var nodes: seq<int> := [];
      var rest := list;
      for c := 0 to size
        invariant rest == list[..|list| - c]
        invariant nodes == Reversed(list[|list| - c..])
      {
        nodes := nodes + [rest[|rest| - 1]];
        rest := rest[..|rest| - 1];
      }
      if k >= |builders| {
        return Err(IndexError);
      }
      var built := builders[k](nodes);
      if built.Err? {
        return Err(built.error);
      }
      if size == 0 {
        return Err(OutOfFuel);
      }
      list := rest;
      acc := acc + built.value;
    }
    r := Ok(acc);
  }

  /** The network comes from some shuffle of the stub lists. */
  ghost predicate FromShuffle(cfg: Config, jds: Jds, network: seq<Edge>)
  {
    exists stubs :: Shuffled(jds, stubs) && Generated(cfg, jds, stubs) == Ok(network)
  }

  /** The exception e is what generating from some shuffle raises (any
      stub lists when there are no builders or a row is short, since then
      none are made). */
  ghost predicate FailsFromShuffle(cfg: Config, jds: Jds, e: Error)
  {
    exists stubs :: (cfg.builders.Some? && LongRows(jds) ==> Shuffled(jds, stubs))
      && Generated(cfg, jds, stubs) == Err(e)
  }

  /** `ResampleJDS.random_clustered_graph_from_resampled_jds(jds)`: one
      network per experiment, each from its own shuffles, named after the
      model; the first failure aborts the whole run. */
  method RandomClusteredGraphsFromResampledJds(cfg: Config, name: Option<string>, jds: Jds) returns (r: Result<seq<Output>>)
    ensures r.Ok? ==> |r.value| == if cfg.numNetworks < 0 then 0 else cfg.numNetworks
    ensures r.Ok? ==> forall i :: 0 <= i < |r.value| ==>
      r.value[i].experiment == i && r.value[i].name == name && FromShuffle(cfg, jds, r.value[i].network)
    ensures r.Err? ==> cfg.numNetworks > 0 && FailsFromShuffle(cfg, jds, r.error)
    ensures cfg.numNetworks > 0 && (cfg.builders.None? || !LongRows(jds)) ==> r.Err?
  {
    var results: seq<Output> := [];
    var i := 0;
    while i < cfg.numNetworks
      invariant 0 <= i && |results| == i
      invariant cfg.numNetworks >= 0 ==> i <= cfg.numNetworks
      invariant cfg.numNetworks < 0 ==> i == 0
      invariant i > 0 ==> cfg.builders.Some? && LongRows(jds)
      invariant forall j :: 0 <= j < i ==>
        results[j].experiment == j && results[j].name == name && FromShuffle(cfg, jds, results[j].network)
    {
      var network, stubs := RandomClusteredGraph(cfg, jds);
      if network.Err? {
        assert FailsFromShuffle(cfg, jds, network.error) by {
          assert (cfg.builders.Some? && LongRows(jds) ==> Shuffled(jds, stubs))
            && Generated(cfg, jds, stubs) == Err(network.error);
        }
        return Err(network.error);
      }
      assert FromShuffle(cfg, jds, network.value) by {
        assert Shuffled(jds, stubs) && Generated(cfg, jds, stubs) == Ok(network.value);
      }
      results := results + [Output(i, name, network.value)];
      i := i + 1;
    }
    r := Ok(results);
  }

  // ----- what draining a stub list does -----

  /** The motifs drained from one stub list: the list read from its end,
      cut into groups of the motif size. */
  function Groups(list: seq<int>, size: nat): seq<seq<int>>
    requires size > 0
  {
    Chunks(Reversed(list), size)
  }

  /** Every group builds without raising. */
  predicate AllBuild(build: Builder, groups: seq<seq<int>>)
  {
    forall i :: 0 <= i < |groups| ==> build(groups[i]).Ok?
  }

  function Outputs(build: Builder, groups: seq<seq<int>>): seq<seq<Edge>>
    requires AllBuild(build, groups)
  {
    seq(|groups|, i requires 0 <= i < |groups| => build(groups[i]).value)
  }

  /** Popping one motif off the end leaves the groups of the rest. */
  lemma GroupsStep(list: seq<int>, size: nat)
    requires 0 < size <= |list|
    ensures Groups(list, size) == [Reversed(list[|list| - size..])] + Groups(list[..|list| - size], size)
  {
    var top := Reversed(list[|list| - size..]);
    var rest := Reversed(list[..|list| - size]);
    assert Reversed(list) == top + rest;
    if rest == [] {
      assert Reversed(list) == top;
    } else {
      assert (top + rest)[..size] == top && (top + rest)[size..] == rest;
    }
  }

  lemma OutputsStep(build: Builder, g: seq<int>, gs: seq<seq<int>>)
    requires AllBuild(build, [g] + gs)
    ensures build(g).Ok? && AllBuild(build, gs)
    ensures Flatten(Outputs(build, [g] + gs)) == build(g).value + Flatten(Outputs(build, gs))
  {
    assert ([g] + gs)[0] == g;
    forall i | 0 <= i < |gs| ensures build(gs[i]).Ok? {
      assert ([g] + gs)[i + 1] == gs[i];
    }
    assert Outputs(build, [g] + gs) == [build(g).value] + Outputs(build, gs);
    FlattenCons(build(g).value, Outputs(build, gs));
  }

  /** One turn of the loop: the last `size` stubs, last first, are built. */
  lemma DrainStep(list: seq<int>, size: nat, builders: seq<Builder>, k: nat, acc: seq<Edge>, top: seq<int>, es: seq<Edge>)
    requires 0 < size <= |list| && k < |builders|
    requires top == Reversed(list[|list| - size..]) && builders[k](top) == Ok(es)
    ensures Drain(list, size, builders, k, acc) == Drain(list[..|list| - size], size, builders, k, acc + es)
  {
  }

  /** When the motif size divides the list and every builder call
      succeeds, draining adds the builders' edges group by group, the
      groups being the stubs taken from the end. */
  lemma {:induction false} DrainMeaning(list: seq<int>, size: nat, builders: seq<Builder>, k: nat, acc: seq<Edge>)
    requires size > 0 && |list| % size == 0 && k < |builders|
    requires AllBuild(builders[k], Groups(list, size))
    ensures Drain(list, size, builders, k, acc) == Ok(acc + Flatten(Outputs(builders[k], Groups(list, size))))
    decreases |list|
  {
    if list == [] {
      DrainEmpty(size, builders, k, acc);
    } else {
      var rest := list[..|list| - size];
      var es := DrainTurn(list, size, builders, k, acc);
      DrainMeaning(rest, size, builders, k, acc + es);
      var later, all := Flatten(Outputs(builders[k], Groups(rest, size))), Flatten(Outputs(builders[k], Groups(list, size)));
      assert all == es + later;
      AppendAssoc(acc, es, later);
    }
  }

  lemma DrainEmpty(size: nat, builders: seq<Builder>, k: nat, acc: seq<Edge>)
    requires size > 0 && k < |builders|
    ensures AllBuild(builders[k], Groups([], size))
    ensures Drain([], size, builders, k, acc) == Ok(acc + Flatten(Outputs(builders[k], Groups([], size))))
  {
    var none: seq<int> := [];
    assert Reversed(none) == [];
    assert Groups(none, size) == [];
    assert Outputs(builders[k], Groups(none, size)) == [];
    assert acc + Flatten(Outputs(builders[k], Groups(none, size))) == acc;
  }

  /** The first turn of a drain whose groups all build: the top group's
      edges come first, and the rest of the list still splits evenly. */
  lemma DrainTurn(list: seq<int>, size: nat, builders: seq<Builder>, k: nat, acc: seq<Edge>) returns (es: seq<Edge>)
    requires list != [] && size > 0 && |list| % size == 0 && k < |builders|
    requires AllBuild(builders[k], Groups(list, size))
    ensures size <= |list|
    ensures var rest := list[..|list| - size];
      |rest| % size == 0 && AllBuild(builders[k], Groups(rest, size))
      && Flatten(Outputs(builders[k], Groups(list, size))) == es + Flatten(Outputs(builders[k], Groups(rest, size)))
      && Drain(list, size, builders, k, acc) == Drain(rest, size, builders, k, acc + es)
  {
    if |list| < size {
      DivModUnique(|list|, size, 0, |list|);
    }
    var rest := list[..|list| - size];
    var top := Reversed(list[|list| - size..]);
    GroupsStep(list, size);
    DivShift(|rest|, size);
    OutputsStep(builders[k], top, Groups(rest, size));
    es := builders[k](top).value;
    DrainStep(list, size, builders, k, acc, top, es);
  }

  /** A stub count the motif size does not divide always ends in an
      exception: IndexError once the list runs out mid-motif, if no
      builder call raised first. */
  lemma {:induction false} DrainIndivisible(list: seq<int>, size: nat, builders: seq<Builder>, k: nat, acc: seq<Edge>)
    requires size > 0 && |list| % size != 0
    ensures Drain(list, size, builders, k, acc).Err?
    decreases |list|
  {
    if |list| >= size && k < |builders| {
      var rest := list[..|list| - size];
      DivShift(|rest|, size);
      var built := builders[k](Reversed(list[|list| - size..]));
      if built.Ok? {
        DrainIndivisible(rest, size, builders, k, acc + built.value);
      }
    }
  }

  /** The groups use every stub of the list exactly once. */
  lemma GroupsUseStubs(list: seq<int>, size: nat)
    requires size > 0
    ensures multiset(Flatten(Groups(list, size))) == multiset(list)
  {
    ChunksFlatten(Reversed(list), size);
    ReversedMultiset(list);
  }

  /** So, after the shuffle, node v takes part in exactly jds[v][k] of the
      motifs of topology k. */
  lemma DrainedStubCount(jds: Jds, shuffled: seq<seq<int>>, k: nat, size: nat, v: int)
    requires Shuffled(jds, shuffled) && k < |shuffled| && size > 0
    ensures multiset(Flatten(Groups(shuffled[k], size)))[v] == if 0 <= v < |jds| then jds[v][k] else 0
  {
    GroupsUseStubs(shuffled[k], size);
    ShuffledCount(jds, shuffled, k, v);
  }
}
