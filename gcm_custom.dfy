// The custom-motif generator. Every joint-degree column is an orbit slot
// of some motif type; each stub list is shuffled and cut into partitions
// of its slot size, and a motif of type j takes the last remaining
// partition of each of its slots, in slot order. Its edges, their names
// and one motif id per edge are appended to a light-weight edge list.

module GcmCustomMotifs {
  import opened Common
  import opened Stubs
  import G = Graphs

  type Edge = G.Edge

  /** What a builder callback returns: the 2-clique builder returns a bare
      vertex pair, the others a tuple of edges. Python's `len` of a bare
      pair is 2. */
  datatype Built = Pair(e: Edge) | EdgeTuple(es: seq<Edge>)

  function BuiltLen(b: Built): nat
  {
    match b
    case Pair(_) => 2
    case EdgeTuple(es) => |es|
  }

  /** What a names callback returns: one string, or a tuple of strings. */
  datatype Names = Name(s: string) | NameTuple(ns: seq<string>)

  function NamesLen(n: Names): nat
  {
    match n
    case Name(s) => |s|
    case NameTuple(ns) => |ns|
  }

  /** An entry of `edge_list`: one edge, or a result of length two stored
      whole as one entry. */
  datatype Entry = Single(e: Edge) | Whole(es: seq<Edge>)

  /** An entry of `topologies`: one string, or a tuple of names stored
      whole as one entry. */
  datatype Topology = Topo(s: string) | TopoTuple(ns: seq<string>)

  /** `LightWeightEdgeList` */
  datatype EdgeList = EdgeList(edgeList: seq<Entry>, topologies: seq<Topology>, jointDegrees: Jds, motifId: seq<nat>)

  /** `motif_sizes`, `build_functions`, `edge_names` (callbacks without
      arguments, so each is represented by the value it returns) and
      `motif_indices`, the slots of each motif type. */
  datatype Config = Config(
    motifSizes: seq<nat>,
    builders: seq<seq<int> -> Result<Built>>,
    names: seq<Names>,
    motifIndices: seq<seq<nat>>)

  // ----- partition -----

  /** `partition(lst, n)`: the slices lst[i : i + n] for i in
      range(0, len(lst), n); a zero step makes `range` raise ValueError. */
  function Partition<T>(lst: seq<T>, n: nat): (r: Result<seq<seq<T>>>)
    ensures r.Err? <==> n == 0
  {
    if n == 0 then Err(ValueError) else Ok(Chunks(lst, n))
  }

  /** The slices concatenate back to the list; there are ceil(len / n) of
      them, all of length n except possibly a shorter, non-empty last one. */
  lemma PartitionMeaning<T>(lst: seq<T>, n: nat)
    requires n > 0
    ensures Flatten(Partition(lst, n).value) == lst
    ensures |Partition(lst, n).value| == (|lst| + n - 1) / n
    ensures forall i :: 0 <= i < |Partition(lst, n).value| ==> 0 < |Partition(lst, n).value[i]| <= n
    ensures forall i :: 0 <= i < |Partition(lst, n).value| - 1 ==> |Partition(lst, n).value[i]| == n
  {
    ChunksFlatten(lst, n);
    ChunksCount(lst, n);
    ChunksSizes(lst, n);
  }

  /** The last slice, the first one `pop` takes, is the remainder
      len % n when n does not divide the length. */
  lemma {:induction false} PartitionLast<T>(lst: seq<T>, n: nat)
    requires n > 0 && lst != []
    ensures var p := Partition(lst, n).value;
      p != [] && |p[|p| - 1]| == if |lst| % n == 0 then n else |lst| % n
    decreases |lst|
  {
    if |lst| <= n {
      if |lst| < n {
        DivModUnique(|lst|, n, 0, |lst|);
      } else {
        DivModUnique(|lst|, n, 1, 0);
      }
    } else {
      PartitionLast(lst[n..], n);
      DivShift(|lst| - n, n);
    }
  }

  /** The partitions of every stub list, in topology order. */
  function Partitions(sizes: seq<nat>, stubs: seq<seq<int>>): Result<seq<seq<seq<int>>>>
  {
    if stubs == [] then Ok([])
    else
      match Partitions(sizes, stubs[..|stubs| - 1])
      case Err(e) => Err(e)
      case Ok(ps) =>
        var k := |stubs| - 1;
        if k >= |sizes| then Err(IndexError)
        else
          match Partition(stubs[k], sizes[k])
          case Err(e) => Err(e)
          case Ok(p) => Ok(ps + [p])
  }

  /** A failure on a prefix of the stub lists is the failure of the whole. */
  lemma {:induction false} PartitionsPrefixErr(sizes: seq<nat>, stubs: seq<seq<int>>, i: nat)
    requires i <= |stubs| && Partitions(sizes, stubs[..i]).Err?
    ensures Partitions(sizes, stubs) == Partitions(sizes, stubs[..i])
    decreases |stubs| - i
  {
    if i < |stubs| {
      assert stubs[..i + 1][..i] == stubs[..i];
      PartitionsPrefixErr(sizes, stubs, i + 1);
    } else {
      assert stubs[..i] == stubs;
    }
  }

  lemma {:induction false} PartitionsShape(sizes: seq<nat>, stubs: seq<seq<int>>)
    requires Partitions(sizes, stubs).Ok?
    ensures |Partitions(sizes, stubs).value| == |stubs| <= |sizes|
    ensures forall k :: 0 <= k < |stubs| ==> sizes[k] > 0 && Partitions(sizes, stubs).value[k] == Chunks(stubs[k], sizes[k])
  {
    if stubs != [] {
      PartitionsShape(sizes, stubs[..|stubs| - 1]);
    }
  }

  // ----- one motif -----

  /** The vertices of one motif: for each slot index in order, the last
      remaining partition of that slot is popped and its vertices
      appended. An index past the slots, or a slot with nothing left,
      raises IndexError. */
  function TakeVertices(parts: seq<seq<seq<int>>>, idx: seq<nat>, acc: seq<int>): Result<(seq<int>, seq<seq<seq<int>>>)>
    decreases |idx|
  {
    if idx == [] then Ok((acc, parts))
    else
      var i := idx[0];
      if i >= |parts| || parts[i] == [] then Err(IndexError)
      else
        var last := parts[i][|parts[i]| - 1];
        TakeVertices(parts[i := parts[i][..|parts[i]| - 1]], idx[1..], acc + last)
  }

  /** Every slot index is in range and its slot has a partition left. */
  predicate Available(parts: seq<seq<seq<int>>>, idx: seq<nat>)
  {
    forall t :: 0 <= t < |idx| ==> idx[t] < |parts| && parts[idx[t]] != []
  }

  /** The last partition of each of the given slots, in slot order. */
  function LastOf(parts: seq<seq<seq<int>>>, idx: seq<nat>): seq<seq<int>>
    requires Available(parts, idx)
  {
    seq(|idx|, t requires 0 <= t < |idx| => parts[idx[t]][|parts[idx[t]]| - 1])
  }

  /** The partitions after popping once from each of the given slots. */
  function Popped(parts: seq<seq<seq<int>>>, idx: seq<nat>): seq<seq<seq<int>>>
    requires Available(parts, idx)
  {
    seq(|parts|, s requires 0 <= s < |parts| => if s in idx then parts[s][..|parts[s]| - 1] else parts[s])
  }

  /** Popping slot i first, then the others, when i is not among them. */
  lemma AvailableRest(parts: seq<seq<seq<int>>>, idx: seq<nat>)
    requires Available(parts, idx) && idx != [] && NoDuplicates(idx)
    ensures var i := idx[0];
      var parts' := parts[i := parts[i][..|parts[i]| - 1]];
      NoDuplicates(idx[1..]) && i !in idx[1..] && Available(parts', idx[1..])
      && LastOf(parts, idx) == [parts[i][|parts[i]| - 1]] + LastOf(parts', idx[1..])
      && Popped(parts, idx) == Popped(parts', idx[1..])
  {
    var i := idx[0];
    var parts' := parts[i := parts[i][..|parts[i]| - 1]];
    var rest := idx[1..];
    forall a, b | 0 <= a < b < |rest| ensures rest[a] != rest[b] {
      assert rest[a] == idx[a + 1] && rest[b] == idx[b + 1];
    }
    forall t | 0 <= t < |rest| ensures rest[t] != i && rest[t] < |parts'| && parts'[rest[t]] == parts[rest[t]] {
      assert rest[t] == idx[t + 1];
    }
    assert Available(parts', rest);
    assert LastOf(parts, idx) == [parts[i][|parts[i]| - 1]] + LastOf(parts', rest);
    forall s | 0 <= s < |parts| ensures Popped(parts, idx)[s] == Popped(parts', rest)[s] {
      assert s in idx <==> s == i || s in rest;
    }
  }

  /** For distinct slots that all have a partition left, the motif's
      vertices are the concatenation of their last partitions, and each
      of those slots loses exactly that partition. */
  lemma {:induction false} TakeVerticesMeaning(parts: seq<seq<seq<int>>>, idx: seq<nat>, acc: seq<int>)
    requires NoDuplicates(idx) && Available(parts, idx)
    ensures TakeVertices(parts, idx, acc) == Ok((acc + Flatten(LastOf(parts, idx)), Popped(parts, idx)))
    decreases |idx|
  {
    if idx == [] {
      assert LastOf(parts, idx) == [];
      assert acc + Flatten(LastOf(parts, idx)) == acc;
      assert Popped(parts, idx) == parts;
    } else {
      var i := idx[0];
      var last := parts[i][|parts[i]| - 1];
      var parts' := parts[i := parts[i][..|parts[i]| - 1]];
      AvailableRest(parts, idx);
      TakeVerticesMeaning(parts', idx[1..], acc + last);
      FlattenCons(last, LastOf(parts', idx[1..]));
      assert acc + last + Flatten(LastOf(parts', idx[1..])) == acc + Flatten(LastOf(parts, idx));
    }
  }

  /** `edge_list.extend(...)` and `topologies.extend(...)` for one motif:
      a result of length two is stored as one entry with the whole names
      value as one topology; any other result adds its edges one by one
      and `extend` adds the names one by one (the characters, for a single
      string). */
  function Append(out: EdgeList, b: Built, names: Names): EdgeList
  {
    if BuiltLen(b) == 2 then
      var entry := match b case Pair(e) => Single(e) case EdgeTuple(es) => Whole(es);
      var topo := match names case Name(s) => Topo(s) case NameTuple(ns) => TopoTuple(ns);
      out.(edgeList := out.edgeList + [entry], topologies := out.topologies + [topo])
    else
      var es := b.es;
      var topos := match names
        case Name(s) => seq(|s|, c requires 0 <= c < |s| => Topo([s[c]]))
        case NameTuple(ns) => seq(|ns|, c requires 0 <= c < |ns| => Topo(ns[c]));
      out.(edgeList := out.edgeList + seq(|es|, c requires 0 <= c < |es| => Single(es[c])),
           topologies := out.topologies + topos)
  }

  /** What the generator carries from motif to motif: the partitions left,
      the edge list so far and the next motif id. */
  datatype State = State(parts: seq<seq<seq<int>>>, out: EdgeList, nextId: nat)

  /** One motif of type j: its vertices, its edges, one fresh id repeated
      once per edge, then its names. */
  function PlaceOne(cfg: Config, j: nat, st: State): Result<State>
    requires j < |cfg.motifIndices|
  {
    match TakeVertices(st.parts, cfg.motifIndices[j], [])
    case Err(e) => Err(e)
    case Ok((vs, parts)) =>
      if j >= |cfg.builders| then Err(IndexError)
      else
        match cfg.builders[j](vs)
        case Err(e) => Err(e)
        case Ok(b) =>
          if j >= |cfg.names| then Err(IndexError)
          else
            var out := Append(st.out, b, cfg.names[j]);
            Ok(State(parts, out.(motifId := st.out.motifId + Repeat(st.nextId, BuiltLen(b))), st.nextId + 1))
  }

  /** n motifs of type j. */
  function PlaceMany(cfg: Config, j: nat, n: nat, st: State): Result<State>
    requires j < |cfg.motifIndices|
  {
    if n == 0 then Ok(st)
    else
      match PlaceOne(cfg, j, st)
      case Err(e) => Err(e)
      case Ok(next) => PlaceMany(cfg, j, n - 1, next)
  }

  /** `int((0.0 + len(stubs[kk])) / motif_sizes[kk])` for the first slot
      kk of a motif type. */
  function MotifCount(cfg: Config, stubs: seq<seq<int>>, j: nat): Result<nat>
    requires j < |cfg.motifIndices|
  {
    var idx := cfg.motifIndices[j];
    if idx == [] || idx[0] >= |stubs| || idx[0] >= |cfg.motifSizes| then Err(IndexError)
    else if cfg.motifSizes[idx[0]] == 0 then Err(ZeroDivisionError)
    else Ok(|stubs[idx[0]]| / cfg.motifSizes[idx[0]])
  }

  /** The motif types from j on. */
  function PlaceTypes(cfg: Config, stubs: seq<seq<int>>, j: nat, st: State): Result<State>
    requires j <= |cfg.motifIndices|
    decreases |cfg.motifIndices| - j
  {
    if j == |cfg.motifIndices| then Ok(st)
    else
      match MotifCount(cfg, stubs, j)
      case Err(e) => Err(e)
      case Ok(n) =>
        match PlaceMany(cfg, j, n, st)
        case Err(e) => Err(e)
        case Ok(next) => PlaceTypes(cfg, stubs, j + 1, next)
  }

  /** The edge list `random_clustered_graph` returns for given shuffles,
      with motif ids drawn from firstId on. */
  function Generated(cfg: Config, jds: Jds, stubs: seq<seq<int>>, firstId: nat): Result<EdgeList>
  {
    match Partitions(cfg.motifSizes, stubs)
    case Err(e) => Err(e)
    case Ok(parts) =>
      match PlaceTypes(cfg, stubs, 0, State(parts, EdgeList([], [], jds, []), firstId))
      case Err(e) => Err(e)
      case Ok(st) => Ok(st.out)
  }

  // ----- the generator -----

  /** `GCMAlgorithmCustomMotifs.random_clustered_graph(jds)`, described as
      if the object could be built and had an id generator: as written the
      constructor's `super().__init__(params)` raises TypeError (the base
      constructor needs at least two arguments), and `infinite_sequence` is not
      defined anywhere. The id sequence is a counter starting at firstId;
      the shuffles made are returned alongside the result. */
  method RandomClusteredGraph(cfg: Config, jds: Jds, firstId: nat) returns (r: Result<EdgeList>, ghost stubs: seq<seq<int>>)
    ensures Shuffled(jds, stubs)
    ensures r == Generated(cfg, jds, stubs, firstId)
  {
    var shuffled := ShuffledStubs(jds);
    stubs := shuffled;
    var partitions := MakePartitions(cfg.motifSizes, shuffled);
    if partitions.Err? {
      return Err(partitions.error), stubs;
    }
    var start := State(partitions.value, EdgeList([], [], jds, []), firstId);
    var placed := PlaceAllTypes(cfg, shuffled, start);
    if placed.Err? {
      return Err(placed.error), stubs;
    }
    r := Ok(placed.value.out);
  }

  /** The motif types, one after another. */
  method PlaceAllTypes(cfg: Config, stubs: seq<seq<int>>, start: State) returns (r: Result<State>)
    ensures r == PlaceTypes(cfg, stubs, 0, start)
  {
    var st := start;
    for j := 0 to |cfg.motifIndices|
      invariant PlaceTypes(cfg, stubs, 0, start) == PlaceTypes(cfg, stubs, j, st)
    {
      var n := MotifCount(cfg, stubs, j);
      if n.Err? {
        return Err(n.error);
      }
      var placed := PlaceType(cfg, j, n.value, st);
      if placed.Err? {
        return Err(placed.error);
      }
      st := placed.value;
    }
    r := Ok(st);
  }

  /** One `partition` per stub list. */
  method MakePartitions(sizes: seq<nat>, stubs: seq<seq<int>>) returns (r: Result<seq<seq<seq<int>>>>)
    ensures r == Partitions(sizes, stubs)
  {
    var partitions: seq<seq<seq<int>>> := [];
    for i := 0 to |stubs|
      invariant Partitions(sizes, stubs[..i]) == Ok(partitions)
    {
      assert stubs[..i + 1][..i] == stubs[..i];
      if i >= |sizes| {
        PartitionsPrefixErr(sizes, stubs, i + 1);
        return Err(IndexError);
      }
      var p := Partition(stubs[i], sizes[i]);
      if p.Err? {
        PartitionsPrefixErr(sizes, stubs, i + 1);
        return Err(p.error);
      }
      partitions := partitions + [p.value];
    }
    assert stubs[..|stubs|] == stubs;
    r := Ok(partitions);
  }

  /** The motifs of one type, one after another. */
  method PlaceType(cfg: Config, j: nat, n: nat, st0: State) returns (r: Result<State>)
    requires j < |cfg.motifIndices|
    ensures r == PlaceMany(cfg, j, n, st0)
  {
    var st := st0;
    for k := 0 to n
      invariant PlaceMany(cfg, j, n, st0) == PlaceMany(cfg, j, n - k, st)
    {
      var placed := PlaceMotif(cfg, j, st);
      if placed.Err? {
        return placed;
      }
      st := placed.value;
    }
    r := Ok(st);
  }

  /** One motif: the partitions are popped slot by slot, the builder is
      called and its edges, ids and names appended. */
  method PlaceMotif(cfg: Config, j: nat, st: State) returns (r: Result<State>)
    requires j < |cfg.motifIndices|
    ensures r == PlaceOne(cfg, j, st)
  {
    var idx := cfg.motifIndices[j];
    var parts := st.parts;
    var vertices: seq<int> := [];
    for t := 0 to |idx|
      invariant TakeVertices(st.parts, idx, []) == TakeVertices(parts, idx[t..], vertices)
    {
      assert idx[t..][1..] == idx[t + 1..];
      var i := idx[t];
      if i >= |parts| || parts[i] == [] {
        return Err(IndexError);
      }
      vertices := vertices + parts[i][|parts[i]| - 1];
      parts := parts[i := parts[i][..|parts[i]| - 1]];
    }
    if j >= |cfg.builders| {
      return Err(IndexError);
    }
    var built := cfg.builders[j](vertices);
    if built.Err? {
      return Err(built.error);
    }
    var b := built.value;
    var motifId := st.out.motifId + Repeat(st.nextId, BuiltLen(b));
    if j >= |cfg.names| {
      return Err(IndexError);
    }
    var out := Append(st.out, b, cfg.names[j]);
    r := Ok(State(parts, out.(motifId := motifId), st.nextId + 1));
  }

  // ----- what the edge list satisfies -----

  /** A result of length two adds one entry and one topology but two motif
      ids, so `motif_id` runs ahead of `edge_list` by one per such motif. */
  lemma PairMotifIds(cfg: Config, j: nat, st: State)
    requires j < |cfg.motifIndices|
    requires PlaceOne(cfg, j, st).Ok?
    requires TakeVertices(st.parts, cfg.motifIndices[j], []).Ok?
    requires BuiltLen(cfg.builders[j](TakeVertices(st.parts, cfg.motifIndices[j], []).value.0).value) == 2
    ensures var out := PlaceOne(cfg, j, st).value.out;
      |out.edgeList| == |st.out.edgeList| + 1
      && |out.topologies| == |st.out.topologies| + 1
      && |out.motifId| == |st.out.motifId| + 2
  {
  }

  /** Each names callback gives one name per edge of its builder's result
      whenever that result does not have length two. */
  ghost predicate NamesMatch(cfg: Config)
  {
    forall j, vs :: 0 <= j < |cfg.builders| && j < |cfg.names| && cfg.builders[j](vs).Ok? ==>
      BuiltLen(cfg.builders[j](vs).value) == 2
      || (cfg.builders[j](vs).value.EdgeTuple? && NamesLen(cfg.names[j]) == BuiltLen(cfg.builders[j](vs).value))
  }

  /** `len(edge_list) - len(topologies)`, kept by every motif. */
  function Skew(out: EdgeList): int
  {
    |out.edgeList| - |out.topologies|
  }

  lemma PlaceOneSkew(cfg: Config, j: nat, st: State)
    requires j < |cfg.motifIndices| && NamesMatch(cfg)
    requires PlaceOne(cfg, j, st).Ok?
    ensures Skew(PlaceOne(cfg, j, st).value.out) == Skew(st.out)
  {
    var vs := TakeVertices(st.parts, cfg.motifIndices[j], []).value.0;
    var b := cfg.builders[j](vs).value;
    assert BuiltLen(b) == 2 || (b.EdgeTuple? && NamesLen(cfg.names[j]) == BuiltLen(b));
  }

  lemma {:induction false} PlaceManySkew(cfg: Config, j: nat, n: nat, st: State)
    requires j < |cfg.motifIndices| && NamesMatch(cfg)
    requires PlaceMany(cfg, j, n, st).Ok?
    ensures Skew(PlaceMany(cfg, j, n, st).value.out) == Skew(st.out)
  {
    if n > 0 {
      PlaceOneSkew(cfg, j, st);
      PlaceManySkew(cfg, j, n - 1, PlaceOne(cfg, j, st).value);
    }
  }

  lemma {:induction false} PlaceTypesSkew(cfg: Config, stubs: seq<seq<int>>, j: nat, st: State)
    requires j <= |cfg.motifIndices| && NamesMatch(cfg)
    requires PlaceTypes(cfg, stubs, j, st).Ok?
    ensures Skew(PlaceTypes(cfg, stubs, j, st).value.out) == Skew(st.out)
    decreases |cfg.motifIndices| - j
  {
    if j < |cfg.motifIndices| {
      var n := MotifCount(cfg, stubs, j).value;
      PlaceManySkew(cfg, j, n, st);
      PlaceTypesSkew(cfg, stubs, j + 1, PlaceMany(cfg, j, n, st).value);
    }
  }

  /** When every names callback matches its builder's edge count,
      `edge_list` and `topologies` come out of equal length. */
  lemma EdgesMatchTopologies(cfg: Config, jds: Jds, stubs: seq<seq<int>>, firstId: nat)
    requires NamesMatch(cfg) && Generated(cfg, jds, stubs, firstId).Ok?
    ensures |Generated(cfg, jds, stubs, firstId).value.edgeList| == |Generated(cfg, jds, stubs, firstId).value.topologies|
  {
    var parts := Partitions(cfg.motifSizes, stubs).value;
    PlaceTypesSkew(cfg, stubs, 0, State(parts, EdgeList([], [], jds, []), firstId));
  }

  /** Every motif id used so far lies in [firstId, nextId). */
  predicate IdsBelow(st: State, firstId: nat)
  {
    forall k :: 0 <= k < |st.out.motifId| ==> firstId <= st.out.motifId[k] < st.nextId
  }

  /** One motif takes the next id, so the id it writes was never used
      before; every edge of the motif carries it. */
  lemma PlaceOneIds(cfg: Config, j: nat, st: State, firstId: nat)
    requires j < |cfg.motifIndices| && firstId <= st.nextId && IdsBelow(st, firstId)
    requires PlaceOne(cfg, j, st).Ok?
    ensures var next := PlaceOne(cfg, j, st).value;
      next.nextId == st.nextId + 1 && IdsBelow(next, firstId)
      && st.nextId !in st.out.motifId
      && next.out.motifId[..|st.out.motifId|] == st.out.motifId
      && forall k :: |st.out.motifId| <= k < |next.out.motifId| ==> next.out.motifId[k] == st.nextId
  {
    var next := PlaceOne(cfg, j, st).value;
    var vs := TakeVertices(st.parts, cfg.motifIndices[j], []).value.0;
    var b := cfg.builders[j](vs).value;
    assert next.out.motifId == st.out.motifId + Repeat(st.nextId, BuiltLen(b));
  }

  lemma {:induction false} PlaceManyIds(cfg: Config, j: nat, n: nat, st: State, firstId: nat)
    requires j < |cfg.motifIndices| && firstId <= st.nextId && IdsBelow(st, firstId)
    requires PlaceMany(cfg, j, n, st).Ok?
    ensures PlaceMany(cfg, j, n, st).value.nextId == st.nextId + n
    ensures IdsBelow(PlaceMany(cfg, j, n, st).value, firstId)
  {
    if n > 0 {
      PlaceOneIds(cfg, j, st, firstId);
      PlaceManyIds(cfg, j, n - 1, PlaceOne(cfg, j, st).value, firstId);
    }
  }

  /** The number of motifs the types from j on build:
      floor(len(stubs[kk]) / motif_sizes[kk]) for each type. */
  function TotalMotifs(cfg: Config, stubs: seq<seq<int>>, j: nat): nat
    requires j <= |cfg.motifIndices|
    decreases |cfg.motifIndices| - j
  {
    if j == |cfg.motifIndices| then 0
    else
      match MotifCount(cfg, stubs, j)
      case Err(_) => 0
      case Ok(n) => n + TotalMotifs(cfg, stubs, j + 1)
  }

  lemma {:induction false} PlaceTypesIds(cfg: Config, stubs: seq<seq<int>>, j: nat, st: State, firstId: nat)
    requires j <= |cfg.motifIndices| && firstId <= st.nextId && IdsBelow(st, firstId)
    requires PlaceTypes(cfg, stubs, j, st).Ok?
    ensures PlaceTypes(cfg, stubs, j, st).value.nextId == st.nextId + TotalMotifs(cfg, stubs, j)
    ensures IdsBelow(PlaceTypes(cfg, stubs, j, st).value, firstId)
    decreases |cfg.motifIndices| - j
  {
    if j < |cfg.motifIndices| {
      var n := MotifCount(cfg, stubs, j).value;
      PlaceManyIds(cfg, j, n, st, firstId);
      PlaceTypesIds(cfg, stubs, j + 1, PlaceMany(cfg, j, n, st).value, firstId);
    }
  }

  /** A successful run draws exactly one id per motif, the motifs of each
      type numbering floor(len(stubs[kk]) / motif_sizes[kk]); every id in
      `motif_id` is one of those drawn. */
  lemma GeneratedIds(cfg: Config, jds: Jds, stubs: seq<seq<int>>, firstId: nat)
    requires Generated(cfg, jds, stubs, firstId).Ok?
    ensures var parts := Partitions(cfg.motifSizes, stubs).value;
      var st := PlaceTypes(cfg, stubs, 0, State(parts, EdgeList([], [], jds, []), firstId)).value;
      st.nextId == firstId + TotalMotifs(cfg, stubs, 0)
      && forall k :: 0 <= k < |st.out.motifId| ==> firstId <= st.out.motifId[k] < firstId + TotalMotifs(cfg, stubs, 0)
  {
    var parts := Partitions(cfg.motifSizes, stubs).value;
    PlaceTypesIds(cfg, stubs, 0, State(parts, EdgeList([], [], jds, []), firstId), firstId);
  }

  /** The joint degree sequence is stored unchanged. */
  lemma GeneratedKeepsJds(cfg: Config, jds: Jds, stubs: seq<seq<int>>, firstId: nat)
    requires Generated(cfg, jds, stubs, firstId).Ok?
    ensures Generated(cfg, jds, stubs, firstId).value.jointDegrees == jds
  {
    var parts := Partitions(cfg.motifSizes, stubs).value;
    JdsKept(cfg, stubs, 0, State(parts, EdgeList([], [], jds, []), firstId));
  }

  lemma {:induction false} JdsKept(cfg: Config, stubs: seq<seq<int>>, j: nat, st: State)
    requires j <= |cfg.motifIndices|
    requires PlaceTypes(cfg, stubs, j, st).Ok?
    ensures PlaceTypes(cfg, stubs, j, st).value.out.jointDegrees == st.out.jointDegrees
    decreases |cfg.motifIndices| - j
  {
    if j < |cfg.motifIndices| {
      var n := MotifCount(cfg, stubs, j).value;
      ManyKeepJds(cfg, j, n, st);
      JdsKept(cfg, stubs, j + 1, PlaceMany(cfg, j, n, st).value);
    }
  }

  lemma {:induction false} ManyKeepJds(cfg: Config, j: nat, n: nat, st: State)
    requires j < |cfg.motifIndices|
    requires PlaceMany(cfg, j, n, st).Ok?
    ensures PlaceMany(cfg, j, n, st).value.out.jointDegrees == st.out.jointDegrees
  {
    if n > 0 {
      ManyKeepJds(cfg, j, n - 1, PlaceOne(cfg, j, st).value);
    }
  }
}
