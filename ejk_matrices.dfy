// The target correlation matrices of the rewiring engine: one map per edge
// topology from a joint excess joint-degree key (the two endpoint tuples
// concatenated) to its probability, the ordered topology names, and the
// distinct endpoint halves of the keys of every matrix.

module EjkMatrices {
  import opened Common

  type Key = seq<int>

  /** The first half of a key: `key[:len(key) // 2]`. */
  function FirstHalf(key: Key): (r: Key)
    ensures |r| == |key| / 2
    ensures key == r + SecondHalf(key)
  {
    key[..|key| / 2]
  }

  /** The second half, one longer than the first for odd-length keys. */
  function SecondHalf(key: Key): (r: Key)
    ensures |r| == |key| - |key| / 2
    ensures |key| % 2 == 1 ==> |r| == |key| / 2 + 1
  {
    key[|key| / 2..]
  }

  /** The distinct halves of the keys of one matrix. */
  function Halves(m: map<Key, real>): set<Key>
  {
    HalvesOf(m.Keys)
  }

  function HalvesOf(keys: set<Key>): set<Key>
  {
    (set k | k in keys :: FirstHalf(k)) + (set k | k in keys :: SecondHalf(k))
  }

  lemma HalvesOfAdd(keys: set<Key>, key: Key)
    ensures HalvesOf(keys + {key}) == HalvesOf(keys) + {FirstHalf(key), SecondHalf(key)}
  {
    var a := HalvesOf(keys + {key});
    var b := HalvesOf(keys) + {FirstHalf(key), SecondHalf(key)};
    forall h | h in a ensures h in b {
      var k :| k in keys + {key} && (h == FirstHalf(k) || h == SecondHalf(k));
    }
  }

  /** The inner loop of `get_excess_degree_keys`: both halves of every key
      of one matrix, collected into a set. */
  method CollectHalves(m: map<Key, real>) returns (keySet: set<Key>)
    ensures keySet == Halves(m)
  {
    keySet := {};
    var ks := m.Keys;
    while ks != {}
      invariant ks <= m.Keys
      invariant keySet == HalvesOf(m.Keys - ks)
      decreases |ks|
    {
      var key :| key in ks;
      HalvesOfAdd(m.Keys - ks, key);
      keySet := keySet + {FirstHalf(key), SecondHalf(key)};
      assert m.Keys - (ks - {key}) == (m.Keys - ks) + {key};
      ks := ks - {key};
    }
    assert m.Keys - ks == m.Keys;
  }

  /** The position of the first occurrence of `topology` in `names`. When it
      is absent the source raises a formatted string, which is a TypeError,
      unless `names` is empty: then the loop variable interpolated into the
      message was never bound, which is a NameError. */
  function TopologyIndex(names: seq<string>, topology: string): (r: Result<nat>)
    ensures r.Ok? <==> topology in names
    ensures r.Ok? ==> r.value < |names| && names[r.value] == topology
                      && forall j :: 0 <= j < r.value ==> names[j] != topology
    ensures r.Err? ==> r.error == (if names == [] then NameError else TypeError)
  {
    if names == [] then Err(NameError) else FirstIndex(names, topology, 0)
  }

  function FirstIndex(names: seq<string>, topology: string, from: nat): (r: Result<nat>)
    requires from <= |names| && names != []
    requires forall j :: 0 <= j < from ==> names[j] != topology
    ensures r.Ok? <==> topology in names
    ensures r.Ok? ==> r.value < |names| && names[r.value] == topology
                      && forall j :: 0 <= j < r.value ==> names[j] != topology
    ensures r.Err? ==> r.error == TypeError
    decreases |names| - from
  {
    if from == |names| then Err(TypeError)
    else if names[from] == topology then Ok(from)
    else FirstIndex(names, topology, from + 1)
  }

  /** `list(some_set)`: the elements of a finite set in some order. */
  method SetToList<T>(s: set<T>) returns (r: seq<T>)
    ensures NoDuplicates(r)
    ensures forall x :: x in r <==> x in s
  {
    r := [];
    var rest := s;
    while rest != {}
      invariant NoDuplicates(r)
      invariant forall x :: x in r <==> x in s - rest
      invariant rest <= s
      decreases |rest|
    {
      var x :| x in rest;
      assert x !in r;
      r := r + [x];
      rest := rest - {x};
    }
  }

  class JointExcessJointDegreeMatrices {
    var ejks: map<string, map<Key, real>>
    var excessDegreeKeys: map<string, seq<Key>>
    var topologyNames: seq<string>

    /** The key lists hold, per topology of `ejks`, the distinct halves of
        that topology's keys. */
    ghost predicate KeysComputed()
      reads this
    {
      excessDegreeKeys.Keys == ejks.Keys
      && forall t :: t in excessDegreeKeys ==>
           NoDuplicates(excessDegreeKeys[t])
           && forall k :: k in excessDegreeKeys[t] <==> k in Halves(ejks[t])
    }

    /** Without parameters everything stays empty; with them the matrices
        and names are stored and the key lists computed. */
    constructor (params: Option<(map<string, map<Key, real>>, seq<string>)>)
      ensures KeysComputed()
      ensures params.None? ==> ejks == map[] && topologyNames == [] && excessDegreeKeys == map[]
      ensures params.Some? ==> ejks == params.value.0 && topologyNames == params.value.1
    {
      ejks := map[];
      excessDegreeKeys := map[];
      topologyNames := [];
      new;
      if params.Some? {
        ejks := params.value.0;
        topologyNames := params.value.1;
        GetExcessDegreeKeys();
      }
    }

    method GetTopologyIndex(topology: string) returns (r: Result<nat>)
      ensures r == TopologyIndex(topologyNames, topology)
    {
      r := TopologyIndex(topologyNames, topology);
    }

    /** Recomputes the key lists from scratch, one topology of `ejks` at a
        time. */
    method GetExcessDegreeKeys()
      modifies this`excessDegreeKeys
      ensures KeysComputed()
    {
      excessDegreeKeys := map[];
      var todo := ejks.Keys;
      while todo != {}
        invariant todo <= ejks.Keys
        invariant excessDegreeKeys.Keys == ejks.Keys - todo
        invariant forall t :: t in excessDegreeKeys ==>
           NoDuplicates(excessDegreeKeys[t])
           && forall k :: k in excessDegreeKeys[t] <==> k in Halves(ejks[t])
        decreases |todo|
      {
        var topology :| topology in todo;
        var keySet := CollectHalves(ejks[topology]);
        var lst := SetToList(keySet);
        excessDegreeKeys := excessDegreeKeys[topology := lst];
        todo := todo - {topology};
      }
    }
  }
}
