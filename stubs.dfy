// Stub lists of the configuration-model generators. A joint degree
// sequence gives every vertex n a row of motif counts; the stub list of
// topology k holds n once per motif of topology k that n belongs to, and
// the generators shuffle each stub list before cutting it into motifs.

module Stubs {
  import opened Common

  /** A joint degree sequence: one row of per-topology counts per vertex.
      Counts are non-negative (a negative count would repeat a vertex zero
      times, which the type excludes). */
  type Jds = seq<seq<nat>>

  /** The number of columns `zip(*jds)` yields: the length of the shortest
      row, and none for an empty sequence. */
  function Columns<T>(jds: seq<seq<T>>): (c: nat)
    ensures forall n :: 0 <= n < |jds| ==> c <= |jds[n]|
    ensures jds != [] ==> exists n :: 0 <= n < |jds| && c == |jds[n]|
    ensures jds == [] ==> c == 0
  {
    if jds == [] then 0
    else if |jds| == 1 then |jds[0]|
    else
      var c := Columns(jds[..|jds| - 1]);
      var last := |jds[|jds| - 1]|;
      assert forall n :: 0 <= n < |jds| - 1 ==> jds[n] == jds[..|jds| - 1][n];
      if last < c then last else c
  }

  /** Every row has an entry k. */
  predicate HasColumn<T>(jds: seq<seq<T>>, k: nat)
  {
    forall n :: 0 <= n < |jds| ==> k < |jds[n]|
  }

  /** `chain(*starmap(repeat, enumerate(column k)))`: vertex n repeated
      jds[n][k] times, vertices in increasing order. */
  function Stub(jds: Jds, k: nat): seq<int>
    requires HasColumn(jds, k)
  {
    if jds == [] then []
    else
      var init := jds[..|jds| - 1];
      assert HasColumn(init, k) by {
        forall n | 0 <= n < |init| ensures k < |init[n]| {
          assert init[n] == jds[n];
        }
      }
      Stub(init, k) + Repeat(|jds| - 1, jds[|jds| - 1][k])
  }

  /** Vertex v occurs in stub list k exactly jds[v][k] times, and nothing
      but a vertex of the sequence occurs at all. */
  lemma {:induction false} StubCount(jds: Jds, k: nat, v: int)
    requires HasColumn(jds, k)
    ensures multiset(Stub(jds, k))[v] == if 0 <= v < |jds| then jds[v][k] else 0
    decreases |jds|
  {
    if jds != [] {
      var init := jds[..|jds| - 1];
      assert HasColumn(init, k) by {
        forall n | 0 <= n < |init| ensures k < |init[n]| {
          assert init[n] == jds[n];
        }
      }
      StubCount(init, k, v);
      RepeatMultiset(|jds| - 1, jds[|jds| - 1][k]);
      if 0 <= v < |jds| - 1 {
        assert init[v] == jds[v];
      }
    }
  }

  /** The column sum S_k: the number of stubs of topology k. */
  function ColumnSum(jds: Jds, k: nat): nat
    requires HasColumn(jds, k)
  {
    if jds == [] then 0
    else
      var init := jds[..|jds| - 1];
      assert HasColumn(init, k) by {
        forall n | 0 <= n < |init| ensures k < |init[n]| {
          assert init[n] == jds[n];
        }
      }
      ColumnSum(init, k) + jds[|jds| - 1][k]
  }

  lemma {:induction false} StubLength(jds: Jds, k: nat)
    requires HasColumn(jds, k)
    ensures |Stub(jds, k)| == ColumnSum(jds, k)
    decreases |jds|
  {
    if jds != [] {
      var init := jds[..|jds| - 1];
      assert HasColumn(init, k) by {
        forall n | 0 <= n < |init| ensures k < |init[n]| {
          assert init[n] == jds[n];
        }
      }
      StubLength(init, k);
    }
  }

  /** Every stub is a vertex of the sequence. */
  lemma StubVertices(jds: Jds, k: nat)
    requires HasColumn(jds, k)
    ensures forall v :: v in Stub(jds, k) ==> 0 <= v < |jds|
  {
    forall v | v in Stub(jds, k) ensures 0 <= v < |jds| {
      StubCount(jds, k, v);
      assert v in multiset(Stub(jds, k));
    }
  }

  /** The stub lists of all columns `zip(*jds)` yields. */
  function AllStubs(jds: Jds): (r: seq<seq<int>>)
    ensures |r| == Columns(jds)
  {
    seq(Columns(jds), k requires 0 <= k < Columns(jds) => Stub(jds, k))
  }

  /** The shuffled stub lists: column k is a permutation of stub list k. */
  ghost predicate Shuffled(jds: Jds, shuffled: seq<seq<int>>)
  {
    |shuffled| == Columns(jds)
    && forall k :: 0 <= k < |shuffled| ==> HasColumn(jds, k) && multiset(shuffled[k]) == multiset(Stub(jds, k))
  }

  /** After shuffling, vertex v still occurs jds[v][k] times in list k,
      and every stub is a vertex of the sequence. */
  lemma ShuffledCount(jds: Jds, shuffled: seq<seq<int>>, k: nat, v: int)
    requires Shuffled(jds, shuffled) && k < |shuffled|
    ensures multiset(shuffled[k])[v] == if 0 <= v < |jds| then jds[v][k] else 0
    ensures v in shuffled[k] ==> 0 <= v < |jds|
  {
    StubCount(jds, k, v);
    if v in shuffled[k] {
      assert v in multiset(shuffled[k]);
    }
  }

  /** `random.shuffle(k_list)`: any permutation of the list. */
  method Shuffle(s: seq<int>) returns (t: seq<int>)
    ensures multiset(t) == multiset(s)
  {
    t :| multiset(t) == multiset(s);
  }

  /** The list comprehension and the in-place shuffles that begin every
      generator. */
  method ShuffledStubs(jds: Jds) returns (stubs: seq<seq<int>>)
    ensures Shuffled(jds, stubs)
  {
    var all := AllStubs(jds);
    stubs := [];
    for k := 0 to |all|
      invariant |stubs| == k
      invariant forall i :: 0 <= i < k ==> multiset(stubs[i]) == multiset(all[i])
    {
      var t := Shuffle(all[k]);
      stubs := stubs + [t];
    }
    forall k | 0 <= k < |stubs| ensures HasColumn(jds, k) {
      forall n | 0 <= n < |jds| ensures k < |jds[n]| { }
    }
  }
}
