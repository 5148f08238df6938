// The motif builders: each takes the list of vertices drawn for one motif
// and returns its edges as a list of vertex tuples. The current builders
// and their copies in the older `motif_generators` module are the same
// functions; the builders of the older generator module first sort their
// argument.

module Motifs {
  import opened Common
  import G = Graphs

  type Edge = G.Edge

  // ----- clique -----

  /** The pairs (u, vs[j]) in the order of vs. */
  function Fan(u: int, vs: seq<int>): (r: seq<Edge>)
    ensures |r| == |vs|
    ensures forall j :: 0 <= j < |vs| ==> r[j] == (u, vs[j])
  {
    seq(|vs|, j requires 0 <= j < |vs| => (u, vs[j]))
  }

  /** `list(combinations(nodes, 2))`: the pairs (nodes[i], nodes[j]) with
      i < j, ordered by i and then by j. */
  function CliqueMotif(nodes: seq<int>): seq<Edge>
    decreases |nodes|
  {
    if |nodes| <= 1 then [] else Fan(nodes[0], nodes[1..]) + CliqueMotif(nodes[1..])
  }

  /** n vertices give n (n - 1) / 2 pairs. */
  lemma {:induction false} CliqueLength(nodes: seq<int>)
    ensures 2 * |CliqueMotif(nodes)| == |nodes| * (|nodes| - 1)
    ensures |CliqueMotif(nodes)| == |nodes| * (|nodes| - 1) / 2
    decreases |nodes|
  {
    if |nodes| > 1 {
      CliqueLength(nodes[1..]);
      var n := |nodes|;
      assert 2 * |CliqueMotif(nodes)| == 2 * (n - 1) + (n - 1) * (n - 2);
      assert 2 * (n - 1) + (n - 1) * (n - 2) == n * (n - 1);
    }
  }

  /** The pairs are exactly the vertices at two positions i < j, first the
      one at i. */
  lemma {:induction false} CliqueMembers(nodes: seq<int>, a: int, b: int)
    ensures (a, b) in CliqueMotif(nodes) <==>
            exists i, j :: 0 <= i < j < |nodes| && a == nodes[i] && b == nodes[j]
    decreases |nodes|
  {
    if |nodes| > 1 {
      var rest := nodes[1..];
      CliqueMembers(rest, a, b);
      if (a, b) in CliqueMotif(nodes) {
        if (a, b) in Fan(nodes[0], rest) {
          var j :| 0 <= j < |rest| && Fan(nodes[0], rest)[j] == (a, b);
          assert a == nodes[0] && b == nodes[j + 1];
        } else {
          assert (a, b) in CliqueMotif(rest);
          var i, j :| 0 <= i < j < |rest| && a == rest[i] && b == rest[j];
          assert a == nodes[i + 1] && b == nodes[j + 1];
        }
      }
      if exists i, j :: 0 <= i < j < |nodes| && a == nodes[i] && b == nodes[j] {
        var i, j :| 0 <= i < j < |nodes| && a == nodes[i] && b == nodes[j];
        if i == 0 {
          assert Fan(nodes[0], rest)[j - 1] == (a, b);
        } else {
          assert a == rest[i - 1] && b == rest[j - 1];
          assert (a, b) in CliqueMotif(rest);
        }
      }
    }
  }

  /** Dropping the first of distinct vertices leaves distinct vertices
      without it. */
  lemma RestDistinct(nodes: seq<int>)
    requires NoDuplicates(nodes) && nodes != []
    ensures NoDuplicates(nodes[1..]) && nodes[0] !in nodes[1..]
  {
    var rest := nodes[1..];
    forall i, j | 0 <= i < j < |rest| ensures rest[i] != rest[j] {
      assert rest[i] == nodes[i + 1] && rest[j] == nodes[j + 1];
    }
    forall j | 0 <= j < |rest| ensures rest[j] != nodes[0] {
      assert rest[j] == nodes[j + 1];
    }
  }

  /** Every pair joins two of the vertices. */
  lemma CliqueEnds(nodes: seq<int>)
    ensures forall e :: e in CliqueMotif(nodes) ==> e.0 in nodes && e.1 in nodes
  {
    forall e | e in CliqueMotif(nodes) ensures e.0 in nodes && e.1 in nodes {
      CliqueMembers(nodes, e.0, e.1);
    }
  }

  /** Distinct vertices give no self-loop. */
  lemma {:induction false} CliqueNoLoops(nodes: seq<int>)
    requires NoDuplicates(nodes)
    ensures forall e :: e in CliqueMotif(nodes) ==> e.0 != e.1
    decreases |nodes|
  {
    if |nodes| > 1 {
      var u, rest := nodes[0], nodes[1..];
      RestDistinct(nodes);
      CliqueNoLoops(rest);
      var f := Fan(u, rest);
      forall e | e in f + CliqueMotif(rest) ensures e.0 != e.1 {
        if e in f {
          var j :| 0 <= j < |f| && f[j] == e;
          assert rest[j] in rest;
        }
      }
    }
  }

  /** One step of the distinctness of the pairs: the fan of a new vertex
      and the pairs of the rest never share an unordered pair. */
  lemma FanCliqueDistinct(u: int, rest: seq<int>, k: nat, l: nat)
    requires NoDuplicates(rest) && u !in rest
    requires forall k, l :: 0 <= k < l < |CliqueMotif(rest)| ==>
      {CliqueMotif(rest)[k].0, CliqueMotif(rest)[k].1} != {CliqueMotif(rest)[l].0, CliqueMotif(rest)[l].1}
    requires k < l < |Fan(u, rest) + CliqueMotif(rest)|
    ensures var r := Fan(u, rest) + CliqueMotif(rest); {r[k].0, r[k].1} != {r[l].0, r[l].1}
  {
    var f, c := Fan(u, rest), CliqueMotif(rest);
    var r := f + c;
    if l < |f| {
      assert r[k] == (u, rest[k]) && r[l] == (u, rest[l]);
      assert rest[k] != rest[l];
    } else if k < |f| {
      CliqueEnds(rest);
      assert r[l] == c[l - |f|] && c[l - |f|] in c;
      assert u !in {r[l].0, r[l].1};
    } else {
      assert r[k] == c[k - |f|] && r[l] == c[l - |f|];
    }
  }

  /** Distinct vertices give no self-loop and no pair twice, in either
      orientation. */
  lemma {:induction false} CliqueDistinct(nodes: seq<int>)
    requires NoDuplicates(nodes)
    ensures forall e :: e in CliqueMotif(nodes) ==> e.0 != e.1
    ensures forall k, l :: 0 <= k < l < |CliqueMotif(nodes)| ==>
              {CliqueMotif(nodes)[k].0, CliqueMotif(nodes)[k].1} != {CliqueMotif(nodes)[l].0, CliqueMotif(nodes)[l].1}
    decreases |nodes|
  {
    CliqueNoLoops(nodes);
    if |nodes| > 1 {
      var u, rest := nodes[0], nodes[1..];
      RestDistinct(nodes);
      CliqueDistinct(rest);
      var r := Fan(u, rest) + CliqueMotif(rest);
      assert r == CliqueMotif(nodes);
      forall k, l | 0 <= k < l < |r| ensures {r[k].0, r[k].1} != {r[l].0, r[l].1} {
        FanCliqueDistinct(u, rest, k, l);
      }
    }
  }

  // ----- cycle -----

  /** The consecutive pairs (nodes[i], nodes[i + 1]). */
  function Path(nodes: seq<int>): (r: seq<Edge>)
    ensures |r| == if nodes == [] then 0 else |nodes| - 1
    ensures forall i :: 0 <= i < |r| ==> r[i] == (nodes[i], nodes[i + 1])
  {
    if |nodes| <= 1 then [] else seq(|nodes| - 1, i requires 0 <= i < |nodes| - 1 => (nodes[i], nodes[i + 1]))
  }

  /** `cycle_motif`: the consecutive pairs, then the pair closing the
      cycle, (nodes[0], nodes[-1]); an empty list fails at `nodes[0]`. */
  function CycleMotif(nodes: seq<int>): (r: Result<seq<Edge>>)
    ensures r.Err? <==> nodes == []
    ensures r.Err? ==> r.error == IndexError
    ensures r.Ok? ==> |r.value| == |nodes|
  {
    if nodes == [] then Err(IndexError) else Ok(Path(nodes) + [(nodes[0], nodes[|nodes| - 1])])
  }

  /** Both endpoints of every edge, with multiplicity. */
  function Ends(es: seq<Edge>): multiset<int>
  {
    if es == [] then multiset{} else Ends(es[..|es| - 1]) + multiset{es[|es| - 1].0, es[|es| - 1].1}
  }

  /** The number of edges at v, a self-loop counting once. */
  function Incident(es: seq<Edge>, v: int): nat
  {
    if es == [] then 0
    else Incident(es[..|es| - 1], v) + (if es[|es| - 1].0 == v || es[|es| - 1].1 == v then 1 else 0)
  }

  lemma EndsAppend(es: seq<Edge>, e: Edge)
    ensures Ends(es + [e]) == Ends(es) + multiset{e.0, e.1}
  {
    assert (es + [e])[..|es|] == es;
  }

  /** Without self-loops, the edges at v are the occurrences of v among the
      endpoints. */
  lemma {:induction false} IncidentEnds(es: seq<Edge>, v: int)
    requires forall e :: e in es ==> e.0 != e.1
    ensures Incident(es, v) == Ends(es)[v]
  {
    if es != [] {
      var es' := es[..|es| - 1];
      assert forall e :: e in es' ==> e in es;
      IncidentEnds(es', v);
      assert es[|es| - 1] in es;
    }
  }

  lemma PathAppend(s: seq<int>, x: int)
    requires s != []
    ensures Path(s + [x]) == Path(s) + [(s[|s| - 1], x)]
  {
    var l, r := Path(s + [x]), Path(s) + [(s[|s| - 1], x)];
    assert |l| == |r|;
    forall i | 0 <= i < |l| ensures l[i] == r[i] {
      if i < |s| - 1 {
        assert l[i] == ((s + [x])[i], (s + [x])[i + 1]);
      }
    }
  }

  /** The path visits every vertex twice except its two ends. */
  lemma {:induction false} PathEnds(nodes: seq<int>)
    requires nodes != []
    ensures Ends(Path(nodes)) + multiset{nodes[0], nodes[|nodes| - 1]} == multiset(nodes) + multiset(nodes)
  {
    if |nodes| == 1 {
      assert nodes == [nodes[0]];
    } else {
      var s, x := nodes[..|nodes| - 1], nodes[|nodes| - 1];
      assert nodes == s + [x];
      PathEnds(s);
      PathAppend(s, x);
      EndsAppend(Path(s), (s[|s| - 1], x));
      assert multiset(nodes) == multiset(s) + multiset{x};
      assert nodes[0] == s[0];
      Regroup(Ends(Path(s)), s[0], s[|s| - 1], x, multiset(s));
    }
  }

  lemma Regroup(p: multiset<int>, a: int, b: int, x: int, m: multiset<int>)
    requires p + multiset{a, b} == m + m
    ensures p + multiset{b, x} + multiset{a, x} == (m + multiset{x}) + (m + multiset{x})
  {
    assert multiset{b, x} + multiset{a, x} == multiset{a, b} + multiset{x, x};
    assert p + multiset{b, x} + multiset{a, x} == (p + multiset{a, b}) + multiset{x, x};
  }

  /** Every occurrence of a vertex in the list puts it at two edge ends. */
  lemma CycleEnds(nodes: seq<int>)
    requires nodes != []
    ensures Ends(CycleMotif(nodes).value) == multiset(nodes) + multiset(nodes)
  {
    PathEnds(nodes);
    EndsAppend(Path(nodes), (nodes[0], nodes[|nodes| - 1]));
  }

  /** With two or more distinct vertices no edge is a self-loop, so every
      vertex lies in exactly two edges. */
  lemma CycleDegreeTwo(nodes: seq<int>, v: int)
    requires |nodes| >= 2 && NoDuplicates(nodes) && v in nodes
    ensures Incident(CycleMotif(nodes).value, v) == 2
  {
    var r := CycleMotif(nodes).value;
    forall e | e in r ensures e.0 != e.1 {
      var k :| 0 <= k < |r| && r[k] == e;
      if k < |nodes| - 1 {
        assert e == (nodes[k], nodes[k + 1]);
      } else {
        assert e == (nodes[0], nodes[|nodes| - 1]);
      }
    }
    IncidentEnds(r, v);
    CycleEnds(nodes);
    NoDuplicatesCounts(nodes);
  }

  /** One vertex gives the self-loop (v, v); two give the same pair twice. */
  lemma CycleSmall(nodes: seq<int>)
    ensures |nodes| == 1 ==> CycleMotif(nodes) == Ok([(nodes[0], nodes[0])])
    ensures |nodes| == 2 ==> CycleMotif(nodes) == Ok([(nodes[0], nodes[1]), (nodes[0], nodes[1])])
  {
    if |nodes| == 1 {
      assert Path(nodes) == [];
      var r: seq<Edge> := [(nodes[0], nodes[0])];
      assert CycleMotif(nodes).value == r;
      assert CycleMotif(nodes) == Ok(r);
    } else if |nodes| == 2 {
      assert Path(nodes) == [(nodes[0], nodes[1])];
      var r: seq<Edge> := [(nodes[0], nodes[1]), (nodes[0], nodes[1])];
      assert CycleMotif(nodes).value == r;
      assert CycleMotif(nodes) == Ok(r);
    }
  }

  // ----- diamond -----

  /** `diamond_motif`: fewer than four vertices raise a string (a
      TypeError), more than four fail the four-way unpacking (ValueError);
      four give the 4-cycle and the chords (n0, n2) and (n1, n3). */
  function DiamondMotif(nodes: seq<int>): (r: Result<seq<Edge>>)
    ensures r.Ok? <==> |nodes| == 4
    ensures |nodes| < 4 ==> r == Err(TypeError)
    ensures |nodes| > 4 ==> r == Err(ValueError)
  {
    if |nodes| < 4 then Err(TypeError)
    else if |nodes| > 4 then Err(ValueError)
    else Ok(CycleMotif(nodes).value + [(nodes[0], nodes[2]), (nodes[1], nodes[3])])
  }

  /** Two unordered pairs are equal when their ends match in one of the
      two orientations. */
  lemma UnorderedPairs(a: int, b: int, c: int, d: int)
    ensures {a, b} == {c, d} <==> (a == c && b == d) || (a == d && b == c)
  {
    if {a, b} == {c, d} {
      assert a in {c, d} && b in {c, d} && c in {a, b} && d in {a, b};
    }
  }

  /** The diamond of four vertices, written out. */
  lemma DiamondShape(nodes: seq<int>)
    requires |nodes| == 4
    ensures DiamondMotif(nodes).value ==
      [(nodes[0], nodes[1]), (nodes[1], nodes[2]), (nodes[2], nodes[3]), (nodes[0], nodes[3]),
       (nodes[0], nodes[2]), (nodes[1], nodes[3])]
  {
  }

  /** Four distinct vertices are pairwise different. */
  lemma FourDistinct(nodes: seq<int>)
    requires |nodes| == 4 && NoDuplicates(nodes)
    ensures nodes[0] != nodes[1] && nodes[0] != nodes[2] && nodes[0] != nodes[3]
    ensures nodes[1] != nodes[2] && nodes[1] != nodes[3] && nodes[2] != nodes[3]
  {
  }

  /** No two of the six pairs are the same unordered pair. */
  lemma DiamondDistinct(nodes: seq<int>)
    requires |nodes| == 4 && NoDuplicates(nodes)
    ensures forall k, l :: 0 <= k < l < 6 ==>
              {DiamondMotif(nodes).value[k].0, DiamondMotif(nodes).value[k].1}
              != {DiamondMotif(nodes).value[l].0, DiamondMotif(nodes).value[l].1}
  {
    DiamondShape(nodes);
    FourDistinct(nodes);
    var r := DiamondMotif(nodes).value;
    forall k, l | 0 <= k < l < 6 ensures {r[k].0, r[k].1} != {r[l].0, r[l].1} {
      UnorderedPairs(r[k].0, r[k].1, r[l].0, r[l].1);
    }
  }

  /** Every unordered pair of the four vertices is one of the six. */
  lemma DiamondCovers(nodes: seq<int>)
    requires |nodes| == 4
    ensures forall i, j :: 0 <= i < j < 4 ==>
              exists k :: 0 <= k < 6 && {DiamondMotif(nodes).value[k].0, DiamondMotif(nodes).value[k].1} == {nodes[i], nodes[j]}
  {
    DiamondShape(nodes);
    var r := DiamondMotif(nodes).value;
    forall i, j | 0 <= i < j < 4
      ensures exists k :: 0 <= k < 6 && {r[k].0, r[k].1} == {nodes[i], nodes[j]}
    {
      if i == 0 && j == 1 { assert {r[0].0, r[0].1} == {nodes[i], nodes[j]}; }
      else if i == 1 && j == 2 { assert {r[1].0, r[1].1} == {nodes[i], nodes[j]}; }
      else if i == 2 && j == 3 { assert {r[2].0, r[2].1} == {nodes[i], nodes[j]}; }
      else if i == 0 && j == 3 { assert {r[3].0, r[3].1} == {nodes[i], nodes[j]}; }
      else if i == 0 && j == 2 { assert {r[4].0, r[4].1} == {nodes[i], nodes[j]}; }
      else { assert {r[5].0, r[5].1} == {nodes[i], nodes[j]}; }
    }
  }

  /** Four distinct vertices give six edges between them, none a
      self-loop. */
  lemma DiamondEnds(nodes: seq<int>)
    requires |nodes| == 4 && NoDuplicates(nodes)
    ensures |DiamondMotif(nodes).value| == 6
    ensures forall e :: e in DiamondMotif(nodes).value ==> e.0 in nodes && e.1 in nodes && e.0 != e.1
  {
    DiamondShape(nodes);
    FourDistinct(nodes);
    var r := DiamondMotif(nodes).value;
    forall e | e in r ensures e.0 in nodes && e.1 in nodes && e.0 != e.1 {
      var k :| 0 <= k < 6 && r[k] == e;
    }
  }

  // ----- the older generator module: sort first -----

  predicate Ascending(s: seq<int>)
  {
    forall i, j :: 0 <= i < j < |s| ==> s[i] <= s[j]
  }

  /** x put into an ascending list in its place. */
  function Insert(x: int, s: seq<int>): (r: seq<int>)
    ensures multiset(r) == multiset(s) + multiset{x}
  {
    if s == [] then [x]
    else if x <= s[0] then [x] + s
    else
      assert s == [s[0]] + s[1..];
      [s[0]] + Insert(x, s[1..])
  }

  lemma InsertMembers(x: int, s: seq<int>, y: int)
    requires y in Insert(x, s)
    ensures y == x || y in s
  {
    assert y in multiset(Insert(x, s));
  }

  /** Inserting into an ascending list keeps it ascending. */
  lemma {:induction false} InsertAscending(x: int, s: seq<int>)
    requires Ascending(s)
    ensures Ascending(Insert(x, s))
  {
    if s != [] && x > s[0] {
      var t := Insert(x, s[1..]);
      InsertAscending(x, s[1..]);
      forall y | y in t ensures s[0] <= y {
        InsertMembers(x, s[1..], y);
        if y != x {
          var i :| 0 <= i < |s[1..]| && s[1..][i] == y;
          assert s[i + 1] == y;
        }
      }
      var r := [s[0]] + t;
      forall i, j | 0 <= i < j < |r| ensures r[i] <= r[j] {
        assert r[j] == t[j - 1] && t[j - 1] in t;
        if i > 0 {
          assert r[i] == t[i - 1];
        }
      }
    }
  }

  /** `nodes.sort()`: the same vertices in ascending order. */
  function SortNodes(s: seq<int>): (r: seq<int>)
    ensures Ascending(r) && multiset(r) == multiset(s)
  {
    if s == [] then []
    else
      assert s == [s[0]] + s[1..];
      InsertAscending(s[0], SortNodes(s[1..]));
      Insert(s[0], SortNodes(s[1..]))
  }

  /** The older `cycle_motif`, which sorts its argument first. */
  function SortedCycleMotif(nodes: seq<int>): Result<seq<Edge>>
  {
    CycleMotif(SortNodes(nodes))
  }

  /** The older `clique_motif`, which sorts its argument first. */
  function SortedCliqueMotif(nodes: seq<int>): seq<Edge>
  {
    CliqueMotif(SortNodes(nodes))
  }

  /** The older `diamond_motif`: the length check, the sort, then the
      unpacking and the sorted cycle with its chords. */
  function SortedDiamondMotif(nodes: seq<int>): Result<seq<Edge>>
  {
    if |nodes| < 4 then Err(TypeError) else DiamondMotif(SortNodes(nodes))
  }

  /** Every pair of the sorted clique has its smaller vertex first, and the
      pairs are those of the unsorted clique up to orientation. */
  lemma SortedCliquePairs(nodes: seq<int>, a: int, b: int)
    requires (a, b) in SortedCliqueMotif(nodes)
    ensures a <= b && a in nodes && b in nodes
  {
    var s := SortNodes(nodes);
    CliqueMembers(s, a, b);
    var i, j :| 0 <= i < j < |s| && a == s[i] && b == s[j];
    assert a in multiset(s) && b in multiset(s);
  }

  /** The sorted cycle runs along the sorted vertices and is closed by the
      pair (smallest, largest). */
  lemma SortedCycleShape(nodes: seq<int>)
    requires nodes != []
    ensures var r := SortedCycleMotif(nodes).value;
      |r| == |nodes|
      && (forall k :: 0 <= k < |r| ==> r[k].0 <= r[k].1)
      && (forall v :: v in nodes ==> r[|r| - 1].0 <= v <= r[|r| - 1].1)
      && r[|r| - 1].0 in nodes && r[|r| - 1].1 in nodes
  {
    var s := SortNodes(nodes);
    assert |s| == |nodes| by {
      assert |multiset(s)| == |multiset(nodes)|;
    }
    AscendingCycle(s);
    forall v | v in nodes ensures s[0] <= v <= s[|s| - 1] {
      assert v in multiset(s);
    }
    assert s[0] in multiset(s) && s[|s| - 1] in multiset(s);
  }

  lemma AscendingCycle(s: seq<int>)
    requires s != [] && Ascending(s)
    ensures var r := CycleMotif(s).value;
      (forall k :: 0 <= k < |r| ==> r[k].0 <= r[k].1)
      && r[|r| - 1] == (s[0], s[|s| - 1])
      && forall v :: v in s ==> s[0] <= v <= s[|s| - 1]
  {
  }

  /** The older diamond rejects exactly the lists the current one rejects,
      and on four vertices builds the current diamond of the sorted list. */
  lemma SortedDiamondAgrees(nodes: seq<int>)
    ensures SortedDiamondMotif(nodes).Ok? <==> DiamondMotif(nodes).Ok?
    ensures |nodes| != 4 ==> SortedDiamondMotif(nodes) == DiamondMotif(nodes)
  {
    var s := SortNodes(nodes);
    assert |s| == |nodes| by {
      assert |multiset(s)| == |multiset(nodes)|;
    }
  }
}
