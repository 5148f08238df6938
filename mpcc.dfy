// The maximal-preserving clique cover (MPCC): cliques are visited largest
// first, each joins the cover when all its edges are still uncovered, and
// its edges are then removed from a working copy of the graph. Finally
// every edge of the i-th cover clique c gets the label "{len(c)}-{c}-{i}".

module Mpcc {
  import opened Common
  import opened PyText
  import opened CoverLabels

  /** `itertools.combinations(c, 2)`: the pairs (c[a], c[b]) with a < b,
      in order of positions. */
  function Combinations2(c: seq<int>): seq<(int, int)>
  {
    if |c| < 2 then []
    else seq(|c| - 1, k requires 0 <= k < |c| - 1 => (c[0], c[k + 1])) + Combinations2(c[1..])
  }

  /** The pairs are exactly those of two positions a < b. */
  lemma {:induction false} Combinations2Members(c: seq<int>, a: nat, b: nat)
    requires a < b < |c|
    ensures (c[a], c[b]) in Combinations2(c)
  {
    if a == 0 {
      assert Combinations2(c)[b - 1] == (c[0], c[b]);
    } else {
      Combinations2Members(c[1..], a - 1, b - 1);
    }
  }

  /** A clique of n vertices has n (n - 1) / 2 pairs. */
  lemma {:induction false} Combinations2Count(c: seq<int>)
    ensures 2 * |Combinations2(c)| == |c| * (|c| - 1)
  {
    if |c| >= 2 {
      Combinations2Count(c[1..]);
    }
  }

  /** The graph edges a clique spans. */
  function Pairs(c: seq<int>): set<(int, int)>
  {
    set p | p in Combinations2(c) :: Key(p.0, p.1)
  }

  lemma PairsOfTwo(u: int, v: int)
    ensures Pairs([u, v]) == {Key(u, v)}
  {
    assert Combinations2([u, v]) == [(u, v)];
  }

  // ----- sorted(cliques, key=len, reverse=True) -----

  /** Inserts c after every clique at least as large: the place a stable
      sort by decreasing size gives it. */
  function InsertBySize(c: seq<int>, s: seq<seq<int>>): (r: seq<seq<int>>)
    ensures multiset(r) == multiset(s) + multiset{c}
  {
    if s == [] then [c]
    else if |s[0]| >= |c| then
      assert s == [s[0]] + s[1..];
      [s[0]] + InsertBySize(c, s[1..])
    else [c] + s
  }

  /** `sorted(cliques, key=len, reverse=True)`: cliques inserted in their
      original order, so equal sizes keep it. */
  function SortBySize(cliques: seq<seq<int>>): seq<seq<int>>
  {
    if cliques == [] then []
    else InsertBySize(cliques[|cliques| - 1], SortBySize(cliques[..|cliques| - 1]))
  }

  predicate NonIncreasing(s: seq<seq<int>>)
  {
    forall i, j :: 0 <= i < j < |s| ==> |s[i]| >= |s[j]|
  }

  lemma {:induction false} InsertSorted(c: seq<int>, s: seq<seq<int>>)
    requires NonIncreasing(s)
    ensures NonIncreasing(InsertBySize(c, s))
  {
    if s != [] && |s[0]| >= |c| {
      InsertSorted(c, s[1..]);
      var r := InsertBySize(c, s[1..]);
      forall k | 0 <= k < |r| ensures |s[0]| >= |r[k]| {
        assert r[k] in multiset(r);
        if r[k] != c {
          assert r[k] in multiset(s[1..]);
          var m :| 0 <= m < |s[1..]| && s[1..][m] == r[k];
          assert s[1..][m] == s[m + 1];
        }
      }
    }
  }

  /** The visiting order: largest cliques first, every clique once. */
  lemma {:induction false} SortBySizeMeaning(cliques: seq<seq<int>>)
    ensures NonIncreasing(SortBySize(cliques))
    ensures multiset(SortBySize(cliques)) == multiset(cliques)
  {
    if cliques != [] {
      var init := cliques[..|cliques| - 1];
      SortBySizeMeaning(init);
      InsertSorted(cliques[|cliques| - 1], SortBySize(init));
      assert cliques == init + [cliques[|cliques| - 1]];
    }
  }

  // ----- the greedy pass -----

  /** The loop over the sorted cliques: the cover so far and the edges of
      the working copy not yet covered. */
  function Greedy(g: set<(int, int)>, cliques: seq<seq<int>>, cover: seq<seq<int>>): (seq<seq<int>>, set<(int, int)>)
    decreases |cliques|
  {
    if cliques == [] then (cover, g)
    else if Pairs(cliques[0]) <= g then Greedy(g - Pairs(cliques[0]), cliques[1..], cover + [cliques[0]])
    else Greedy(g, cliques[1..], cover)
  }

  /** The edges the cover spans. */
  function Covered(cover: seq<seq<int>>): set<(int, int)>
  {
    if cover == [] then {} else Covered(cover[..|cover| - 1]) + Pairs(cover[|cover| - 1])
  }

  /** No edge belongs to two cover cliques. */
  predicate Disjoint(cover: seq<seq<int>>)
  {
    forall i, j :: 0 <= i < j < |cover| ==> Pairs(cover[i]) !! Pairs(cover[j])
  }

  lemma {:induction false} CoveredMembers(cover: seq<seq<int>>, e: (int, int))
    ensures e in Covered(cover) <==> exists t :: 0 <= t < |cover| && e in Pairs(cover[t])
  {
    if cover != [] {
      var init := cover[..|cover| - 1];
      CoveredMembers(init, e);
      if e in Covered(init) {
        var t :| 0 <= t < |init| && e in Pairs(init[t]);
        assert init[t] == cover[t];
      }
      if exists t :: 0 <= t < |cover| && e in Pairs(cover[t]) {
        var t :| 0 <= t < |cover| && e in Pairs(cover[t]);
        if t < |init| {
          assert init[t] == cover[t];
        }
      }
    }
  }

  /** What the pass keeps true: the edges removed so far are exactly those
      the cover spans, and no edge is spanned twice. */
  predicate PassInvariant(g0: set<(int, int)>, g: set<(int, int)>, cover: seq<seq<int>>)
  {
    g <= g0 && Disjoint(cover) && Covered(cover) == g0 - g
  }

  lemma JoinKeepsInvariant(g0: set<(int, int)>, g: set<(int, int)>, cover: seq<seq<int>>, c: seq<int>)
    requires PassInvariant(g0, g, cover) && Pairs(c) <= g
    ensures PassInvariant(g0, g - Pairs(c), cover + [c])
  {
    var cover' := cover + [c];
    assert cover'[..|cover'| - 1] == cover;
    forall i, j | 0 <= i < j < |cover'| ensures Pairs(cover'[i]) !! Pairs(cover'[j]) {
      if j == |cover| {
        forall e | e in Pairs(cover'[i]) ensures e !in Pairs(c) {
          CoveredMembers(cover, e);
        }
      }
    }
  }

  /** The pass keeps its invariant, only removes edges, and never drops a
      clique already in the cover. */
  lemma {:induction false} GreedyInvariant(g0: set<(int, int)>, g: set<(int, int)>, cliques: seq<seq<int>>, cover: seq<seq<int>>)
    requires PassInvariant(g0, g, cover)
    ensures var (cover', g') := Greedy(g, cliques, cover);
      PassInvariant(g0, g', cover') && g' <= g
      && |cover| <= |cover'| && cover'[..|cover|] == cover
    decreases |cliques|
  {
    if cliques != [] {
      var c := cliques[0];
      if Pairs(c) <= g {
        JoinKeepsInvariant(g0, g, cover, c);
        GreedyInvariant(g0, g - Pairs(c), cliques[1..], cover + [c]);
        var cover' := Greedy(g, cliques, cover).0;
        assert cover'[..|cover| + 1][..|cover|] == cover'[..|cover|];
      } else {
        GreedyInvariant(g0, g, cliques[1..], cover);
      }
    }
  }

  /** A clique with fewer than two vertices spans no edge, so it always
      joins the cover and takes an id. */
  lemma {:induction false} SmallCliquesJoin(g: set<(int, int)>, cliques: seq<seq<int>>, cover: seq<seq<int>>, i: nat)
    requires i < |cliques| && |cliques[i]| < 2
    ensures cliques[i] in Greedy(g, cliques, cover).0
    decreases |cliques|
  {
    var c := cliques[0];
    if i == 0 {
      assert Pairs(c) == {};
      GreedyKeepsCover(g - Pairs(c), cliques[1..], cover + [c]);
    } else if Pairs(c) <= g {
      SmallCliquesJoin(g - Pairs(c), cliques[1..], cover + [c], i - 1);
    } else {
      SmallCliquesJoin(g, cliques[1..], cover, i - 1);
    }
  }

  lemma {:induction false} GreedyKeepsCover(g: set<(int, int)>, cliques: seq<seq<int>>, cover: seq<seq<int>>)
    ensures forall c :: c in cover ==> c in Greedy(g, cliques, cover).0
    decreases |cliques|
  {
    if cliques != [] {
      var c := cliques[0];
      if Pairs(c) <= g {
        GreedyKeepsCover(g - Pairs(c), cliques[1..], cover + [c]);
      } else {
        GreedyKeepsCover(g, cliques[1..], cover);
      }
    }
  }

  /** An edge whose 2-clique is visited ends up covered: either it is
      still uncovered then and the 2-clique joins, or an earlier clique
      took it. */
  lemma {:induction false} TwoCliqueCovered(g0: set<(int, int)>, g: set<(int, int)>, cliques: seq<seq<int>>, cover: seq<seq<int>>, i: nat)
    requires PassInvariant(g0, g, cover)
    requires i < |cliques| && |cliques[i]| == 2 && Key(cliques[i][0], cliques[i][1]) in g0
    ensures Key(cliques[i][0], cliques[i][1]) in Covered(Greedy(g, cliques, cover).0)
    decreases |cliques|
  {
    var c := cliques[0];
    if i == 0 {
      TwoCliqueFirst(g0, g, cliques, cover);
    } else if Pairs(c) <= g {
      JoinKeepsInvariant(g0, g, cover, c);
      TwoCliqueCovered(g0, g - Pairs(c), cliques[1..], cover + [c], i - 1);
    } else {
      TwoCliqueCovered(g0, g, cliques[1..], cover, i - 1);
    }
  }

  /** The 2-clique visited first: it joins when its edge is still
      uncovered, and otherwise the cover already spans that edge. */
  lemma TwoCliqueFirst(g0: set<(int, int)>, g: set<(int, int)>, cliques: seq<seq<int>>, cover: seq<seq<int>>)
    requires PassInvariant(g0, g, cover)
    requires cliques != [] && |cliques[0]| == 2 && Key(cliques[0][0], cliques[0][1]) in g0
    ensures Key(cliques[0][0], cliques[0][1]) in Covered(Greedy(g, cliques, cover).0)
  {
    var c := cliques[0];
    var e := Key(c[0], c[1]);
    PairsOfTwo(c[0], c[1]);
    assert c == [c[0], c[1]];
    if Pairs(c) <= g {
      JoinKeepsInvariant(g0, g, cover, c);
      assert (cover + [c])[..|cover|] == cover;
      assert e in Covered(cover + [c]);
      GreedyInvariant(g0, g - Pairs(c), cliques[1..], cover + [c]);
    } else {
      GreedyInvariant(g0, g, cliques[1..], cover);
    }
  }

  /** The cover of graph G visiting the given enumeration of its cliques. */
  function CoverOf(g: EdgeAttrs, cliques: seq<seq<int>>): seq<seq<int>>
  {
    Greedy(g.Keys, SortBySize(cliques), []).0
  }

  /** The cover is edge-disjoint, spans only edges of G, and every edge
      between two distinct vertices whose 2-clique is enumerated lies in
      exactly one cover clique. */
  lemma CoverMeaning(g: EdgeAttrs, cliques: seq<seq<int>>, u: int, v: int)
    requires Key(u, v) in g && ([u, v] in cliques || [v, u] in cliques)
    ensures Disjoint(CoverOf(g, cliques))
    ensures Covered(CoverOf(g, cliques)) <= g.Keys
    ensures exists t :: 0 <= t < |CoverOf(g, cliques)| && Key(u, v) in Pairs(CoverOf(g, cliques)[t])
    ensures forall t, s :: 0 <= t < s < |CoverOf(g, cliques)| ==>
      !(Key(u, v) in Pairs(CoverOf(g, cliques)[t]) && Key(u, v) in Pairs(CoverOf(g, cliques)[s]))
  {
    CoverDisjoint(g, cliques);
    CoverSpansEdge(g, cliques, u, v);
    CoveredMembers(CoverOf(g, cliques), Key(u, v));
  }

  lemma CoverDisjoint(g: EdgeAttrs, cliques: seq<seq<int>>)
    ensures Disjoint(CoverOf(g, cliques)) && Covered(CoverOf(g, cliques)) <= g.Keys
  {
    assert Covered([]) == {};
    GreedyInvariant(g.Keys, g.Keys, SortBySize(cliques), []);
  }

  lemma CoverSpansEdge(g: EdgeAttrs, cliques: seq<seq<int>>, u: int, v: int)
    requires Key(u, v) in g && ([u, v] in cliques || [v, u] in cliques)
    ensures Key(u, v) in Covered(CoverOf(g, cliques))
  {
    var sorted := SortBySize(cliques);
    assert Covered([]) == {};
    var two := if [u, v] in cliques then [u, v] else [v, u];
    SortedKeeps(cliques, two);
    var i :| 0 <= i < |sorted| && sorted[i] == two;
    assert Key(two[0], two[1]) == Key(u, v);
    TwoCliqueCovered(g.Keys, g.Keys, sorted, [], i);
  }

  lemma SortedKeeps(cliques: seq<seq<int>>, c: seq<int>)
    requires c in cliques
    ensures c in SortBySize(cliques)
  {
    SortBySizeMeaning(cliques);
    assert c in multiset(SortBySize(cliques));
  }

  // ----- labelling -----

  /** f'{len(c)}-{c}-{ID}' */
  function LabelText(c: seq<int>, id: nat): string
  {
    NatText(|c|) + "-" + ListText(c) + "-" + NatText(id)
  }

  /** Every edge of clique c gets attribute "clique" set to its label. */
  function Write(g: EdgeAttrs, c: seq<int>, id: nat): EdgeAttrs
  {
    map k | k in g :: if k in Pairs(c) then g[k]["clique" := LabelText(c, id)] else g[k]
  }

  /** The cover cliques from t on, the t-th with id t. */
  function ApplyLabels(g: EdgeAttrs, cover: seq<seq<int>>, t: nat): EdgeAttrs
    decreases |cover| - t
  {
    if t >= |cover| then g else ApplyLabels(Write(g, cover[t], t), cover, t + 1)
  }

  /** `MPCC(G)` for the given clique enumeration of G. */
  function MpccOf(g: EdgeAttrs, cliques: seq<seq<int>>): EdgeAttrs
  {
    ApplyLabels(g, CoverOf(g, cliques), 0)
  }

  /** With a disjoint cover, each edge keeps the label of the one cover
      clique that spans it, edges no clique spans are untouched, and no
      edge is added or removed. */
  lemma {:induction false} ApplyLabelsMeaning(g: EdgeAttrs, cover: seq<seq<int>>, t: nat, k: (int, int))
    requires Disjoint(cover) && k in g
    ensures ApplyLabels(g, cover, t).Keys == g.Keys
    ensures forall s :: t <= s < |cover| && k in Pairs(cover[s]) ==>
      ApplyLabels(g, cover, t)[k] == g[k]["clique" := LabelText(cover[s], s)]
    ensures (forall s :: t <= s < |cover| ==> k !in Pairs(cover[s])) ==> ApplyLabels(g, cover, t)[k] == g[k]
    decreases |cover| - t
  {
    if t < |cover| {
      var g' := Write(g, cover[t], t);
      ApplyLabelsMeaning(g', cover, t + 1, k);
      forall s | t < s < |cover| && k in Pairs(cover[s]) ensures k !in Pairs(cover[t]) {
      }
    }
  }

  /** The labels MPCC writes: the t-th cover clique c labels each of its
      edges with "{len(c)}-{c}-{t}" under "clique"; every other attribute,
      and every edge outside the cover, is kept. */
  lemma MpccLabels(g: EdgeAttrs, cliques: seq<seq<int>>, t: nat, k: (int, int))
    requires t < |CoverOf(g, cliques)| && k in Pairs(CoverOf(g, cliques)[t])
    ensures k in MpccOf(g, cliques) && k in g
    ensures MpccOf(g, cliques)[k] == g[k]["clique" := LabelText(CoverOf(g, cliques)[t], t)]
  {
    var cover := CoverOf(g, cliques);
    assert Covered([]) == {};
    GreedyInvariant(g.Keys, g.Keys, SortBySize(cliques), []);
    CoveredMembers(cover, k);
    ApplyLabelsMeaning(g, cover, 0, k);
  }

  /** Reading an MPCC label back: the size, the vertices and the id are
      recovered, but the label has three pieces, not four, so the "edges"
      piece is the id itself. */
  lemma MpccLabelReadBack(c: seq<int>, id: nat)
    requires NonNegativeVertices(c)
    ensures GetMotifTopology(LabelText(c, id)) == Ok(|c|)
    ensures GetMotifId(LabelText(c, id)) == Ok(id)
    ensures GetVerticesInMotif(LabelText(c, id)) == Ok(PList(Ints(c)))
    ensures GetEdgesInMotif(LabelText(c, id)) == Ok(PInt(id))
  {
    var a, b, d := NatText(|c|), ListText(c), NatText(id);
    NatTextNoMinus(|c|);
    NatTextNoMinus(id);
    VerticesNoMinus(c);
    SplitPlain(d, '-');
    SplitConcat(b, d, '-');
    SplitConcat(a, b + ['-'] + d, '-');
    assert LabelText(c, id) == a + ['-'] + (b + ['-'] + d);
    ParseIntText(|c|);
    ParseIntText(id);
    LiteralEvalRepr(PList(Ints(c)));
    LiteralEvalRepr(PInt(id));
  }

  /** MPCC stores its labels under "clique" while the message-passing
      reader looks for "CoverLabel": on a graph without that attribute,
      reading a covered edge's label raises KeyError. */
  lemma LabelAttributeMismatch(g: EdgeAttrs, cliques: seq<seq<int>>, t: nat, u: int, v: int, coverType: string)
    requires t < |CoverOf(g, cliques)| && Key(u, v) in Pairs(CoverOf(g, cliques)[t])
    requires Key(u, v) in g && "CoverLabel" !in g[Key(u, v)]
    ensures GetEdgeCoverLabel(MessagePassing(coverType, MpccOf(g, cliques)), u, v) == Err(KeyError)
  {
    MpccLabels(g, cliques, t, Key(u, v));
  }

  // ----- the procedure -----

  /** `MPCC(G)`: `cliques` is `nx.enumerate_all_cliques(G)`; the labelled
      graph and the cover found are returned. */
  method MPCC(g: EdgeAttrs, cliques: seq<seq<int>>) returns (labelled: EdgeAttrs, ghost cover: seq<seq<int>>)
    ensures cover == CoverOf(g, cliques)
    ensures labelled == MpccOf(g, cliques)
  {
    var work := g.Keys;
    var sorted := SortBySize(cliques);
    var found: seq<seq<int>> := [];
    for i := 0 to |sorted|
      invariant Greedy(g.Keys, sorted, []) == Greedy(work, sorted[i..], found)
    {
      assert sorted[i..][1..] == sorted[i + 1..];
      var c := sorted[i];
      var skip := HasMissingEdge(work, c);
      if !skip {
        found := found + [c];
        work := work - Pairs(c);
      }
    }
    cover := found;
    assert Covered([]) == {};
    GreedyInvariant(g.Keys, g.Keys, sorted, []);
    labelled := g;
    for t := 0 to |found|
      invariant labelled.Keys == g.Keys
      invariant ApplyLabels(g, found, 0) == ApplyLabels(labelled, found, t)
    {
      forall e | e in Pairs(found[t]) ensures e in labelled {
        CoveredMembers(found, e);
      }
      labelled := LabelClique(labelled, found[t], t);
    }
  }

  /** The inner loop: is some pair of c no longer an edge of the working
      copy? */
  method HasMissingEdge(work: set<(int, int)>, c: seq<int>) returns (skip: bool)
    ensures skip <==> !(Pairs(c) <= work)
  {
    var es := Combinations2(c);
    skip := false;
    for i := 0 to |es|
      invariant !skip ==> forall m :: 0 <= m < i ==> Key(es[m].0, es[m].1) in work
      invariant skip ==> !(Pairs(c) <= work)
    {
      if Key(es[i].0, es[i].1) !in work {
        assert Key(es[i].0, es[i].1) in Pairs(c);
        skip := true;
        break;
      }
    }
    if !skip {
      forall e | e in Pairs(c) ensures e in work {
        var p :| p in es && e == Key(p.0, p.1);
        var m :| 0 <= m < |es| && es[m] == p;
      }
    }
  }

  /** `G.edges[e[0], e[1]]['clique'] = ...` for every pair of one cover
      clique. */
  method LabelClique(g: EdgeAttrs, c: seq<int>, id: nat) returns (r: EdgeAttrs)
    requires Pairs(c) <= g.Keys
    ensures r == Write(g, c, id)
  {
    var es := Combinations2(c);
    var text := LabelText(c, id);
    r := g;
    for i := 0 to |es|
      invariant r.Keys == g.Keys
      invariant forall k :: k in g ==> r[k] == if k in (set m | 0 <= m < i :: Key(es[m].0, es[m].1)) then g[k]["clique" := text] else g[k]
    {
      var k := Key(es[i].0, es[i].1);
      assert k in Pairs(c);
      r := r[k := r[k]["clique" := text]];
    }
    forall k | k in g ensures r[k] == Write(g, c, id)[k] {
      assert k in Pairs(c) <==> k in (set m | 0 <= m < |es| :: Key(es[m].0, es[m].1)) by {
        if k in Pairs(c) {
          var p :| p in es && k == Key(p.0, p.1);
          var m :| 0 <= m < |es| && es[m] == p;
        }
      }
    }
  }
}
