// Reading motif-cover labels back from an edge-labelled graph. A cover
// label has the form "{key}-{[vertices]}-{[edges]}-{UID}"; its pieces are
// found by splitting on '-'.

module CoverLabels {
  import opened Common
  import opened PyText

  /** The attributes of each edge of an undirected networkx graph, the edge
      stored with its smaller end first. */
  type EdgeAttrs = map<(int, int), map<string, string>>

  /** The stored form of the undirected edge <i,j>. */
  function Key(i: int, j: int): (k: (int, int))
    ensures k.0 <= k.1 && {k.0, k.1} == {i, j}
  {
    if i <= j then (i, j) else (j, i)
  }

  /** `MessagePassingMixin(cover_type, G)` */
  datatype MessagePassing = MessagePassing(coverType: string, g: EdgeAttrs)

  /** `get_edge_cover_label(i, j)`: the "CoverLabel" attribute of edge
      <i,j>, in either orientation; KeyError when the edge or the
      attribute is missing. */
  function GetEdgeCoverLabel(mp: MessagePassing, i: int, j: int): (r: Result<string>)
    ensures r.Ok? <==> Key(i, j) in mp.g && "CoverLabel" in mp.g[Key(i, j)]
    ensures r.Ok? ==> r.value == mp.g[Key(i, j)]["CoverLabel"]
    ensures r.Err? ==> r.error == KeyError
  {
    var k := Key(i, j);
    if k !in mp.g || "CoverLabel" !in mp.g[k] then Err(KeyError) else Ok(mp.g[k]["CoverLabel"])
  }

  /** `get_edge_cover_label` does not depend on the orientation of the edge. */
  lemma CoverLabelSymmetric(mp: MessagePassing, i: int, j: int)
    ensures GetEdgeCoverLabel(mp, i, j) == GetEdgeCoverLabel(mp, j, i)
  {
    assert Key(i, j) == Key(j, i);
  }

  /** `get_motif_topology(label)`: `int` of the first '-'-separated piece. */
  function GetMotifTopology(text: string): Result<int>
  {
    ParseInt(Split(text, '-')[0])
  }

  /** `get_motif_ID(label)`: `int` of the last piece. */
  function GetMotifId(text: string): Result<int>
  {
    var parts := Split(text, '-');
    ParseInt(parts[|parts| - 1])
  }

  /** `get_vertices_in_motif(label)`: `ast.literal_eval` of the second
      piece; IndexError when there is none. */
  function GetVerticesInMotif(text: string): Result<Py>
  {
    var parts := Split(text, '-');
    if |parts| < 2 then Err(IndexError) else LiteralEval(parts[1])
  }

  /** `get_edges_in_motif(label)`: `ast.literal_eval` of the third piece. */
  function GetEdgesInMotif(text: string): Result<Py>
  {
    var parts := Split(text, '-');
    if |parts| < 3 then Err(IndexError) else LiteralEval(parts[2])
  }

  /** `str` of a list of vertex pairs: "[(1, 2), (1, 3)]". */
  function EdgePairs(edges: seq<(int, int)>): Py
  {
    PList(seq(|edges|, k requires 0 <= k < |edges| => PTuple([PInt(edges[k].0), PInt(edges[k].1)])))
  }

  /** The documented label f"{key}-{[vertices]}-{[edges]}-{UID}". */
  function CoverLabel(key: nat, vertices: seq<int>, edges: seq<(int, int)>, uid: nat): string
  {
    NatText(key) + "-" + ListText(vertices) + "-" + Repr(EdgePairs(edges)) + "-" + NatText(uid)
  }

  predicate NonNegativeVertices(vertices: seq<int>)
  {
    forall k :: 0 <= k < |vertices| ==> vertices[k] >= 0
  }

  predicate NonNegativeEdges(edges: seq<(int, int)>)
  {
    forall k :: 0 <= k < |edges| ==> edges[k].0 >= 0 && edges[k].1 >= 0
  }

  lemma VerticesNoMinus(vertices: seq<int>)
    requires NonNegativeVertices(vertices)
    ensures '-' !in ListText(vertices)
  {
    var v := PList(Ints(vertices));
    assert NonNegative(v) by {
      forall k | 0 <= k < |Ints(vertices)| ensures NonNegative(Ints(vertices)[k]) {
      }
    }
    ReprNoMinus(v);
  }

  lemma EdgesNoMinus(edges: seq<(int, int)>)
    requires NonNegativeEdges(edges)
    ensures '-' !in Repr(EdgePairs(edges))
  {
    var v := EdgePairs(edges);
    assert NonNegative(v) by {
      forall k | 0 <= k < |v.items| ensures NonNegative(v.items[k]) {
        var t := v.items[k];
        assert t == PTuple([PInt(edges[k].0), PInt(edges[k].1)]);
        assert forall m :: 0 <= m < |t.items| ==> NonNegative(t.items[m]);
      }
    }
    ReprNoMinus(v);
  }

  lemma Regroup(a: string, b: string, c: string, d: string)
    ensures a + "-" + b + "-" + c + "-" + d == a + ['-'] + (b + ['-'] + (c + ['-'] + d))
  {
  }

  /** Four pieces without '-', joined by '-', split back apart. */
  lemma SplitFour(a: string, b: string, c: string, d: string)
    requires '-' !in a && '-' !in b && '-' !in c && '-' !in d
    ensures Split(a + "-" + b + "-" + c + "-" + d, '-') == [a, b, c, d]
  {
    var cd := c + ['-'] + d;
    var bcd := b + ['-'] + cd;
    SplitPlain(d, '-');
    SplitConcat(c, d, '-');
    SplitConcat(b, cd, '-');
    SplitConcat(a, bcd, '-');
    Regroup(a, b, c, d);
  }

  /** A label with non-negative vertex ids splits into its four pieces. */
  lemma LabelPieces(key: nat, vertices: seq<int>, edges: seq<(int, int)>, uid: nat)
    requires NonNegativeVertices(vertices) && NonNegativeEdges(edges)
    ensures Split(CoverLabel(key, vertices, edges, uid), '-')
         == [NatText(key), ListText(vertices), Repr(EdgePairs(edges)), NatText(uid)]
  {
    NatTextNoMinus(key);
    NatTextNoMinus(uid);
    VerticesNoMinus(vertices);
    EdgesNoMinus(edges);
    SplitFour(NatText(key), ListText(vertices), Repr(EdgePairs(edges)), NatText(uid));
  }

  /** Reading a label back gives the key, the vertices, the edges and the
      id it was written from. */
  lemma LabelRoundTrip(key: nat, vertices: seq<int>, edges: seq<(int, int)>, uid: nat)
    requires NonNegativeVertices(vertices) && NonNegativeEdges(edges)
    ensures GetMotifTopology(CoverLabel(key, vertices, edges, uid)) == Ok(key)
    ensures GetMotifId(CoverLabel(key, vertices, edges, uid)) == Ok(uid)
    ensures GetVerticesInMotif(CoverLabel(key, vertices, edges, uid)) == Ok(PList(Ints(vertices)))
    ensures GetEdgesInMotif(CoverLabel(key, vertices, edges, uid)) == Ok(EdgePairs(edges))
  {
    LabelPieces(key, vertices, edges, uid);
    ParseIntText(key);
    ParseIntText(uid);
    LiteralEvalRepr(PList(Ints(vertices)));
    LiteralEvalRepr(EdgePairs(edges));
  }

  /** `str` of each item followed by ", ": the text of a list up to the
      item after them. */
  function ItemsText(xs: seq<int>): string
  {
    if xs == [] then "" else IntText(xs[0]) + ", " + ItemsText(xs[1..])
  }

  /** The text of a list splits before item p into the text of the items
      before it and the text of the rest. */
  lemma {:induction false} JoinAt(xs: seq<int>, p: nat)
    requires p < |xs|
    ensures Join(Reprs(Ints(xs))) == ItemsText(xs[..p]) + Join(Reprs(Ints(xs[p..])))
  {
    if p > 0 {
      JoinReprs(Ints(xs));
      assert Ints(xs)[1..] == Ints(xs[1..]);
      JoinAt(xs[1..], p - 1);
      assert xs[1..][..p - 1] == xs[..p][1..] && xs[1..][p - 1..] == xs[p..];
      assert xs[..p][0] == xs[0];
    } else {
      assert xs[p..] == xs;
    }
  }

  /** Items from a negative one on: their text starts with the '-' of that
      item's sign. */
  lemma NegativeHead(xs: seq<int>)
    requires xs != [] && xs[0] < 0
    ensures Join(Reprs(Ints(xs))) == "-" + Join(Reprs(Ints(xs)))[1..]
  {
    JoinReprs(Ints(xs));
    assert Repr(Ints(xs)[0]) == "-" + NatText(-xs[0]);
  }

  lemma {:induction false} ItemsNoMinus(xs: seq<int>)
    requires NonNegativeVertices(xs)
    ensures '-' !in ItemsText(xs)
  {
    if xs != [] {
      NatTextNoMinus(xs[0]);
      ItemsNoMinus(xs[1..]);
    }
  }

  /** Items followed by ", " and then nothing are no list: the closing
      bracket is missing. */
  lemma {:induction false} ItemsUnclosed(xs: seq<int>)
    ensures ParseTail(ItemsText(xs), ']') == None
  {
    if xs != [] {
      var rest := ItemsText(xs[1..]);
      IntRoundTrip(xs[0], ", " + rest);
      assert ItemsText(xs) == IntText(xs[0]) + (", " + rest);
      ReprStart(PInt(xs[0]));
      ItemsUnclosed(xs[1..]);
      assert (", " + rest)[..2] == ", " && (", " + rest)[2..] == rest;
    }
  }

  /** The first negative vertex id of a list. */
  lemma {:induction false} FirstNegative(xs: seq<int>) returns (p: nat)
    requires !NonNegativeVertices(xs)
    ensures p < |xs| && xs[p] < 0 && NonNegativeVertices(xs[..p])
  {
    if xs[0] < 0 {
      p := 0;
    } else {
      var q := FirstNegative(xs[1..]);
      p := q + 1;
      assert xs[..p] == [xs[0]] + xs[1..][..q];
    }
  }

  /** The text of a list whose item p is the first negative one: the
      items before it, then the '-' of its sign. */
  lemma ListTextAt(xs: seq<int>, p: nat) returns (after: string)
    requires p < |xs| && xs[p] < 0
    ensures ListText(xs) == "[" + ItemsText(xs[..p]) + ['-'] + after
  {
    var items, from := ItemsText(xs[..p]), Join(Reprs(Ints(xs[p..])));
    JoinAt(xs, p);
    NegativeHead(xs[p..]);
    after := from[1..] + "]";
    assert ListText(xs) == "[" + (items + (['-'] + from[1..])) + "]";
    AppendAssoc(items, ['-'], from[1..]);
    AppendAssoc("[", items + ['-'], from[1..]);
    AppendAssoc("[" + items + ['-'], from[1..], "]");
  }

  lemma RegroupLabel(a: string, b: string, c: string, d: string, e: string)
    ensures a + "-" + ("[" + b + ['-'] + c) + "-" + d + "-" + e
         == a + ['-'] + (("[" + b) + ['-'] + (c + "-" + d + "-" + e))
  {
  }

  /** The text before the first '-' of a vertex list is no literal. */
  lemma UnclosedList(xs: seq<int>)
    requires NonNegativeVertices(xs)
    ensures LiteralEval("[" + ItemsText(xs)) == Err(SyntaxError)
  {
    var before := ItemsText(xs);
    ItemsUnclosed(xs);
    assert ("[" + before)[1..] == before;
    if xs != [] {
      ReprStart(PInt(xs[0]));
      assert before[0] == IntText(xs[0])[0];
    }
  }

  /** A negative vertex id puts a '-' inside the vertex list, so splitting
      the label on '-' cuts the list short and its text is no literal: the
      vertices cannot be read back. */
  lemma NegativeVertexUnreadable(key: nat, vertices: seq<int>, edges: seq<(int, int)>, uid: nat)
    requires !NonNegativeVertices(vertices)
    ensures GetVerticesInMotif(CoverLabel(key, vertices, edges, uid)) == Err(SyntaxError)
  {
    var p := FirstNegative(vertices);
    var before := ItemsText(vertices[..p]);
    var after := ListTextAt(vertices, p);
    var tail := after + "-" + Repr(EdgePairs(edges)) + "-" + NatText(uid);
    RegroupLabel(NatText(key), before, after, Repr(EdgePairs(edges)), NatText(uid));
    NatTextNoMinus(key);
    ItemsNoMinus(vertices[..p]);
    SplitConcat(NatText(key), ("[" + before) + ['-'] + tail, '-');
    SplitConcat("[" + before, tail, '-');
    UnclosedList(vertices[..p]);
  }
}
