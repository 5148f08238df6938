// The rewiring engine's edge pool: a list of elements plus a map from each
// element to its position, so that membership, insertion, removal (by
// swapping with the last element) and uniform drawing are all cheap.

module DrawSets {
  import opened Common

  class DrawSet<T(==)> {
    var edges: seq<T>
    var index: map<T, int>

    /** The position map and the list describe the same bijection, so the
        list holds no duplicates. */
    ghost predicate Valid()
      reads this
    {
      (forall i :: 0 <= i < |edges| ==> edges[i] in index && index[edges[i]] == i)
      && (forall x :: x in index ==> 0 <= index[x] < |edges| && edges[index[x]] == x)
    }

    ghost function Elements(): set<T>
      reads this
    {
      set i | 0 <= i < |edges| :: edges[i]
    }

    lemma ElementsAreIndexed()
      requires Valid()
      ensures Elements() == index.Keys
      ensures NoDuplicates(edges)
      ensures |Elements()| == |edges|
    {
      assert forall x :: x in index ==> x in Elements() by {
        forall x | x in index ensures x in Elements() {
          assert edges[index[x]] == x;
        }
      }
      DistinctCount(edges);
    }

    static lemma {:induction false} DistinctCount(s: seq<T>)
      requires NoDuplicates(s)
      ensures |set i | 0 <= i < |s| :: s[i]| == |s|
    {
      if s != [] {
        var t := s[..|s| - 1];
        DistinctCount(t);
        var a := set i | 0 <= i < |t| :: t[i];
        var b := set i | 0 <= i < |s| :: s[i];
        assert b == a + {s[|s| - 1]};
        assert s[|s| - 1] !in a;
      }
    }

    constructor ()
      ensures Valid() && edges == [] && index == map[]
    {
      edges := [];
      index := map[];
    }

    /** `e in draw_set` */
    method Contains(e: T) returns (b: bool)
      requires Valid()
      ensures b <==> e in Elements()
    {
      ElementsAreIndexed();
      b := e in index;
    }

    /** `len(draw_set)` */
    method Len() returns (n: nat)
      requires Valid()
      ensures n == |Elements()|
    {
      ElementsAreIndexed();
      n := |edges|;
    }

    /** Adding a present element is a no-op; a new one is appended and
        indexed at the new last position. */
    method Add(e: T)
      requires Valid()
      modifies this
      ensures Valid()
      ensures old(e in index) ==> edges == old(edges) && index == old(index)
      ensures old(e !in index) ==> edges == old(edges) + [e] && index == old(index)[e := old(|edges|)]
      ensures Elements() == old(Elements()) + {e}
    {
      if e in index {
        ElementsAreIndexed();
        return;
      }
      edges := edges + [e];
      index := index[e := |edges| - 1];
      assert edges[|edges| - 1] == e;
      assert Elements() == old(Elements()) + {e} by {
        forall x | x in Elements() ensures x in old(Elements()) + {e} {
          var i :| 0 <= i < |edges| && edges[i] == x;
          if i < |edges| - 1 {
            assert old(edges)[i] == x;
          }
        }
        forall x | x in old(Elements()) ensures x in Elements() {
          var i :| 0 <= i < |old(edges)| && old(edges)[i] == x;
          assert edges[i] == x;
        }
      }
    }

    /** Removal of a non-member raises KeyError before anything changes;
        otherwise the last element moves into the vacated slot. */
    method Remove(e: T) returns (r: Result<()>)
      requires Valid()
      modifies this
      ensures Valid()
      ensures r.Ok? <==> old(e in index)
      ensures r.Err? ==> r.error == KeyError && edges == old(edges) && index == old(index)
      ensures r.Ok? ==>
        var p, n := old(index[e]), old(|edges|) - 1;
        |edges| == n
        && (p == n ==> edges == old(edges[..n]) && index == old(index) - {e})
        && (p != n ==> edges == old(edges[..n])[p := old(edges[n])]
                       && index == (old(index) - {e})[old(edges[n]) := p])
      ensures Elements() == old(Elements()) - {e}
    {
      ElementsAreIndexed();
      if e !in index {
        return Err(KeyError);
      }
      var position := index[e];
      var last := edges[|edges| - 1];
      ghost var s, m := edges, index;
      if position != |edges| - 1 {
        edges := edges[..|edges| - 1][position := last];
        index := (index - {e})[last := position];
      } else {
        edges := edges[..|edges| - 1];
        index := index - {e};
      }
      r := Ok(());
      RemoveKeepsBijection(s, m, e);
    }

    /** The swap-with-last removal keeps the bijection and drops exactly e. */
    static lemma RemoveKeepsBijection(s: seq<T>, m: map<T, int>, e: T)
      requires forall i :: 0 <= i < |s| ==> s[i] in m && m[s[i]] == i
      requires forall x :: x in m ==> 0 <= m[x] < |s| && s[m[x]] == x
      requires e in m
      ensures var p, n := m[e], |s| - 1;
        var s' := if p != n then s[..n][p := s[n]] else s[..n];
        var m' := if p != n then (m - {e})[s[n] := p] else m - {e};
        (forall i :: 0 <= i < |s'| ==> s'[i] in m' && m'[s'[i]] == i)
        && (forall x :: x in m' ==> 0 <= m'[x] < |s'| && s'[m'[x]] == x)
        && (set i | 0 <= i < |s'| :: s'[i]) == (set i | 0 <= i < |s| :: s[i]) - {e}
    {
      var p, n := m[e], |s| - 1;
      var s' := if p != n then s[..n][p := s[n]] else s[..n];
      var m' := if p != n then (m - {e})[s[n] := p] else m - {e};
      forall i | 0 <= i < |s'| ensures s'[i] in m' && m'[s'[i]] == i {
        if i == p {
          assert s'[i] == s[n];
        } else {
          assert s'[i] == s[i];
        }
      }
      forall x | x in m' ensures 0 <= m'[x] < |s'| && s'[m'[x]] == x {
        if x != s[n] {
          assert m'[x] == m[x] && m[x] != n;
        }
      }
      var A := set i | 0 <= i < |s'| :: s'[i];
      var B := set i | 0 <= i < |s| :: s[i];
      forall x | x in A ensures x in B - {e} {
        var i :| 0 <= i < |s'| && s'[i] == x;
        if i == p { assert x == s[n]; } else { assert x == s[i]; }
      }
      forall x | x in B - {e} ensures x in A {
        var i :| 0 <= i < |s| && s[i] == x;
        if i == n && p != n { assert s'[p] == x; } else { assert s'[i] == x; }
      }
    }

    /** `random.choice(edges)`: some element, IndexError when empty. */
    method Draw() returns (r: Result<T>)
      requires Valid()
      ensures r.Ok? <==> edges != []
      ensures r.Err? ==> r.error == IndexError
      ensures r.Ok? ==> r.value in Elements()
    {
      if edges == [] {
        return Err(IndexError);
      }
      var i :| 0 <= i < |edges|;
      r := Ok(edges[i]);
    }
  }
}
