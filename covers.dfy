// The edge-disjoint edge clique cover (EECC) heuristic: the binomial
// coefficient, the maximal cliques cut down to a largest order m0, the
// scoring of each clique by how many of its edges other cliques share, and
// the greedy loop that takes a lowest-scoring largest clique, removes its
// edges from the graph and starts again until no edge is left.

module Covers {
  import opened Common
  import opened CoverLabels
  import Mpcc
  import Motifs

  // ----- binom -----

  /** The binomial coefficient, by Pascal's rule. */
  function Choose(n: nat, k: nat): nat
  {
    if k == 0 then 1
    else if n == 0 then 0
    else Choose(n - 1, k - 1) + Choose(n - 1, k)
  }

  function Fact(n: nat): (r: nat)
    ensures r >= 1
  {
    if n == 0 then 1 else n * Fact(n - 1)
  }

  lemma {:induction false} ChooseAbove(n: nat, k: nat)
    requires k > n
    ensures Choose(n, k) == 0
  {
    if n > 0 {
      ChooseAbove(n - 1, k - 1);
      ChooseAbove(n - 1, k);
    }
  }

  lemma {:induction false} ChooseAll(n: nat)
    ensures Choose(n, n) == 1
  {
    if n > 0 {
      ChooseAll(n - 1);
      ChooseAbove(n - 1, n);
    }
  }

  /** Pascal's coefficient is n! / (k! (n - k)!). */
  lemma {:induction false} ChooseFactorial(n: nat, k: nat)
    requires k <= n
    ensures Choose(n, k) * (Fact(k) * Fact(n - k)) == Fact(n)
  {
    if k == 0 {
    } else if k == n {
      ChooseAll(n);
    } else {
      ChooseFactorial(n - 1, k - 1);
      ChooseFactorial(n - 1, k);
      PascalFactorial(Choose(n - 1, k - 1), Choose(n - 1, k), Fact(k - 1), Fact(n - 1 - k), Fact(n - 1), k, n);
    }
  }

  /** The arithmetic of one Pascal step, on plain numbers: with
      a (k-1)! (n-k)! = (n-1)! and b k! (n-1-k)! = (n-1)!, the sum a + b
      times k! (n-k)! is n (n-1)!. */
  lemma PascalFactorial(a: int, b: int, fk: int, fj: int, f: int, k: int, n: int)
    requires 0 < k < n
    requires a * (fk * ((n - k) * fj)) == f && b * ((k * fk) * fj) == f
    ensures (a + b) * ((k * fk) * ((n - k) * fj)) == n * f
  {
    calc {
      (a + b) * ((k * fk) * ((n - k) * fj));
      k * (a * (fk * ((n - k) * fj))) + (n - k) * (b * ((k * fk) * fj));
      k * f + (n - k) * f;
    }
  }

  lemma MulCancel(a: int, b: int, c: int)
    requires c > 0 && a * c == b * c
    ensures a == b
  {
  }

  /** C(n, k) = C(n, n - k). */
  lemma ChooseSymmetric(n: nat, k: nat)
    requires k <= n
    ensures Choose(n, k) == Choose(n, n - k)
  {
    ChooseFactorial(n, k);
    ChooseFactorial(n, n - k);
    assert n - (n - k) == k;
    var x, y, f, g := Choose(n, k), Choose(n, n - k), Fact(k), Fact(n - k);
    SwapCancel(x, y, f, g);
  }

  /** One step of `binom`: C(n, i - 1) (n - i + 1) = i C(n, i), so the
      floor division by i that follows the product is exact. */
  lemma BinomStep(n: nat, i: nat)
    requires 1 <= i <= n
    ensures Choose(n, i - 1) * (n - i + 1) == i * Choose(n, i)
    ensures (Choose(n, i - 1) * (n - i + 1)) % i == 0
    ensures Choose(n, i - 1) * (n - i + 1) / i == Choose(n, i)
  {
    ChooseFactorial(n, i);
    ChooseFactorial(n, i - 1);
    var x, y, f, g := Choose(n, i - 1), Choose(n, i), Fact(i - 1), Fact(n - i);
    StepArithmetic(x, y, f, g, i, n - i + 1);
    DivModUnique(x * (n - i + 1), i, y, 0);
  }

  lemma SwapCancel(x: int, y: int, f: int, g: int)
    requires f > 0 && g > 0 && x * (f * g) == y * (g * f)
    ensures x == y
  {
    assert g * f == f * g;
    MulCancel(x, y, f * g);
  }

  lemma StepArithmetic(x: int, y: int, f: int, g: int, i: int, j: int)
    requires f > 0 && g > 0 && i > 0
    requires x * (f * (j * g)) == y * ((i * f) * g)
    ensures x * j == y * i
  {
    assert (x * j) * (f * g) == (y * i) * (f * g);
    MulCancel(x * j, y * i, f * g);
  }

  /** `binom(n, r)`: the loop runs min(r, n - r) times, and after the i-th
      step p is C(n, i). */
  method Binom(n0: int, r: int) returns (p: int)
    ensures 0 <= r <= n0 ==> p == Choose(n0, r)
    ensures (r < n0 - r ==> r <= 0) && (n0 - r <= r ==> n0 - r <= 0) ==> p == 1
  {
    p := 1;
    var n := n0;
    var m := if r < n0 - r then r else n0 - r;
    var i := 1;
    while i <= m
      invariant m >= 1 ==> 1 <= i <= m + 1 && 0 <= r && m <= n0 - r && m <= r
      invariant m < 1 ==> i == 1
      invariant n == n0 - (i - 1)
      invariant p == if m >= 1 then Choose(n0, i - 1) else 1
    {
      BinomStep(n0, i);
      p := p * n;
      p := p / i;
      n := n - 1;
      i := i + 1;
    }
    if 0 <= r <= n0 {
      if m < 1 {
        if r == 0 {
        } else {
          ChooseAll(n0);
        }
      } else if m != r {
        ChooseSymmetric(n0, r);
      }
    }
  }

  // ----- limited_maximal_cliques -----

  /** Every list of cs with x put in front. */
  function Prefixed(x: int, cs: seq<seq<int>>): (r: seq<seq<int>>)
    ensures |r| == |cs| && forall i :: 0 <= i < |cs| ==> r[i] == [x] + cs[i]
  {
    seq(|cs|, i requires 0 <= i < |cs| => [x] + cs[i])
  }

  /** `itertools.combinations(s, k)`: the k-element sub-lists of s, each
      keeping the order of s, in the order itertools yields them. */
  function Combinations(s: seq<int>, k: nat): seq<seq<int>>
    decreases |s|
  {
    if k == 0 then [[]]
    else if |s| < k then []
    else Prefixed(s[0], Combinations(s[1..], k - 1)) + Combinations(s[1..], k)
  }

  /** Each has k vertices. */
  lemma {:induction false} CombinationsLength(s: seq<int>, k: nat, c: seq<int>)
    requires c in Combinations(s, k)
    ensures |c| == k
    decreases |s|
  {
    if k > 0 && |s| >= k {
      var p := Prefixed(s[0], Combinations(s[1..], k - 1));
      if c in p {
        var i :| 0 <= i < |p| && p[i] == c;
        CombinationsLength(s[1..], k - 1, Combinations(s[1..], k - 1)[i]);
      } else {
        CombinationsLength(s[1..], k, c);
      }
    }
  }

  /** The first of them is the first k vertices. */
  lemma {:induction false} FirstCombination(s: seq<int>, k: nat)
    requires k <= |s|
    ensures |Combinations(s, k)| > 0 && Combinations(s, k)[0] == s[..k]
    decreases |s|
  {
    if k > 0 {
      FirstCombination(s[1..], k - 1);
      assert [s[0]] + s[1..][..k - 1] == s[..k];
    }
  }

  /** There are C(|s|, k) of them. */
  lemma {:induction false} CombinationsCount(s: seq<int>, k: nat)
    ensures |Combinations(s, k)| == Choose(|s|, k)
    decreases |s|
  {
    if k == 0 {
    } else if |s| < k {
      ChooseAbove(|s|, k);
    } else {
      CombinationsCount(s[1..], k - 1);
      CombinationsCount(s[1..], k);
      assert |Prefixed(s[0], Combinations(s[1..], k - 1))| == Choose(|s| - 1, k - 1);
    }
  }

  /** Each of them takes its vertices from s. */
  lemma {:induction false} CombinationsMembers(s: seq<int>, k: nat, c: seq<int>, v: int)
    requires c in Combinations(s, k) && v in c
    ensures v in s
    decreases |s|
  {
    if k > 0 && |s| >= k {
      var p := Prefixed(s[0], Combinations(s[1..], k - 1));
      if c in p {
        var i :| 0 <= i < |p| && p[i] == c;
        if v != s[0] {
          CombinationsMembers(s[1..], k - 1, Combinations(s[1..], k - 1)[i], v);
        }
      } else {
        CombinationsMembers(s[1..], k, c, v);
      }
    }
  }

  /** The sub-cliques that replace the cliques of more than m0 vertices:
      every m0-element combination of each of them. The source appends them
      sorted, but only the set of them reaches the result, so their order
      here is immaterial. */
  function Replacements(C: seq<seq<int>>, m0: nat): seq<seq<int>>
  {
    if C == [] then []
    else
      var last := C[|C| - 1];
      Replacements(C[..|C| - 1], m0) + (if |last| > m0 then Combinations(last, m0) else [])
  }

  lemma {:induction false} ReplacementsSound(C: seq<seq<int>>, m0: nat, x: seq<int>)
    requires x in Replacements(C, m0)
    ensures exists c :: 0 <= c < |C| && |C[c]| > m0 && x in Combinations(C[c], m0)
  {
    var init := C[..|C| - 1];
    if x in Replacements(init, m0) {
      ReplacementsSound(init, m0, x);
      var c :| 0 <= c < |init| && |init[c]| > m0 && x in Combinations(init[c], m0);
      assert init[c] == C[c];
    } else {
      assert |C[|C| - 1]| > m0 && x in Combinations(C[|C| - 1], m0);
    }
  }

  lemma {:induction false} ReplacementsComplete(C: seq<seq<int>>, m0: nat, c: nat, x: seq<int>)
    requires c < |C| && |C[c]| > m0 && x in Combinations(C[c], m0)
    ensures x in Replacements(C, m0)
  {
    var init := C[..|C| - 1];
    if c < |init| {
      assert init[c] == C[c];
      ReplacementsComplete(init, m0, c, x);
    }
  }

  /** The distinct rows left once the replaced cliques are dropped: the
      kept cliques with their vertices sorted, and the sub-cliques of the
      others as `combinations` gives them. */
  function Candidates(C: seq<seq<int>>, m0: nat): set<seq<int>>
  {
    (set c | 0 <= c < |C| && |C[c]| <= m0 :: Motifs.SortNodes(C[c]))
    + (set x | x in Replacements(C, m0))
  }

  /** Every candidate has at most m0 vertices, and each is either a kept
      clique, sorted, or an m0-vertex sub-list of a larger one. */
  lemma CandidatesMeaning(C: seq<seq<int>>, m0: nat, x: seq<int>)
    requires x in Candidates(C, m0)
    ensures |x| <= m0
    ensures (exists c :: 0 <= c < |C| && |C[c]| <= m0 && x == Motifs.SortNodes(C[c]))
         || (exists c :: 0 <= c < |C| && |C[c]| > m0 && x in Combinations(C[c], m0))
  {
    if x in Replacements(C, m0) {
      ReplacementsSound(C, m0, x);
      var c :| 0 <= c < |C| && |C[c]| > m0 && x in Combinations(C[c], m0);
      CombinationsLength(C[c], m0, x);
    } else {
      var c :| 0 <= c < |C| && |C[c]| <= m0 && x == Motifs.SortNodes(C[c]);
      assert |x| == |multiset(x)| == |multiset(C[c])|;
    }
  }

  // The sort key (-len(x), x[0], x[1]), with 0 for a missing x[1].

  function Second(x: seq<int>): int
  {
    if |x| > 1 then x[1] else 0
  }

  /** x comes no later than y under the key: longer first, then by first
      vertex, then by second. */
  predicate KeyLe(x: seq<int>, y: seq<int>)
    requires |x| >= 1 && |y| >= 1
  {
    |x| > |y| || (|x| == |y| && (x[0] < y[0] || (x[0] == y[0] && Second(x) <= Second(y))))
  }

  predicate NonEmpty(s: seq<seq<int>>)
  {
    forall i :: 0 <= i < |s| ==> |s[i]| >= 1
  }

  predicate KeySorted(s: seq<seq<int>>)
    requires NonEmpty(s)
  {
    forall i, j :: 0 <= i < j < |s| ==> KeyLe(s[i], s[j])
  }

  /** x put into a list before the first element it does not follow, the
      place a stable sort gives it. */
  function InsertByKey(x: seq<int>, s: seq<seq<int>>): (r: seq<seq<int>>)
    requires |x| >= 1 && NonEmpty(s)
    ensures multiset(r) == multiset(s) + multiset{x} && NonEmpty(r)
  {
    if s == [] then [x]
    else if KeyLe(x, s[0]) then [x] + s
    else
      var t := InsertByKey(x, s[1..]);
      assert s == [s[0]] + s[1..];
      [s[0]] + t
  }

  lemma KeyLeTransitive(x: seq<int>, y: seq<int>, z: seq<int>)
    requires |x| >= 1 && |y| >= 1 && |z| >= 1 && KeyLe(x, y) && KeyLe(y, z)
    ensures KeyLe(x, z)
  {
  }

  lemma {:induction false} InsertByKeySorted(x: seq<int>, s: seq<seq<int>>)
    requires |x| >= 1 && NonEmpty(s) && KeySorted(s)
    ensures KeySorted(InsertByKey(x, s))
  {
    if s != [] {
      if KeyLe(x, s[0]) {
        forall k | 0 <= k < |s| ensures KeyLe(x, s[k]) {
          if k > 0 {
            KeyLeTransitive(x, s[0], s[k]);
          }
        }
        ConsSorted(x, s);
      } else {
        InsertByKeySorted(x, s[1..]);
        var t := InsertByKey(x, s[1..]);
        forall k | 0 <= k < |t| ensures KeyLe(s[0], t[k]) {
          InsertByKeyMembers(x, s[1..], t[k]);
          if t[k] != x {
            var m :| 0 <= m < |s[1..]| && s[1..][m] == t[k];
            assert s[1..][m] == s[m + 1];
          }
        }
        ConsSorted(s[0], t);
      }
    }
  }

  lemma InsertByKeyMembers(x: seq<int>, s: seq<seq<int>>, y: seq<int>)
    requires |x| >= 1 && NonEmpty(s) && y in InsertByKey(x, s)
    ensures y == x || y in s
  {
    assert y in multiset(InsertByKey(x, s));
  }

  /** A head that comes no later than anything in a sorted list keeps it
      sorted. */
  lemma ConsSorted(h: seq<int>, t: seq<seq<int>>)
    requires |h| >= 1 && NonEmpty(t) && KeySorted(t)
    requires forall k :: 0 <= k < |t| ==> KeyLe(h, t[k])
    ensures NonEmpty([h] + t) && KeySorted([h] + t)
  {
    var r := [h] + t;
    forall i, j | 0 <= i < j < |r| ensures KeyLe(r[i], r[j]) {
      assert r[j] == t[j - 1];
      if i > 0 {
        assert r[i] == t[i - 1];
      }
    }
  }

  /** Python's `sorted` with the key: a key-sorted permutation. */
  function SortByKey(s: seq<seq<int>>): (r: seq<seq<int>>)
    requires NonEmpty(s)
    ensures multiset(r) == multiset(s) && NonEmpty(r) && KeySorted(r)
  {
    if s == [] then []
    else
      assert s == [s[0]] + s[1..];
      var t := SortByKey(s[1..]);
      InsertByKeySorted(s[0], t);
      InsertByKey(s[0], t)
  }

  /** Sorting with a key that reads x[0] (and, when `needSecond`, x[1]
      unguarded): IndexError once one list is too short, since the keys
      are all computed first. */
  function OrderByKey(s: seq<seq<int>>, needSecond: bool): (r: Result<seq<seq<int>>>)
    ensures r.Ok? <==> forall i :: 0 <= i < |s| ==> |s[i]| >= (if needSecond then 2 else 1)
    ensures r.Err? ==> r.error == IndexError
    ensures r.Ok? ==> multiset(r.value) == multiset(s) && NonEmpty(r.value) && KeySorted(r.value)
  {
    if exists i :: 0 <= i < |s| && |s[i]| < (if needSecond then 2 else 1) then Err(IndexError)
    else Ok(SortByKey(s))
  }

  /** The rows in some order, each once: the order in which the set of
      tuples happens to be enumerated. */
  predicate Enumerates(rows: seq<seq<int>>, s: set<seq<int>>)
  {
    NoDuplicates(rows) && (forall x :: x in rows ==> x in s) && (forall x :: x in s ==> x in rows)
  }

  lemma {:induction false} EnumerationExists(s: set<seq<int>>) returns (rows: seq<seq<int>>)
    ensures Enumerates(rows, s)
    decreases |s|
  {
    if s == {} {
      rows := [];
    } else {
      var x :| x in s;
      var rest := EnumerationExists(s - {x});
      rows := rest + [x];
    }
  }

  function SortEach(rows: seq<seq<int>>): (r: seq<seq<int>>)
    ensures |r| == |rows| && forall i :: 0 <= i < |rows| ==> r[i] == Motifs.SortNodes(rows[i])
  {
    seq(|rows|, i requires 0 <= i < |rows| => Motifs.SortNodes(rows[i]))
  }

  /** Sorting each row keeps its length, so each has at most m0 vertices. */
  lemma SortedRows(C: seq<seq<int>>, m0: nat, rows: seq<seq<int>>, i: nat)
    requires Enumerates(rows, Candidates(C, m0)) && i < |rows|
    ensures |SortEach(rows)[i]| == |rows[i]| <= m0 && Motifs.Ascending(SortEach(rows)[i])
  {
    var x := SortEach(rows)[i];
    assert |x| == |multiset(x)| == |multiset(rows[i])| == |rows[i]|;
    assert rows[i] in rows;
    CandidatesMeaning(C, m0, rows[i]);
  }

  /** For m0 >= 0, whatever the enumeration order of the set, the key
      raises IndexError exactly when an empty row is left. */
  lemma LimitedFails(C: seq<seq<int>>, m0: nat, rows: seq<seq<int>>)
    requires Enumerates(rows, Candidates(C, m0))
    ensures OrderByKey(SortEach(rows), false).Ok? <==> [] !in Candidates(C, m0)
  {
    var sorted := SortEach(rows);
    if [] in Candidates(C, m0) {
      var i :| 0 <= i < |rows| && rows[i] == [];
      SortedRows(C, m0, rows, i);
    } else {
      forall i | 0 <= i < |sorted| ensures |sorted[i]| >= 1 {
        SortedRows(C, m0, rows, i);
        assert rows[i] in rows;
      }
    }
  }

  /** Otherwise every returned clique has at most m0 vertices, in
      ascending order, and the list is ordered by the key. */
  lemma LimitedBounded(C: seq<seq<int>>, m0: nat, rows: seq<seq<int>>, i: nat)
    requires Enumerates(rows, Candidates(C, m0))
    requires OrderByKey(SortEach(rows), false).Ok?
    ensures var out := OrderByKey(SortEach(rows), false).value;
      NonEmpty(out) && KeySorted(out)
      && (i < |out| ==> |out[i]| <= m0 && Motifs.Ascending(out[i]))
  {
    var sorted := SortEach(rows);
    var out := OrderByKey(sorted, false).value;
    if i < |out| {
      assert out[i] in multiset(sorted);
      var k :| 0 <= k < |sorted| && sorted[k] == out[i];
      SortedRows(C, m0, rows, k);
    }
  }

  /** ... and its members are exactly the candidate rows, sorted. */
  lemma LimitedMembers(C: seq<seq<int>>, m0: nat, rows: seq<seq<int>>, x: seq<int>)
    requires Enumerates(rows, Candidates(C, m0))
    requires OrderByKey(SortEach(rows), false).Ok?
    ensures x in OrderByKey(SortEach(rows), false).value
        <==> exists y :: y in Candidates(C, m0) && x == Motifs.SortNodes(y)
  {
    var sorted := SortEach(rows);
    var out := OrderByKey(sorted, false).value;
    assert x in out <==> x in multiset(sorted);
    if x in sorted {
      var i :| 0 <= i < |sorted| && sorted[i] == x;
      assert rows[i] in rows;
    }
    if exists y :: y in Candidates(C, m0) && x == Motifs.SortNodes(y) {
      var y :| y in Candidates(C, m0) && x == Motifs.SortNodes(y);
      var i :| 0 <= i < |rows| && rows[i] == y;
      assert sorted[i] == x;
    }
  }

  /** With m0 >= 1 and no empty clique, no row is empty. */
  lemma NoEmptyCandidate(C: seq<seq<int>>, m0: nat)
    requires m0 >= 1 && NonEmpty(C)
    ensures [] !in Candidates(C, m0)
  {
    if [] in Candidates(C, m0) {
      CandidatesMeaning(C, m0, []);
      if exists c :: 0 <= c < |C| && |C[c]| > m0 && [] in Combinations(C[c], m0) {
        var c :| 0 <= c < |C| && |C[c]| > m0 && [] in Combinations(C[c], m0);
        CombinationsLength(C[c], m0, []);
      }
    }
  }

  /** The set removes repeated tuples before the vertices are sorted, so
      sub-cliques holding the same vertices in different orders both
      survive. Two maximal cliques larger than m0 whose first m0 vertices
      are the same set listed in different orders (networkx gives
      {1, 3, 5} and {1, 3, 7} as [1, 3, 5] and [3, 1, 7], say, with
      m0 = 2) leave the same clique twice in the result, whatever the
      enumeration order. */
  lemma DuplicatesSurvive(C: seq<seq<int>>, m0: nat, rows: seq<seq<int>>, p: nat, q: nat)
    requires Enumerates(rows, Candidates(C, m0))
    requires m0 >= 1 && NonEmpty(C)
    requires p < |C| && q < |C| && |C[p]| > m0 && |C[q]| > m0
    requires C[p][..m0] != C[q][..m0] && Motifs.SortNodes(C[p][..m0]) == Motifs.SortNodes(C[q][..m0])
    ensures var r := OrderByKey(SortEach(rows), false);
      r.Ok? && !NoDuplicates(r.value)
  {
    FirstCombination(C[p], m0);
    FirstCombination(C[q], m0);
    ReplacementsComplete(C, m0, p, C[p][..m0]);
    ReplacementsComplete(C, m0, q, C[q][..m0]);
    SameOnceSorted(rows, C[p][..m0], C[q][..m0]);
    LimitedFails(C, m0, rows);
    NoEmptyCandidate(C, m0);
  }

  /** Two distinct rows with the same vertices leave a repeated clique in
      any ordering of the sorted rows. */
  lemma SameOnceSorted(rows: seq<seq<int>>, a: seq<int>, b: seq<int>)
    requires a in rows && b in rows && a != b && Motifs.SortNodes(a) == Motifs.SortNodes(b)
    ensures forall out :: multiset(out) == multiset(SortEach(rows)) ==> !NoDuplicates(out)
  {
    var i :| 0 <= i < |rows| && rows[i] == a;
    var j :| 0 <= j < |rows| && rows[j] == b;
    var sorted := SortEach(rows);
    assert sorted[i] == sorted[j] && i != j;
    forall out | multiset(out) == multiset(sorted) ensures !NoDuplicates(out) {
      if NoDuplicates(out) {
        NoDuplicatesPermutation(out, sorted);
      }
    }
  }

  // ----- compute_scores -----

  lemma {:induction false} ChooseOne(n: nat)
    ensures Choose(n, 1) == n
  {
    if n > 0 {
      ChooseOne(n - 1);
    }
  }

  /** A clique of n vertices has n (n - 1) / 2 edges. */
  lemma {:induction false} ChooseTwo(n: nat)
    ensures 2 * Choose(n, 2) == n * (n - 1)
  {
    if n > 0 {
      ChooseTwo(n - 1);
      ChooseOne(n - 1);
    }
  }

  /** Some clique of C other than the c-th holds both u and v. */
  predicate InOther(C: seq<seq<int>>, c: int, u: int, v: int)
  {
    exists n :: 0 <= n < |C| && n != c && u in C[n] && v in C[n]
  }

  /** How many of the pairs (s[i], s[j']), j <= j' < |s|, another clique
      holds. */
  function RowShared(C: seq<seq<int>>, c: int, s: seq<int>, i: nat, j: nat): nat
    requires i < |s|
    decreases |s| - j
  {
    if j >= |s| then 0
    else (if InOther(C, c, s[i], s[j]) then 1 else 0) + RowShared(C, c, s, i, j + 1)
  }

  /** How many of the pairs (s[i'], s[j]), i <= i' < j < |s|, another
      clique holds. */
  function Shared(C: seq<seq<int>>, c: int, s: seq<int>, i: nat): nat
    decreases |s| - i
  {
    if i >= |s| then 0 else RowShared(C, c, s, i, i + 1) + Shared(C, c, s, i + 1)
  }

  /** The score of the c-th clique: the share of its edges that some other
      clique also holds; 0 for cliques of at most two vertices. */
  function Score(C: seq<seq<int>>, c: nat): real
    requires c < |C|
  {
    Ratio(Shared(C, c, Motifs.SortNodes(C[c]), 0), |C[c]|)
  }

  /** shared / binom(order, 2) for more than two vertices, else 0. */
  function Ratio(shared: nat, order: nat): real
  {
    if order > 2 then
      ChooseTwo(order);
      (shared as real) / (Choose(order, 2) as real)
    else 0.0
  }

  lemma {:induction false} RowSharedBound(C: seq<seq<int>>, c: int, s: seq<int>, i: nat, j: nat)
    requires i < |s| && j <= |s|
    ensures RowShared(C, c, s, i, j) <= |s| - j
    decreases |s| - j
  {
    if j < |s| {
      RowSharedBound(C, c, s, i, j + 1);
    }
  }

  /** At most every pair is shared. */
  lemma {:induction false} SharedBound(C: seq<seq<int>>, c: int, s: seq<int>, i: nat)
    requires i <= |s|
    ensures Shared(C, c, s, i) <= Choose(|s| - i, 2)
    decreases |s| - i
  {
    if i < |s| {
      SharedBound(C, c, s, i + 1);
      RowSharedBound(C, c, s, i, i + 1);
      ChooseOne(|s| - i - 1);
    }
  }

  lemma {:induction false} RowSharedZero(C: seq<seq<int>>, c: int, s: seq<int>, i: nat, j: nat)
    requires i < |s|
    ensures RowShared(C, c, s, i, j) == 0 <==> forall b :: j <= b < |s| ==> !InOther(C, c, s[i], s[b])
    decreases |s| - j
  {
    if j < |s| {
      RowSharedZero(C, c, s, i, j + 1);
    }
  }

  /** No other clique holds a pair (s[a], s[b]) with i <= a < b. */
  predicate NoneShared(C: seq<seq<int>>, c: int, s: seq<int>, i: nat)
  {
    forall a, b :: i <= a < b < |s| ==> !InOther(C, c, s[a], s[b])
  }

  /** No pair is shared exactly when the count is 0. */
  lemma {:induction false} SharedZero(C: seq<seq<int>>, c: int, s: seq<int>, i: nat)
    ensures Shared(C, c, s, i) == 0 <==> NoneShared(C, c, s, i)
    decreases |s| - i
  {
    if i < |s| {
      SharedZero(C, c, s, i + 1);
      RowSharedZero(C, c, s, i, i + 1);
      if Shared(C, c, s, i) == 0 {
        forall a, b | i <= a < b < |s| ensures !InOther(C, c, s[a], s[b]) {
          if a == i {
            assert i + 1 <= b;
          }
        }
      }
    }
  }

  /** A score lies between 0 and 1, and is 0 exactly for a clique of at
      most two vertices or one no pair of whose (sorted) vertices another
      clique holds. */
  lemma ScoreMeaning(C: seq<seq<int>>, c: nat)
    requires c < |C|
    ensures 0.0 <= Score(C, c) <= 1.0
    ensures Score(C, c) == 0.0 <==> |C[c]| <= 2 || NoneShared(C, c, Motifs.SortNodes(C[c]), 0)
  {
    var s := Motifs.SortNodes(C[c]);
    assert |s| == |multiset(s)| == |C[c]|;
    SharedZero(C, c, s, 0);
    if |s| > 2 {
      SharedBound(C, c, s, 0);
      ChooseTwo(|s|);
      var k, n := Shared(C, c, s, 0), Choose(|s|, 2);
      ChoosePositive(|s|);
      RatioIs(k, |C[c]|);
      RatioBounds(k as real, n as real);
    }
  }

  lemma RatioIs(k: nat, order: nat)
    requires order > 2
    ensures Choose(order, 2) > 0
    ensures Ratio(k, order) == (k as real) / (Choose(order, 2) as real)
  {
    ChoosePositive(order);
  }

  /** binom(n, 2) > 0 once there are two vertices. */
  lemma ChoosePositive(n: nat)
    requires n >= 2
    ensures Choose(n, 2) > 0
  {
    ChooseTwo(n);
    assert n * (n - 1) >= n;
  }

  lemma RatioBounds(k: real, n: real)
    requires 0.0 <= k <= n && n > 0.0
    ensures 0.0 <= k / n <= 1.0 && (k / n == 0.0 <==> k == 0.0)
  {
  }

  /** What one call leaves behind: the clique list, the cover, the orders,
      the scores and the zero-score indexes. */
  datatype Scores = Scores(cliques: seq<seq<int>>, cover: seq<seq<int>>, orders: seq<int>, scores: seq<real>, indexes: seq<int>)

  /** Which cliques end at score 0: r[c] plus the c-th score. */
  function ZeroFlags(C: seq<seq<int>>, r: seq<real>): (z: seq<bool>)
    ensures |z| == |C|
  {
    seq(|C|, c requires 0 <= c < |C| => c < |r| && r[c] + Score(C, c) == 0.0)
  }

  /** ord with the order of each clique written in. */
  function Orders(C: seq<seq<int>>, ord: seq<int>): (t: seq<int>)
    ensures |t| == |ord|
  {
    seq(|ord|, k requires 0 <= k < |ord| => if k < |C| then |C[k]| else ord[k])
  }

  /** r with the score of each clique added. */
  function Rescored(C: seq<seq<int>>, r: seq<real>): (t: seq<real>)
    ensures |t| == |r|
  {
    seq(|r|, k requires 0 <= k < |r| => if k < |C| then r[k] + Score(C, k) else r[k])
  }

  /** The indexes below n whose flag is set, in index order. */
  function Indexes(flags: seq<bool>, n: nat): seq<int>
    requires n <= |flags|
  {
    if n == 0 then [] else Indexes(flags, n - 1) + (if flags[n - 1] then [n - 1] else [])
  }

  /** The cliques at those indexes, sorted. */
  function Picked(C: seq<seq<int>>, flags: seq<bool>, n: nat): seq<seq<int>>
    requires n <= |flags| && n <= |C|
  {
    if n == 0 then [] else Picked(C, flags, n - 1) + (if flags[n - 1] then [Motifs.SortNodes(C[n - 1])] else [])
  }

  /** `compute_scores(C, EC, ord, r, indexes)`: each clique sorted, its
      order written to ord, its score added to r, and the cliques left at
      score 0 appended to EC, their indexes to `indexes`. IndexError when
      ord or r is shorter than C. */
  function Scored(C: seq<seq<int>>, EC: seq<seq<int>>, ord: seq<int>, r: seq<real>, indexes: seq<int>): Result<Scores>
  {
    if |C| > |ord| || |C| > |r| then Err(IndexError)
    else
      var zero := ZeroFlags(C, r);
      Ok(Scores(SortEach(C), EC + Picked(C, zero, |C|),
                Orders(C, ord), Rescored(C, r), indexes + Indexes(zero, |C|)))
  }

  lemma ScoredFails(C: seq<seq<int>>, EC: seq<seq<int>>, ord: seq<int>, r: seq<real>, indexes: seq<int>)
    requires |C| > |ord| || |C| > |r|
    ensures Scored(C, EC, ord, r, indexes) == Err(IndexError)
  {
  }

  lemma ScoredSucceeds(C: seq<seq<int>>, EC: seq<seq<int>>, ord: seq<int>, r: seq<real>, indexes: seq<int>)
    requires |C| <= |ord| && |C| <= |r|
    ensures var zero := ZeroFlags(C, r);
      Scored(C, EC, ord, r, indexes)
      == Ok(Scores(SortEach(C), EC + Picked(C, zero, |C|), Orders(C, ord), Rescored(C, r), indexes + Indexes(zero, |C|)))
  {
  }

  /** The indexes are exactly the flagged ones below n, in increasing
      order. */
  lemma {:induction false} IndexesMembers(flags: seq<bool>, n: nat, i: int)
    requires n <= |flags|
    ensures i in Indexes(flags, n) <==> 0 <= i < n && flags[i]
  {
    if n > 0 {
      IndexesMembers(flags, n - 1, i);
    }
  }

  predicate Increasing(z: seq<int>)
  {
    forall a, b :: 0 <= a < b < |z| ==> z[a] < z[b]
  }

  lemma {:induction false} IndexesIncreasing(flags: seq<bool>, n: nat)
    requires n <= |flags|
    ensures Increasing(Indexes(flags, n))
  {
    if n > 0 {
      IndexesIncreasing(flags, n - 1);
      var z' := Indexes(flags, n - 1);
      assert Increasing(z');
      forall a | 0 <= a < |z'| ensures z'[a] < n - 1 {
        IndexesMembers(flags, n - 1, z'[a]);
      }
      var z := Indexes(flags, n);
      if flags[n - 1] {
        assert z == z' + [n - 1];
        forall a, b | 0 <= a < b < |z| ensures z[a] < z[b] {
          if b < |z'| {
            assert z[a] == z'[a] && z[b] == z'[b];
          } else {
            assert z[a] == z'[a] && z[b] == n - 1;
          }
        }
      } else {
        assert z == z';
      }
    }
  }

  /** The k-th picked clique is the k-th indexed row of S. */
  predicate PicksAt(S: seq<seq<int>>, P: seq<seq<int>>, z: seq<int>)
  {
    |P| == |z| && forall k :: 0 <= k < |z| ==> 0 <= z[k] < |S| && P[k] == S[z[k]]
  }

  /** The cover gains the cliques at those indexes, sorted. */
  lemma {:induction false} PickedMatch(C: seq<seq<int>>, flags: seq<bool>, n: nat)
    requires n <= |flags| && n <= |C|
    ensures PicksAt(SortEach(C), Picked(C, flags, n), Indexes(flags, n))
  {
    if n > 0 {
      PickedMatch(C, flags, n - 1);
      var P, z := Picked(C, flags, n - 1), Indexes(flags, n - 1);
      if flags[n - 1] {
        PickedLast(SortEach(C), P, z, n - 1);
      } else {
        assert Picked(C, flags, n) == P + [] == P;
        assert Indexes(flags, n) == z + [] == z;
      }
    }
  }

  lemma PickedLast(S: seq<seq<int>>, P: seq<seq<int>>, z: seq<int>, i: int)
    requires 0 <= i < |S| && PicksAt(S, P, z)
    ensures PicksAt(S, P + [S[i]], z + [i])
  {
    var z', P' := z + [i], P + [S[i]];
    forall k | 0 <= k < |z'| ensures 0 <= z'[k] < |S| && P'[k] == S[z'[k]] {
      if k < |z| {
        assert z'[k] == z[k] && P'[k] == P[k];
      }
    }
  }

  /** Scored from all-zero scores, as `get_EECC` calls it: a clique goes to
      the cover exactly when it has at most two vertices or none of its
      pairs lies in another clique. */
  lemma ZeroScoreCover(C: seq<seq<int>>, r: seq<real>, c: nat)
    requires |r| == |C| && c < |C| && forall k :: 0 <= k < |r| ==> r[k] == 0.0
    ensures c in Indexes(ZeroFlags(C, r), |C|) <==> |C[c]| <= 2 || NoneShared(C, c, Motifs.SortNodes(C[c]), 0)
  {
    var z := ZeroFlags(C, r);
    IndexesMembers(z, |C|, c);
    assert z[c] <==> r[c] + Score(C, c) == 0.0;
    assert r[c] == 0.0;
    ScoreMeaning(C, c);
  }

  /** The lists hold the same vertices clique by clique. */
  predicate SameBags(C: seq<seq<int>>, D: seq<seq<int>>)
  {
    |C| == |D| && forall k :: 0 <= k < |C| ==> multiset(C[k]) == multiset(D[k])
  }

  lemma InOtherSame(C: seq<seq<int>>, D: seq<seq<int>>, c: int, u: int, v: int)
    requires SameBags(C, D)
    ensures InOther(C, c, u, v) == InOther(D, c, u, v)
  {
    if InOther(C, c, u, v) {
      var n :| 0 <= n < |C| && n != c && u in C[n] && v in C[n];
      assert u in multiset(C[n]) && v in multiset(C[n]);
    }
    if InOther(D, c, u, v) {
      var n :| 0 <= n < |D| && n != c && u in D[n] && v in D[n];
      assert u in multiset(D[n]) && v in multiset(D[n]);
    }
  }

  lemma {:induction false} RowSharedSame(C: seq<seq<int>>, D: seq<seq<int>>, c: int, s: seq<int>, i: nat, j: nat)
    requires SameBags(C, D) && i < |s|
    ensures RowShared(C, c, s, i, j) == RowShared(D, c, s, i, j)
    decreases |s| - j
  {
    if j < |s| {
      InOtherSame(C, D, c, s[i], s[j]);
      RowSharedSame(C, D, c, s, i, j + 1);
    }
  }

  lemma {:induction false} SharedSame(C: seq<seq<int>>, D: seq<seq<int>>, c: int, s: seq<int>, i: nat)
    requires SameBags(C, D)
    ensures Shared(C, c, s, i) == Shared(D, c, s, i)
    decreases |s| - i
  {
    if i < |s| {
      RowSharedSame(C, D, c, s, i, i + 1);
      SharedSame(C, D, c, s, i + 1);
    }
  }

  /** The while loop: whether a clique other than the c-th holds both u
      and v. */
  method FoundInOther(C: seq<seq<int>>, c: int, u: int, v: int) returns (f: bool)
    ensures f <==> InOther(C, c, u, v)
  {
    f := false;
    var n := 0;
    while n <= |C| - 1
      invariant 0 <= n <= |C|
      invariant forall m :: 0 <= m < n ==> !(m != c && u in C[m] && v in C[m])
    {
      if n != c && u in C[n] && v in C[n] {
        f := true;
        return;
      } else {
        n := n + 1;
      }
    }
  }

  lemma AddOne(k: nat, size: real)
    requires size > 0.0
    ensures (k as real) / size + 1.0 / size == ((k + 1) as real) / size
  {
  }

  /** The two loops over the vertex pairs of the c-th clique: 1/size is
      added for every pair another clique holds. */
  method AddShared(C: seq<seq<int>>, c: nat, size: int, rc0: real) returns (rc: real)
    requires c < |C| && size > 0
    ensures rc == rc0 + (Shared(C, c, C[c], 0) as real) / (size as real)
  {
    rc := rc0;
    var s := C[c];
    var order := |s|;
    ghost var k: nat := 0;
    for i := 0 to order
      invariant k + Shared(C, c, s, i) == Shared(C, c, s, 0)
      invariant rc == rc0 + (k as real) / (size as real)
    {
      for j := i + 1 to order
        invariant k + RowShared(C, c, s, i, j) + Shared(C, c, s, i + 1) == Shared(C, c, s, 0)
        invariant rc == rc0 + (k as real) / (size as real)
      {
        var f := FoundInOther(C, c, s[i], s[j]);
        if f {
          AddOne(k, size as real);
          rc := rc + 1.0 / (size as real);
          k := k + 1;
        }
      }
    }
  }

  /** The body of the loop for the c-th clique, once it is sorted: for more
      than two vertices, size = binom(order, 2) and the pair loops. */
  method ScoreClique(C: seq<seq<int>>, C0: seq<seq<int>>, c: nat, rc0: real) returns (rc: real)
    requires SameBags(C, C0) && c < |C| && C[c] == Motifs.SortNodes(C0[c])
    ensures rc == rc0 + Score(C0, c)
  {
    var order := |C[c]|;
    assert order == |multiset(C[c])| == |C0[c]|;
    SharedSame(C, C0, c, C[c], 0);
    assert Score(C0, c) == Ratio(Shared(C, c, C[c], 0), order);
    rc := rc0;
    if order > 2 {
      var size := Binom(order, 2);
      ChoosePositive(order);
      rc := AddShared(C, c, size, rc0);
    }
  }

  /** The end of the loop body: a clique left at score 0 joins the cover
      and its index the list of indexes. */
  method Collect(ghost C0: seq<seq<int>>, ghost zero: seq<bool>, c: nat, rc: real, clique: seq<int>,
                 ghost EC0: seq<seq<int>>, EC: seq<seq<int>>, ghost indexes0: seq<int>, indexes: seq<int>)
    returns (EC': seq<seq<int>>, indexes': seq<int>)
    requires c < |zero| && c < |C0| && zero[c] == (rc == 0.0) && clique == Motifs.SortNodes(C0[c])
    requires EC == EC0 + Picked(C0, zero, c) && indexes == indexes0 + Indexes(zero, c)
    ensures EC' == EC0 + Picked(C0, zero, c + 1) && indexes' == indexes0 + Indexes(zero, c + 1)
  {
    EC', indexes' := EC, indexes;
    if rc == 0.0 {
      EC' := EC + [clique];
      indexes' := indexes + [c];
      Regrouped(EC0, Picked(C0, zero, c), [clique]);
      Regrouped(indexes0, Indexes(zero, c), [c]);
    } else {
      assert Picked(C0, zero, c) + [] == Picked(C0, zero, c);
      assert Indexes(zero, c) + [] == Indexes(zero, c);
    }
  }

  lemma Regrouped<T>(a: seq<T>, b: seq<T>, c: seq<T>)
    ensures a + b + c == a + (b + c)
  {
  }

  /** The first c rows of C replaced by those of `done`. */
  predicate UpdatedUpTo<T(==)>(a: seq<T>, done: seq<T>, a0: seq<T>, c: nat)
  {
    |a| == |a0| == |done| && c <= |a| && forall k :: 0 <= k < |a| ==> a[k] == if k < c then done[k] else a0[k]
  }

  lemma UpdateStep<T>(a: seq<T>, done: seq<T>, a0: seq<T>, c: nat)
    requires UpdatedUpTo(a, done, a0, c) && c < |a|
    ensures UpdatedUpTo(a[c := done[c]], done, a0, c + 1)
  {
  }

  lemma UpdateDone<T>(a: seq<T>, done: seq<T>, a0: seq<T>)
    requires UpdatedUpTo(a, done, a0, |a|)
    ensures a == done
  {
  }

  /** The c-th clique sorted in place, its order written to ord and its
      score added to r. */
  method ScoreStep(C0: seq<seq<int>>, ghost ord0: seq<int>, ghost r0: seq<real>,
                   ghost zero: seq<bool>, ghost sorted: seq<seq<int>>, ghost orders: seq<int>, ghost target: seq<real>,
                   c: nat, C: seq<seq<int>>, ord: seq<int>, r: seq<real>)
    returns (C': seq<seq<int>>, ord': seq<int>, r': seq<real>, rc: real)
    requires c < |C0| <= |ord0| && |C0| <= |r0|
    requires zero == ZeroFlags(C0, r0) && sorted == SortEach(C0) && orders == Orders(C0, ord0) && target == Rescored(C0, r0)
    requires UpdatedUpTo(C, sorted, C0, c) && UpdatedUpTo(ord, orders, ord0, c) && UpdatedUpTo(r, target, r0, c)
    ensures UpdatedUpTo(C', sorted, C0, c + 1) && UpdatedUpTo(ord', orders, ord0, c + 1) && UpdatedUpTo(r', target, r0, c + 1)
    ensures zero[c] == (rc == 0.0) && C'[c] == Motifs.SortNodes(C0[c])
  {
    var order := |C[c]|;
    UpdateStep(C, sorted, C0, c);
    C' := C[c := Motifs.SortNodes(C[c])];
    UpdateStep(ord, orders, ord0, c);
    ord' := ord[c := order];
    SortedBags(C', C0, sorted, c);
    rc := ScoreClique(C', C0, c, r[c]);
    UpdateStep(r, target, r0, c);
    r' := r[c := rc];
  }

  lemma SortedBags(C: seq<seq<int>>, C0: seq<seq<int>>, sorted: seq<seq<int>>, c: nat)
    requires sorted == SortEach(C0) && UpdatedUpTo(C, sorted, C0, c + 1)
    ensures SameBags(C, C0)
  {
  }

  /** The loop of `compute_scores` over the cliques, once ord and r are
      known to be long enough. */
  method ScoreLoop(C0: seq<seq<int>>, EC0: seq<seq<int>>, ord0: seq<int>, r0: seq<real>, indexes0: seq<int>,
                   ghost zero: seq<bool>, ghost sorted: seq<seq<int>>, ghost orders: seq<int>, ghost target: seq<real>)
    returns (C: seq<seq<int>>, EC: seq<seq<int>>, ord: seq<int>, r: seq<real>, indexes: seq<int>)
    requires |C0| <= |ord0| && |C0| <= |r0|
    requires zero == ZeroFlags(C0, r0) && sorted == SortEach(C0) && orders == Orders(C0, ord0) && target == Rescored(C0, r0)
    ensures C == sorted && ord == orders && r == target
    ensures EC == EC0 + Picked(C0, zero, |C0|) && indexes == indexes0 + Indexes(zero, |C0|)
  {
    C, EC, ord, r, indexes := C0, EC0, ord0, r0, indexes0;
    var numCliques := |C|;
    for c := 0 to numCliques
      invariant UpdatedUpTo(C, sorted, C0, c) && UpdatedUpTo(ord, orders, ord0, c) && UpdatedUpTo(r, target, r0, c)
      invariant EC == EC0 + Picked(C0, zero, c) && indexes == indexes0 + Indexes(zero, c)
    {
      var rc;
      C, ord, r, rc := ScoreStep(C0, ord0, r0, zero, sorted, orders, target, c, C, ord, r);
      EC, indexes := Collect(C0, zero, c, rc, C[c], EC0, EC, indexes0, indexes);
    }
    UpdateDone(C, sorted, C0);
    UpdateDone(ord, orders, ord0);
    UpdateDone(r, target, r0);
  }

  /** `compute_scores`, on values: the lists it mutates are taken in and
      handed back. The lengths are compared first; the source raises the
      same IndexError at the first index past the end of ord or r. */
  method ComputeScores(C0: seq<seq<int>>, EC0: seq<seq<int>>, ord0: seq<int>, r0: seq<real>, indexes0: seq<int>)
    returns (res: Result<Scores>)
    ensures res == Scored(C0, EC0, ord0, r0, indexes0)
  {
    if |C0| > |ord0| || |C0| > |r0| {
      ScoredFails(C0, EC0, ord0, r0, indexes0);
      return Err(IndexError);
    }
    var C, EC, ord, r, indexes := ScoreLoop(C0, EC0, ord0, r0, indexes0,
                                            ZeroFlags(C0, r0), SortEach(C0), Orders(C0, ord0), Rescored(C0, r0));
    ScoredSucceeds(C0, EC0, ord0, r0, indexes0);
    res := Ok(Scores(C, EC, ord, r, indexes));
  }

  // ----- limited_maximal_cliques, as its loop runs -----

  /** What `limited_maximal_cliques` may return for the maximal cliques C:
      ValueError from `combinations` when m0 is negative and there is a
      clique to cut down, and otherwise the candidate rows, enumerated in
      some order, each sorted, then ordered by the key. */
  ghost predicate LimitedOutcome(C: seq<seq<int>>, m0: int, r: Result<seq<seq<int>>>)
  {
    if m0 < 0 then r == (if C == [] then Ok([]) else Err(ValueError))
    else exists rows :: Enumerates(rows, Candidates(C, m0)) && r == OrderByKey(SortEach(rows), false)
  }

  /** The list once the first c cliques have been visited: the kept ones
      sorted in place, the sub-cliques of the others appended. */
  predicate Visited(C0: seq<seq<int>>, m0: nat, c: nat, C: seq<seq<int>>)
    requires c <= |C0|
  {
    |C| == |C0| + |Replacements(C0[..c], m0)|
    && (forall k :: 0 <= k < |C0| ==> C[k] == if k < c && |C0[k]| <= m0 then Motifs.SortNodes(C0[k]) else C0[k])
    && C[|C0|..] == Replacements(C0[..c], m0)
  }

  lemma VisitedStart(C0: seq<seq<int>>, m0: nat)
    ensures Visited(C0, m0, 0, C0)
  {
    assert C0[..0] == [];
    assert C0[|C0|..] == [];
  }

  lemma ReplacementsStep(C0: seq<seq<int>>, m0: nat, c: nat)
    requires c < |C0|
    ensures Replacements(C0[..c + 1], m0)
         == Replacements(C0[..c], m0) + (if |C0[c]| > m0 then Combinations(C0[c], m0) else [])
  {
    assert C0[..c + 1][..c] == C0[..c];
  }

  /** A clique larger than m0: its sub-cliques are appended. */
  lemma VisitedReplace(C0: seq<seq<int>>, m0: nat, c: nat, C: seq<seq<int>>)
    requires c < |C0| && Visited(C0, m0, c, C) && |C0[c]| > m0
    ensures Visited(C0, m0, c + 1, C + Combinations(C0[c], m0))
  {
    ReplacementsStep(C0, m0, c);
    var C' := C + Combinations(C0[c], m0);
    DropAppend(C, Combinations(C0[c], m0), |C0|);
    forall k | 0 <= k < |C0|
      ensures C'[k] == if k < c + 1 && |C0[k]| <= m0 then Motifs.SortNodes(C0[k]) else C0[k]
    {
      assert C'[k] == C[k];
    }
  }

  lemma DropAppend(a: seq<seq<int>>, b: seq<seq<int>>, n: nat)
    requires n <= |a|
    ensures (a + b)[n..] == a[n..] + b
  {
  }

  /** A clique of at most m0 vertices: it is sorted in place. */
  lemma VisitedKeep(C0: seq<seq<int>>, m0: nat, c: nat, C: seq<seq<int>>)
    requires c < |C0| && Visited(C0, m0, c, C) && |C0[c]| <= m0
    ensures Visited(C0, m0, c + 1, C[c := Motifs.SortNodes(C0[c])])
  {
    ReplacementsStep(C0, m0, c);
    var C' := C[c := Motifs.SortNodes(C0[c])];
    assert C'[|C0|..] == C[|C0|..];
  }

  /** After the last clique, the rows whose index was not dropped are
      exactly the candidates. */
  lemma VisitedAll(C0: seq<seq<int>>, m0: nat, C: seq<seq<int>>, dropped: seq<int>)
    requires Visited(C0, m0, |C0|, C)
    requires forall k :: k in dropped <==> 0 <= k < |C0| && |C0[k]| > m0
    ensures (set i | 0 <= i < |C| && i !in dropped :: C[i]) == Candidates(C0, m0)
  {
    assert C0[..|C0|] == C0;
    var left := set i | 0 <= i < |C| && i !in dropped :: C[i];
    forall x | x in left ensures x in Candidates(C0, m0) {
      var i :| 0 <= i < |C| && i !in dropped && C[i] == x;
      if i >= |C0| {
        assert C[|C0|..][i - |C0|] == x;
      }
    }
    forall x | x in Candidates(C0, m0) ensures x in left {
      if x in Replacements(C0, m0) {
        var t :| 0 <= t < |Replacements(C0, m0)| && Replacements(C0, m0)[t] == x;
        assert C[|C0| + t] == C[|C0|..][t];
        assert |C0| + t !in dropped;
      } else {
        var c :| 0 <= c < |C0| && |C0[c]| <= m0 && x == Motifs.SortNodes(C0[c]);
        assert C[c] == x;
      }
    }
  }

  // ----- removing a clique's edges -----

  /** The edges (s[i], s[b]) for i < b < j. */
  function RowPairs(s: seq<int>, i: nat, j: nat): set<(int, int)>
    requires i < |s| && j <= |s|
  {
    if j <= i + 1 then {} else RowPairs(s, i, j - 1) + {Key(s[i], s[j - 1])}
  }

  /** The edges (s[a], s[b]) for a < b with a < i: what the two loops have
      removed once the first i rows are done. */
  function DonePairs(s: seq<int>, i: nat): set<(int, int)>
    requires i <= |s|
  {
    if i == 0 then {} else DonePairs(s, i - 1) + RowPairs(s, i - 1, |s|)
  }

  lemma {:induction false} RowPairsMembers(s: seq<int>, i: nat, j: nat, e: (int, int))
    requires i < |s| && j <= |s|
    ensures e in RowPairs(s, i, j) <==> exists b :: i < b < j && e == Key(s[i], s[b])
  {
    if j > i + 1 {
      RowPairsMembers(s, i, j - 1, e);
    }
  }

  /** The pairs of s[i..] are those of its first position and those of
      s[i + 1..]. */
  lemma PairsSplit(s: seq<int>, i: nat)
    requires i < |s|
    ensures Mpcc.Pairs(s[i..]) == RowPairs(s, i, |s|) + Mpcc.Pairs(s[i + 1..])
  {
    var c := s[i..];
    assert c[1..] == s[i + 1..];
    if |c| >= 2 {
      var row := seq(|c| - 1, k requires 0 <= k < |c| - 1 => (c[0], c[k + 1]));
      assert Mpcc.Combinations2(c) == row + Mpcc.Combinations2(c[1..]);
      forall e ensures e in Mpcc.Pairs(c) <==> e in RowPairs(s, i, |s|) + Mpcc.Pairs(s[i + 1..]) {
        RowPairsMembers(s, i, |s|, e);
        if exists b :: i < b < |s| && e == Key(s[i], s[b]) {
          var b :| i < b < |s| && e == Key(s[i], s[b]);
          assert row[b - i - 1] == (s[i], s[b]);
        }
        if e in Mpcc.Pairs(c) {
          var p :| p in Mpcc.Combinations2(c) && e == Key(p.0, p.1);
          if p in row {
            var k :| 0 <= k < |row| && row[k] == p;
            assert e == Key(s[i], s[i + k + 1]);
          }
        }
      }
    } else {
      assert RowPairs(s, i, |s|) == {};
    }
  }

  lemma {:induction false} DonePairsAll(s: seq<int>, i: nat)
    requires i <= |s|
    ensures DonePairs(s, i) + Mpcc.Pairs(s[i..]) == Mpcc.Pairs(s)
    decreases i
  {
    if i == 0 {
      assert s[0..] == s;
    } else {
      DonePairsAll(s, i - 1);
      PairsSplit(s, i - 1);
    }
  }

  lemma CoveredStep(cover: seq<seq<int>>, c: nat)
    requires c < |cover|
    ensures Mpcc.Covered(cover[..c + 1]) == Mpcc.Covered(cover[..c]) + Mpcc.Pairs(cover[c])
  {
    assert cover[..c + 1][..c] == cover[..c];
  }

  lemma {:induction false} CoveredAppend(a: seq<seq<int>>, b: seq<seq<int>>)
    ensures Mpcc.Covered(a + b) == Mpcc.Covered(a) + Mpcc.Covered(b)
    decreases |b|
  {
    if b != [] {
      var b' := b[..|b| - 1];
      assert (a + b)[..|a + b| - 1] == a + b';
      CoveredAppend(a, b');
    } else {
      assert a + b == a;
    }
  }

  /** A cover that extends EC + [cli] spans the edges of both and those of
      what follows. */
  lemma RoundCovered(EC: seq<seq<int>>, cli: seq<int>, cover: seq<seq<int>>)
    requires |EC| < |cover| && cover[..|EC| + 1] == EC + [cli]
    ensures cover[..|EC|] == EC
    ensures Mpcc.Covered(cover) == Mpcc.Covered(EC) + Mpcc.Pairs(cli) + Mpcc.Covered(cover[|EC| + 1..])
  {
    var head := EC + [cli];
    assert cover[..|EC|] == cover[..|EC| + 1][..|EC|];
    assert cover == head + cover[|EC| + 1..];
    CoveredAppend(head, cover[|EC| + 1..]);
    assert head[..|head| - 1] == EC;
  }

  lemma RoundEdges(E0: set<(int, int)>, a: set<(int, int)>, b: set<(int, int)>, c: set<(int, int)>)
    ensures E0 - a - b - (a + b + c) == E0 - (a + b + c)
  {
  }

  /** Two lists holding the same cliques cover the same edges. */
  lemma CoveredSameCliques(a: seq<seq<int>>, b: seq<seq<int>>)
    requires multiset(a) == multiset(b)
    ensures Mpcc.Covered(a) == Mpcc.Covered(b)
  {
    forall e ensures e in Mpcc.Covered(a) <==> e in Mpcc.Covered(b) {
      Mpcc.CoveredMembers(a, e);
      Mpcc.CoveredMembers(b, e);
      if e in Mpcc.Covered(a) {
        var t :| 0 <= t < |a| && e in Mpcc.Pairs(a[t]);
        assert a[t] in multiset(b);
        var u :| 0 <= u < |b| && b[u] == a[t];
      }
      if e in Mpcc.Covered(b) {
        var t :| 0 <= t < |b| && e in Mpcc.Pairs(b[t]);
        assert b[t] in multiset(a);
        var u :| 0 <= u < |a| && a[u] == b[t];
      }
    }
  }

  // ----- dropping the zero-score cliques -----

  /** The indexes below n not listed in `zero`, in increasing order: the
      set difference `set(range(n)) - set(zero)` as it is iterated here. */
  function Kept(n: nat, zero: seq<int>): seq<int>
  {
    if n == 0 then [] else Kept(n - 1, zero) + (if n - 1 in zero then [] else [n - 1])
  }

  lemma {:induction false} KeptMembers(n: nat, zero: seq<int>, i: int)
    ensures i in Kept(n, zero) <==> 0 <= i < n && i !in zero
  {
    if n > 0 {
      KeptMembers(n - 1, zero, i);
    }
  }

  lemma {:induction false} KeptIncreasing(n: nat, zero: seq<int>)
    ensures Increasing(Kept(n, zero)) && forall t :: 0 <= t < |Kept(n, zero)| ==> 0 <= Kept(n, zero)[t] < n
  {
    if n > 0 {
      KeptIncreasing(n - 1, zero);
    }
  }

  /** Each list keeps the entries at the kept indexes, in index order. */
  method Prune(C: seq<seq<int>>, ord: seq<int>, r: seq<real>, zero: seq<int>)
    returns (C': seq<seq<int>>, ord': seq<int>, r': seq<real>)
    requires |C| == |ord| == |r|
    ensures var ks := Kept(|C|, zero);
      |C'| == |ord'| == |r'| == |ks| && (forall t :: 0 <= t < |ks| ==> 0 <= ks[t] < |C|)
      && forall t :: 0 <= t < |ks| ==> C'[t] == C[ks[t]] && ord'[t] == ord[ks[t]] && r'[t] == r[ks[t]]
  {
    var idxs := Kept(|C|, zero);
    KeptIncreasing(|C|, zero);
    C', ord', r' := [], [], [];
    for t := 0 to |idxs|
      invariant |C'| == |ord'| == |r'| == t
      invariant forall u :: 0 <= u < t ==> C'[u] == C[idxs[u]] && ord'[u] == ord[idxs[u]] && r'[u] == r[idxs[u]]
    {
      var i := idxs[t];
      C', ord', r' := C' + [C[i]], ord' + [ord[i]], r' + [r[i]];
    }
  }

  // ----- choosing the next clique -----

  /** Python's `min`: ValueError on an empty list. */
  method MinScore(r: seq<real>) returns (res: Result<real>)
    ensures res.Err? <==> r == []
    ensures res.Err? ==> res.error == ValueError
    ensures res.Ok? ==> res.value in r && forall k :: 0 <= k < |r| ==> res.value <= r[k]
  {
    if r == [] {
      return Err(ValueError);
    }
    var m := r[0];
    for k := 1 to |r|
      invariant m in r[..k] && forall u :: 0 <= u < k ==> m <= r[u]
    {
      if r[k] < m {
        m := r[k];
      }
    }
    assert r[..|r|] == r;
    res := Ok(m);
  }

  /** One of the largest cliques among those of lowest score, chosen at
      random: the index of a minimal score whose order is the largest of
      the minimal ones. ValueError when no clique is left; IndexError from
      `choice` only when every minimal clique has an order below -1, which
      no clique has. */
  method Select(r: seq<real>, ord: seq<int>) returns (res: Result<int>)
    requires |ord| == |r|
    ensures res.Err? ==> res.error == ValueError || res.error == IndexError
    ensures res == Err(ValueError) <==> r == []
    ensures r != [] && (forall k :: 0 <= k < |ord| ==> ord[k] >= 0) ==> res.Ok?
    ensures res.Ok? ==> var idx := res.value;
      0 <= idx < |r| && (forall k :: 0 <= k < |r| ==> r[idx] <= r[k])
      && (forall k :: 0 <= k < |r| && r[k] == r[idx] ==> ord[k] <= ord[idx])
  {
    var m := MinScore(r);
    if m.Err? {
      return Err(ValueError);
    }
    var minR := m.value;
    var minSet: seq<int> := [];
    for idx := 0 to |r|
      invariant forall t :: t in minSet <==> 0 <= t < idx && r[t] == minR
    {
      if r[idx] == minR {
        minSet := minSet + [idx];
      }
    }
    assert forall u :: 0 <= u < |minSet| ==> minSet[u] in minSet;
    var maxOrd := -1;
    for t := 0 to |minSet|
      invariant forall u :: 0 <= u < |minSet| ==> 0 <= minSet[u] < |r|
      invariant forall u :: 0 <= u < t ==> ord[minSet[u]] <= maxOrd
      invariant maxOrd == -1 || exists u :: 0 <= u < t && ord[minSet[u]] == maxOrd
    {
      if ord[minSet[t]] > maxOrd {
        maxOrd := ord[minSet[t]];
      }
    }
    var sample: seq<int> := [];
    for t := 0 to |minSet|
      invariant forall i :: i in sample <==> i in minSet[..t] && 0 <= i < |ord| && ord[i] == maxOrd
    {
      if ord[minSet[t]] == maxOrd {
        sample := sample + [minSet[t]];
      }
    }
    assert minSet[..|minSet|] == minSet;
    if sample == [] {
      assert forall i :: i in minSet ==> ord[i] < -1;
      return Err(IndexError);
    }
    var j :| 0 <= j < |sample|;
    var idx := sample[j];
    assert idx in sample && idx in minSet && r[idx] == minR && ord[idx] == maxOrd;
    forall k | 0 <= k < |r| && r[k] == minR ensures ord[k] <= maxOrd {
      assert k in minSet;
      var u :| 0 <= u < |minSet| && minSet[u] == k;
    }
    res := Ok(idx);
  }

  /** `limited_maximal_cliques` fails only with ValueError or with the
      IndexError of its sort key. */
  lemma LimitedErrors(C: seq<seq<int>>, m0: int, r: Result<seq<seq<int>>>)
    requires LimitedOutcome(C, m0, r) && r.Err?
    ensures r.error == ValueError || r.error == IndexError
  {
    if m0 >= 0 {
      var rows :| Enumerates(rows, Candidates(C, m0)) && r == OrderByKey(SortEach(rows), false);
    }
  }

  /** After a scoring pass on fresh zero scores, the cliques kept are
      exactly those of nonzero score. */
  lemma SurvivorsScored(C: seq<seq<int>>, i: int)
    ensures i in Survivors(C) <==> 0 <= i < |C| && Score(C, i) != 0.0
  {
    var zero := PassZero(C);
    KeptMembers(|C|, Indexes(zero, |C|), i);
    IndexesMembers(zero, |C|, i);
  }

  /** The body of that loop for the c-th clique, once m0 is known not to
      be negative. */
  method VisitOne(C0: seq<seq<int>>, m0: nat, c: nat, C: seq<seq<int>>, dropped: seq<int>)
    returns (C': seq<seq<int>>, dropped': seq<int>)
    requires c < |C0| && Visited(C0, m0, c, C)
    requires forall k :: k in dropped <==> 0 <= k < c && |C0[k]| > m0
    ensures Visited(C0, m0, c + 1, C')
    ensures forall k :: k in dropped' <==> 0 <= k < c + 1 && |C0[k]| > m0
  {
    if |C[c]| > m0 {
      VisitedReplace(C0, m0, c, C);
      dropped' := dropped + [c];
      C' := C + Combinations(C[c], m0);
    } else {
      VisitedKeep(C0, m0, c, C);
      dropped' := dropped;
      C' := C[c := Motifs.SortNodes(C[c])];
    }
  }

  /** The loop of `limited_maximal_cliques` over the cliques networkx
      gives: a clique of more than m0 vertices has its index dropped and
      its m0-vertex sub-cliques appended, any other is sorted in place.
      With m0 negative, `combinations` raises ValueError at the first
      clique. */
  method VisitCliques(C0: seq<seq<int>>, m0: int) returns (ok: bool, C: seq<seq<int>>, dropped: seq<int>)
    ensures !ok <==> m0 < 0 && C0 != []
    ensures ok && m0 >= 0 ==> Visited(C0, m0, |C0|, C)
    ensures ok && m0 < 0 ==> C == []
    ensures ok ==> forall k :: k in dropped <==> 0 <= k < |C0| && |C0[k]| > m0
  {
    C := C0;
    dropped := [];
    if m0 >= 0 {
      VisitedStart(C0, m0);
    }
    var n := |C|;
    for c := 0 to n
      invariant m0 >= 0 ==> Visited(C0, m0, c, C)
      invariant m0 < 0 ==> c == 0 && C == C0
      invariant forall k :: k in dropped <==> 0 <= k < c && |C0[k]| > m0
    {
      if m0 < 0 {
        // every clique has more than m0 vertices
        return false, C, dropped;
      }
      C, dropped := VisitOne(C0, m0, c, C, dropped);
    }
    ok := true;
  }

  /** `for i, c in enumerate(C): C[i] = sorted(c)`. */
  method SortRows(rows: seq<seq<int>>) returns (sorted: seq<seq<int>>)
    ensures sorted == SortEach(rows)
  {
    sorted := rows;
    for i := 0 to |rows|
      invariant |sorted| == |rows|
      invariant forall k :: 0 <= k < |rows| ==> sorted[k] == if k < i then Motifs.SortNodes(rows[k]) else rows[k]
    {
      sorted := sorted[i := Motifs.SortNodes(sorted[i])];
    }
  }

  /** `[0.0] * n` and `[0] * n`. */
  function ZeroReals(n: nat): (z: seq<real>)
    ensures |z| == n && forall i :: 0 <= i < n ==> z[i] == 0.0
  {
    seq(n, _ => 0.0)
  }

  function ZeroInts(n: nat): (z: seq<int>)
    ensures |z| == n && forall i :: 0 <= i < n ==> z[i] == 0
  {
    seq(n, _ => 0)
  }

  /** Which cliques a scoring pass from zero leaves at score 0. */
  function PassZero(C: seq<seq<int>>): (z: seq<bool>)
    ensures |z| == |C|
  {
    ZeroFlags(C, ZeroReals(|C|))
  }

  /** The indexes a scoring pass from zero keeps, in index order. */
  function Survivors(C: seq<seq<int>>): seq<int>
  {
    Kept(|C|, Indexes(PassZero(C), |C|))
  }

  /** The scoring pass of `get_EECC` on values: every clique scored from
      zero, the zero-score ones appended to the cover, the others kept in
      index order with their orders and scores. */
  method ScorePass(C: seq<seq<int>>, EC: seq<seq<int>>)
    returns (C': seq<seq<int>>, ord': seq<int>, r': seq<real>, EC': seq<seq<int>>)
    ensures EC' == EC + Picked(C, PassZero(C), |C|)
    ensures var ks := Survivors(C);
      |C'| == |ord'| == |r'| == |ks| && (forall t :: 0 <= t < |ks| ==> 0 <= ks[t] < |C|)
      && (forall t :: 0 <= t < |ks| ==> C'[t] == Motifs.SortNodes(C[ks[t]]) && r'[t] == Score(C, ks[t]))
      && (forall t :: 0 <= t < |ks| ==> ord'[t] == |C'[t]|)
  {
    var n := |C|;
    var ord0 := ZeroInts(n);
    var r0 := ZeroReals(n);
    var sc := ComputeScores(C, EC, ord0, r0, []);
    ScoredSucceeds(C, EC, ord0, r0, []);
    var s := sc.value;
    assert s.cliques == SortEach(C) && s.orders == Orders(C, ord0) && s.scores == Rescored(C, r0);
    assert s.indexes == Indexes(PassZero(C), n);
    C', ord', r' := Prune(s.cliques, s.orders, s.scores, s.indexes);
    EC' := s.cover;
    ghost var ks := Survivors(C);
    KeptIncreasing(n, s.indexes);
    forall t | 0 <= t < |ks|
      ensures C'[t] == Motifs.SortNodes(C[ks[t]]) && r'[t] == Score(C, ks[t]) && ord'[t] == |C'[t]|
    {
      var i := ks[t];
      assert C'[t] == s.cliques[i] && ord'[t] == s.orders[i] && r'[t] == s.scores[i];
      assert |C'[t]| == |multiset(C'[t])| == |multiset(C[i])|;
    }
  }

  lemma LimitedFromRows(C: seq<seq<int>>, m0: nat, rows: seq<seq<int>>, r: Result<seq<seq<int>>>)
    requires Enumerates(rows, Candidates(C, m0)) && r == OrderByKey(SortEach(rows), false)
    ensures LimitedOutcome(C, m0, r)
  {
  }

  lemma EmptyListing(rows: seq<seq<int>>, s: set<seq<int>>)
    requires Enumerates(rows, s) && s == {}
    ensures rows == [] && OrderByKey(SortEach(rows), false) == Ok([])
  {
    FirstListed(rows, s);
  }

  lemma FirstListed(rows: seq<seq<int>>, s: set<seq<int>>)
    requires Enumerates(rows, s)
    ensures |rows| > 0 ==> rows[0] in s
  {
    if |rows| > 0 {
      assert rows[0] in rows;
    }
  }

  /** The working lists of `get_EECC` between rounds. */
  datatype Working = Working(cliques: seq<seq<int>>, orders: seq<int>, scores: seq<real>, cover: seq<seq<int>>)

  /** ord holds the order of each clique, and r one score per clique. */
  predicate Aligned(C: seq<seq<int>>, ord: seq<int>, r: seq<real>)
  {
    |C| == |ord| == |r| && forall k :: 0 <= k < |C| ==> ord[k] == |C[k]|
  }

  /** Once no edge is left, the ordered cover holds every edge, and the
      key's x[1] shows each of its cliques has two vertices at least. */
  lemma CoverOrdered(E0: set<(int, int)>, EC: seq<seq<int>>, out: seq<seq<int>>)
    requires E0 - Mpcc.Covered(EC) == {} && OrderByKey(EC, true) == Ok(out)
    ensures E0 <= Mpcc.Covered(out) && forall i :: 0 <= i < |out| ==> |out[i]| >= 2
  {
    assert multiset(out) == multiset(EC);
    assert forall k :: 0 <= k < |EC| ==> |EC[k]| >= 2;
    CoveredSameCliques(EC, out);
    var covered := Mpcc.Covered(EC);
    forall e | e in E0 ensures e in covered {
      assert e !in E0 - covered;
    }
    forall i | 0 <= i < |out| ensures |out[i]| >= 2 {
      MemberOfPermutation(EC, out, i);
    }
  }

  lemma MemberOfPermutation(a: seq<seq<int>>, b: seq<seq<int>>, i: nat)
    requires multiset(a) == multiset(b) && i < |b|
    ensures exists k :: 0 <= k < |a| && a[k] == b[i]
  {
    assert b[i] in multiset(a);
  }

  /** Every clique of cs has at most m0 vertices. */
  predicate WithinSize(cs: seq<seq<int>>, m0: int)
  {
    forall k :: 0 <= k < |cs| ==> |cs[k]| <= m0
  }

  /** Ordering the cover by the key keeps its cliques within m0 vertices. */
  lemma OrderedWithinSize(EC: seq<seq<int>>, out: seq<seq<int>>, m0: int)
    requires WithinSize(EC, m0) && OrderByKey(EC, true) == Ok(out)
    ensures WithinSize(out, m0)
  {
    assert multiset(out) == multiset(EC);
    forall i | 0 <= i < |out| ensures |out[i]| <= m0 {
      MemberOfPermutation(EC, out, i);
    }
  }

  /** `get_limited_maximal_cliques` returns cliques of at most m0 vertices. */
  lemma LimitedWithinSize(C: seq<seq<int>>, m0: int, r: Result<seq<seq<int>>>)
    requires LimitedOutcome(C, m0, r) && r.Ok?
    ensures WithinSize(r.value, m0)
  {
    if m0 >= 0 {
      var rows :| Enumerates(rows, Candidates(C, m0)) && r == OrderByKey(SortEach(rows), false);
      forall i | 0 <= i < |r.value| ensures |r.value[i]| <= m0 {
        LimitedBounded(C, m0, rows, i);
      }
    }
  }

  lemma FilterWithinSize(cs: seq<seq<int>>, m0: int, p: seq<int> -> bool)
    requires WithinSize(cs, m0)
    ensures WithinSize(Filter(cs, p), m0)
  {
    var f := Filter(cs, p);
    forall k | 0 <= k < |f| ensures |f[k]| <= m0 {
      FilterCount(cs, p, f[k]);
      assert f[k] in multiset(f);
      assert f[k] in multiset(cs);
    }
  }

  lemma SortNodesLength(s: seq<int>)
    ensures |Motifs.SortNodes(s)| == |s|
  {
    assert |multiset(Motifs.SortNodes(s))| == |multiset(s)|;
  }

  lemma {:induction false} PickedWithinSize(C: seq<seq<int>>, flags: seq<bool>, n: nat, m0: int)
    requires n <= |flags| && n <= |C| && WithinSize(C, m0)
    ensures WithinSize(Picked(C, flags, n), m0)
  {
    if n > 0 {
      PickedWithinSize(C, flags, n - 1, m0);
      SortNodesLength(C[n - 1]);
    }
  }

  // ----- the EECC class -----

  /** An EECC cover builder over a graph held as its vertex set and its
      edge set, each edge as Key(u, v). The class inherits the `edge_list`
      that covers.py imports from the package, which exports no such name;
      the package's one `edge_list` has none of the graph methods used
      here, so they follow the networkx-backed `Network` of
      gcmpy/network/network.py: `add_edge`, `find_cliques`, `remove_edge`
      (which ignores a missing edge) and `has_edges`. `cliquesOf` stands
      for networkx's `find_cliques`: the maximal cliques of the graph, in
      the order networkx lists them. */
  class Eecc {
    var nodes: set<int>
    var edges: set<(int, int)>
    var m0: int
    const cliquesOf: (set<int>, set<(int, int)>) -> seq<seq<int>>

    /** An empty graph with m0 = 2. */
    constructor (cliquesOf: (set<int>, set<(int, int)>) -> seq<seq<int>>)
      ensures nodes == {} && edges == {} && m0 == 2 && this.cliquesOf == cliquesOf
    {
      this.cliquesOf := cliquesOf;
      nodes, edges, m0 := {}, {}, 2;
    }

    /** `add_edge((u, v))`: both end points become vertices. */
    method AddEdge(u: int, v: int)
      modifies this
      ensures nodes == old(nodes) + {u, v} && edges == old(edges) + {Key(u, v)} && m0 == old(m0)
    {
      nodes := nodes + {u, v};
      edges := edges + {Key(u, v)};
    }

    method SetMaxCliqueSize(m: int)
      modifies this
      ensures m0 == m && nodes == old(nodes) && edges == old(edges)
    {
      m0 := m;
    }

    /** `remove_edge(u, v)`, in either orientation; a missing edge is
        ignored and the vertices stay. */
    method RemoveEdge(u: int, v: int)
      modifies this
      ensures edges == old(edges) - {Key(u, v)} && nodes == old(nodes) && m0 == old(m0)
    {
      edges := edges - {Key(u, v)};
    }

    function HasEdges(): (b: bool)
      reads this
      ensures b <==> exists e :: e in edges
    {
      |edges| > 0
    }

    method LimitedMaximalCliques() returns (res: Result<seq<seq<int>>>)
      ensures LimitedOutcome(cliquesOf(nodes, edges), m0, res)
      ensures res.Err? ==> res.error == ValueError || res.error == IndexError
      ensures res.Ok? ==> WithinSize(res.value, m0)
    {
      var C0 := cliquesOf(nodes, edges);
      var ok, C, dropped := VisitCliques(C0, m0);
      if !ok {
        return Err(ValueError);
      }
      var rowSet := set i | 0 <= i < |C| && i !in dropped :: C[i];
      ghost var listing := EnumerationExists(rowSet);
      var rows :| Enumerates(rows, rowSet);
      var sortedRows := SortRows(rows);
      res := OrderByKey(sortedRows, false);
      if m0 >= 0 {
        VisitedAll(C0, m0, C, dropped);
        LimitedFromRows(C0, m0, rows, res);
      } else {
        EmptyListing(rows, rowSet);
      }
      if res.Ok? {
        LimitedWithinSize(C0, m0, res);
      }
    }

    /** The two loops over the vertex pairs of a clique, each pair's edge
        removed. */
    method RemoveClique(cli: seq<int>)
      modifies this
      ensures edges == old(edges) - Mpcc.Pairs(cli) && nodes == old(nodes) && m0 == old(m0)
    {
      var order := |cli|;
      for i := 0 to order
        invariant edges == old(edges) - DonePairs(cli, i) && nodes == old(nodes) && m0 == old(m0)
      {
        for j := i + 1 to order
          invariant edges == old(edges) - DonePairs(cli, i) - RowPairs(cli, i, j)
          invariant nodes == old(nodes) && m0 == old(m0)
        {
          RemoveEdge(cli[i], cli[j]);
        }
      }
      DonePairsAll(cli, order);
      assert cli[order..] == [];
    }

    /** The loop over the cover removing the edges of each of its cliques. */
    method RemoveCover(EC: seq<seq<int>>)
      modifies this
      ensures edges == old(edges) - Mpcc.Covered(EC) && nodes == old(nodes) && m0 == old(m0)
    {
      for c := 0 to |EC|
        invariant edges == old(edges) - Mpcc.Covered(EC[..c]) && nodes == old(nodes) && m0 == old(m0)
      {
        CoveredStep(EC, c);
        RemoveClique(EC[c]);
      }
      assert EC[..|EC|] == EC;
    }

    /** The pass `get_EECC` makes before its loop and at the end of each
        round: every clique scored from zero, the zero-score ones appended
        to the cover, the others kept in index order with their orders and
        scores, and every cover edge removed from the graph. */
    method Rescore(C: seq<seq<int>>, EC: seq<seq<int>>)
      returns (C': seq<seq<int>>, ord': seq<int>, r': seq<real>, EC': seq<seq<int>>)
      modifies this
      ensures |EC| <= |EC'| && EC'[..|EC|] == EC && Aligned(C', ord', r')
      ensures edges == old(edges) - Mpcc.Covered(EC') && nodes == old(nodes) && m0 == old(m0)
      ensures WithinSize(C, m0) && WithinSize(EC, m0) ==> WithinSize(C', m0) && WithinSize(EC', m0)
    {
      C', ord', r', EC' := ScorePass(C, EC);
      assert EC'[..|EC|] == EC;
      if WithinSize(C, m0) && WithinSize(EC, m0) {
        PickedWithinSize(C, PassZero(C), |C|, m0);
        var ks := Survivors(C);
        forall t | 0 <= t < |C'| ensures |C'[t]| <= m0 {
          SortNodesLength(C[ks[t]]);
        }
      }
      RemoveCover(EC');
    }

    /** One round of the loop of `get_EECC`: one of the largest cliques of
        lowest score joins the cover and loses its edges, the cliques of
        what is left are found again, those with a single vertex dropped,
        and the scoring pass is made. */
    method Round(ghost E0: set<(int, int)>, C: seq<seq<int>>, ord: seq<int>, r: seq<real>, EC: seq<seq<int>>)
      returns (res: Result<Working>)
      modifies this
      requires Aligned(C, ord, r) && edges == E0 - Mpcc.Covered(EC)
      ensures nodes == old(nodes) && m0 == old(m0)
      ensures res.Err? ==> res.error == ValueError || res.error == IndexError
      ensures res.Ok? ==> Aligned(res.value.cliques, res.value.orders, res.value.scores)
                          && edges == E0 - Mpcc.Covered(res.value.cover)
                          && |EC| < |res.value.cover| && res.value.cover[..|EC|] == EC
      ensures res.Ok? && WithinSize(C, m0) && WithinSize(EC, m0) ==>
                WithinSize(res.value.cliques, m0) && WithinSize(res.value.cover, m0)
    {
      var pick := Select(r, ord);
      if pick.Err? {
        return Err(pick.error);
      }
      var idx := pick.value;
      var cli := C[idx];
      assert ord[idx] == |cli|;
      var cover := EC + [cli];
      ghost var bounded := WithinSize(C, m0) && WithinSize(EC, m0);
      assert bounded ==> WithinSize(cover, m0) by {
        if bounded {
          assert forall k :: 0 <= k < |cover| ==> cover[k] == if k < |EC| then EC[k] else cli;
        }
      }
      RemoveClique(cli);
      var lim := LimitedMaximalCliques();
      if lim.Err? {
        return Err(lim.error);
      }
      FilterWithinSize(lim.value, m0, c => |c| > 1);
      var C', ord', r', cover' := Rescore(Filter(lim.value, c => |c| > 1), cover);
      RoundCovered(EC, cli, cover');
      RoundEdges(E0, Mpcc.Covered(EC), Mpcc.Pairs(cli), Mpcc.Covered(cover'[|cover|..]));
      res := Ok(Working(C', ord', r', cover'));
    }

    /** `get_EECC`. The loop stops only once the graph has no edge left,
        so the cover then holds every edge the graph had; fuel bounds the
        number of rounds. */
    method GetEecc(fuel: nat) returns (res: Result<seq<seq<int>>>)
      modifies this
      ensures nodes == old(nodes) && m0 == old(m0)
      ensures res.Err? ==> res.error == ValueError || res.error == IndexError || res.error == OutOfFuel
      ensures res.Ok? ==> edges == {} && old(edges) <= Mpcc.Covered(res.value)
      ensures res.Ok? ==> NonEmpty(res.value) && KeySorted(res.value)
                          && forall i :: 0 <= i < |res.value| ==> 2 <= |res.value[i]| <= m0
    {
      ghost var E0 := edges;
      var lim := LimitedMaximalCliques();
      if lim.Err? {
        return Err(lim.error);
      }
      var C, ord, r, EC := Rescore(lim.value, []);
      var rounds := fuel;
      while HasEdges()
        invariant edges == E0 - Mpcc.Covered(EC) && nodes == old(nodes) && m0 == old(m0)
        invariant Aligned(C, ord, r) && WithinSize(C, m0) && WithinSize(EC, m0)
        decreases rounds
      {
        if rounds == 0 {
          return Err(OutOfFuel);
        }
        rounds := rounds - 1;
        var next := Round(E0, C, ord, r, EC);
        if next.Err? {
          return Err(next.error);
        }
        C, ord, r, EC := next.value.cliques, next.value.orders, next.value.scores, next.value.cover;
      }
      res := OrderByKey(EC, true);
      if res.Ok? {
        CoverOrdered(E0, EC, res.value);
        OrderedWithinSize(EC, res.value, m0);
      }
    }
  }
}
