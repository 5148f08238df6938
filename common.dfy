// Shared vocabulary: the Python exceptions the model can raise, Option and
// Result wrappers, and a few sequence helpers (flattening, chunking, sums).

module Common {

  /** The exceptions the modelled Python code raises. Raising a plain string,
      which several functions do, fails with TypeError in Python 3. */
  datatype Error =
    | KeyError
    | IndexError
    | TypeError
    | ValueError
    | NameError
    | AttributeError
    | ZeroDivisionError
    | SyntaxError
    | NotImplementedError
    | NetworkXError
    | RewiringError
    | OutOfFuel

  datatype Option<T> = None | Some(value: T)

  datatype Result<T> = Ok(value: T) | Err(error: Error)
  {
    predicate IsFailure() { Err? }
    function PropagateFailure<U>(): Result<U>
      requires Err?
    {
      Err(error)
    }
    function Extract(): T
      requires Ok?
    {
      value
    }
  }

  /** Concatenation of a list of lists, as `edge_list.extend(...)` in a loop. */
  function Flatten<T>(ss: seq<seq<T>>): seq<T>
  {
    if ss == [] then [] else Flatten(ss[..|ss| - 1]) + ss[|ss| - 1]
  }

  lemma FlattenAppend<T>(ss: seq<seq<T>>, s: seq<T>)
    ensures Flatten(ss + [s]) == Flatten(ss) + s
  {
    assert (ss + [s])[..|ss|] == ss;
  }

  lemma {:induction false} FlattenConcat<T>(a: seq<seq<T>>, b: seq<seq<T>>)
    ensures Flatten(a + b) == Flatten(a) + Flatten(b)
    decreases |b|
  {
    if b == [] {
      assert a + b == a;
    } else {
      var b' := b[..|b| - 1];
      assert a + b == (a + b') + [b[|b| - 1]];
      FlattenAppend(a + b', b[|b| - 1]);
      FlattenConcat(a, b');
      FlattenAppend(b', b[|b| - 1]);
      assert b == b' + [b[|b| - 1]];
    }
  }

  /** Sum of the lengths of the inner lists. */
  function TotalLength<T>(ss: seq<seq<T>>): nat
  {
    if ss == [] then 0 else TotalLength(ss[..|ss| - 1]) + |ss[|ss| - 1]|
  }

  lemma {:induction false} FlattenLength<T>(ss: seq<seq<T>>)
    ensures |Flatten(ss)| == TotalLength(ss)
  {
    if ss != [] {
      FlattenLength(ss[..|ss| - 1]);
    }
  }

  function Sum(s: seq<int>): int
  {
    if s == [] then 0 else Sum(s[..|s| - 1]) + s[|s| - 1]
  }

  lemma SumAppend(s: seq<int>, x: int)
    ensures Sum(s + [x]) == Sum(s) + x
  {
    assert (s + [x])[..|s|] == s;
  }

  /** `[x] * n` */
  function Repeat<T>(x: T, n: nat): (r: seq<T>)
    ensures |r| == n
    ensures forall i :: 0 <= i < n ==> r[i] == x
  {
    if n == 0 then [] else Repeat(x, n - 1) + [x]
  }

  lemma {:induction false} RepeatMultiset<T>(x: T, n: nat)
    ensures multiset(Repeat(x, n)) == multiset{}[x := n]
  {
    if n > 0 {
      RepeatMultiset(x, n - 1);
    }
  }

  /** Consecutive slices of length n, the last one possibly shorter: the
      shape of `[lst[i:i + n] for i in range(0, len(lst), n)]` and of a
      grouper that keeps an incomplete last group. */
  function Chunks<T>(s: seq<T>, n: nat): (r: seq<seq<T>>)
    requires n > 0
    decreases |s|
  {
    if s == [] then []
    else if |s| <= n then [s]
    else [s[..n]] + Chunks(s[n..], n)
  }

  lemma {:induction false} ChunksFlatten<T>(s: seq<T>, n: nat)
    requires n > 0
    ensures Flatten(Chunks(s, n)) == s
    decreases |s|
  {
    if s == [] {
    } else if |s| <= n {
      assert Flatten([s]) == Flatten([]) + s;
    } else {
      ChunksFlatten(s[n..], n);
      FlattenConcat([s[..n]], Chunks(s[n..], n));
      assert Flatten([s[..n]]) == Flatten([]) + s[..n];
      assert s[..n] + s[n..] == s;
    }
  }

  lemma {:induction false} ChunksCount<T>(s: seq<T>, n: nat)
    requires n > 0
    ensures |Chunks(s, n)| == (|s| + n - 1) / n
    decreases |s|
  {
    if s == [] {
    } else if |s| <= n {
      DivOne(|s|, n);
    } else {
      ChunksCount(s[n..], n);
      DivShift(|s| - n + n - 1, n);
    }
  }

  lemma DivOne(k: nat, n: nat)
    requires 0 < k <= n
    ensures (k + n - 1) / n == 1
  {
    DivModUnique(k + n - 1, n, 1, k - 1);
  }

  lemma {:induction false} MulAtLeast(d: int, n: int)
    requires d >= 1 && n > 0
    ensures d * n >= n
  {
    if d > 1 {
      MulAtLeast(d - 1, n);
      assert d * n == (d - 1) * n + n;
    }
  }

  /** Euclidean division is determined by quotient and remainder. */
  lemma DivModUnique(a: int, n: int, q: int, r: int)
    requires n > 0 && 0 <= r < n && a == q * n + r
    ensures a / n == q && a % n == r
  {
    var q', r' := a / n, a % n;
    assert a == q' * n + r';
    if q > q' {
      assert q * n - q' * n == (q - q') * n;
      MulAtLeast(q - q', n);
    } else if q < q' {
      assert q' * n - q * n == (q' - q) * n;
      MulAtLeast(q' - q, n);
    }
  }

  lemma DivShift(k: nat, n: nat)
    requires n > 0
    ensures (k + n) / n == k / n + 1
    ensures (k + n) % n == k % n
  {
    assert k == (k / n) * n + k % n;
    assert k + n == (k / n + 1) * n + k % n;
    DivModUnique(k + n, n, k / n + 1, k % n);
  }

  lemma {:induction false} ChunksSizes<T>(s: seq<T>, n: nat)
    requires n > 0
    ensures forall i :: 0 <= i < |Chunks(s, n)| ==> 0 < |Chunks(s, n)[i]| <= n
    ensures forall i :: 0 <= i < |Chunks(s, n)| - 1 ==> |Chunks(s, n)[i]| == n
    ensures |s| % n == 0 ==> forall i :: 0 <= i < |Chunks(s, n)| ==> |Chunks(s, n)[i]| == n
    decreases |s|
  {
    if |s| > n {
      ChunksSizes(s[n..], n);
      DivShift(|s| - n, n);
    }
  }

  /** A length divisible by n is cut into exactly |s| / n full slices. */
  lemma {:induction false} ChunksExact<T>(s: seq<T>, n: nat)
    requires n > 0 && |s| % n == 0
    ensures |Chunks(s, n)| == |s| / n
    ensures forall i :: 0 <= i < |Chunks(s, n)| ==> |Chunks(s, n)[i]| == n
    decreases |s|
  {
    if s == [] {
    } else if |s| <= n {
      if |s| < n {
        DivModUnique(|s|, n, 0, |s|);
      }
      DivModUnique(|s|, n, 1, 0);
    } else {
      DivShift(|s| - n, n);
      ChunksExact(s[n..], n);
    }
  }

  lemma FlattenCons<T>(s: seq<T>, ss: seq<seq<T>>)
    ensures Flatten([s] + ss) == s + Flatten(ss)
  {
    FlattenConcat([s], ss);
    assert Flatten([s]) == Flatten([]) + s;
  }

  /** Every element of a chunk is an element of the chunked list. */
  lemma ChunksMembers<T>(s: seq<T>, n: nat)
    requires n > 0
    ensures forall i, x :: 0 <= i < |Chunks(s, n)| && x in Chunks(s, n)[i] ==> x in s
  {
    forall i, x | 0 <= i < |Chunks(s, n)| && x in Chunks(s, n)[i] ensures x in s {
      FlattenMember(Chunks(s, n), i, x);
      ChunksFlatten(s, n);
    }
  }

  lemma {:induction false} FlattenMember<T>(ss: seq<seq<T>>, i: nat, x: T)
    requires i < |ss| && x in ss[i]
    ensures x in Flatten(ss)
  {
    if i < |ss| - 1 {
      FlattenMember(ss[..|ss| - 1], i, x);
    }
  }

  /** Elements of s that satisfy p, in order. */
  function Filter<T>(s: seq<T>, p: T -> bool): (r: seq<T>)
    ensures |r| <= |s|
  {
    if s == [] then [] else Filter(s[..|s| - 1], p) + (if p(s[|s| - 1]) then [s[|s| - 1]] else [])
  }

  lemma {:induction false} FilterCount<T>(s: seq<T>, p: T -> bool, x: T)
    ensures multiset(Filter(s, p))[x] == if p(x) then multiset(s)[x] else 0
  {
    if s != [] {
      FilterCount(s[..|s| - 1], p, x);
      assert s == s[..|s| - 1] + [s[|s| - 1]];
    }
  }

  predicate NoDuplicates<T(==)>(s: seq<T>)
  {
    forall i, j :: 0 <= i < j < |s| ==> s[i] != s[j]
  }

  /** The multiset sum of f over the elements of s. */
  function SeqBag<T, X>(s: seq<T>, f: T -> multiset<X>): multiset<X>
  {
    if s == [] then multiset{} else SeqBag(s[..|s| - 1], f) + f(s[|s| - 1])
  }

  lemma {:induction false} SeqBagConcat<T, X>(a: seq<T>, b: seq<T>, f: T -> multiset<X>)
    ensures SeqBag(a + b, f) == SeqBag(a, f) + SeqBag(b, f)
    decreases |b|
  {
    if b != [] {
      var b' := b[..|b| - 1];
      assert (a + b)[..|a + b| - 1] == a + b';
      SeqBagConcat(a, b', f);
    } else {
      assert a + b == a;
    }
  }

  /** The sum depends only on the multiset of elements. */
  lemma {:induction false} SeqBagPermutation<T, X>(a: seq<T>, b: seq<T>, f: T -> multiset<X>)
    requires multiset(a) == multiset(b)
    ensures SeqBag(a, f) == SeqBag(b, f)
    decreases |a|
  {
    if a != [] {
      var x, a' := a[|a| - 1], a[..|a| - 1];
      assert a == a' + [x];
      assert multiset(a') == multiset(a) - multiset{x};
      assert x in multiset(b);
      var k :| 0 <= k < |b| && b[k] == x;
      var b' := b[..k] + b[k + 1..];
      MultisetRemoveAt(b, k);
      SeqBagPermutation(a', b', f);
      SeqBagRemoveAt(b, k, f);
    }
  }

  lemma MultisetRemoveAt<T>(b: seq<T>, k: nat)
    requires k < |b|
    ensures multiset(b[..k] + b[k + 1..]) == multiset(b) - multiset{b[k]}
  {
    assert b == b[..k] + [b[k]] + b[k + 1..];
  }

  /** Taking one element out takes its share out of the sum. */
  lemma SeqBagRemoveAt<T, X>(b: seq<T>, k: nat, f: T -> multiset<X>)
    requires k < |b|
    ensures SeqBag(b, f) == SeqBag(b[..k] + b[k + 1..], f) + f(b[k])
  {
    var front, x, back := b[..k], b[k], b[k + 1..];
    SplitAt(b, k);
    SeqBagConcat(front + [x], back, f);
    SeqBagConcat(front, [x], f);
    SeqBagConcat(front, back, f);
    SeqBagSingle(x, f);
    var F, B := SeqBag(front, f), SeqBag(back, f);
    assert SeqBag(b, f) == F + f(x) + B;
  }

  lemma SplitAt<T>(b: seq<T>, k: nat)
    requires k < |b|
    ensures b == (b[..k] + [b[k]]) + b[k + 1..]
  {
  }

  lemma SeqBagLast<T, X>(s: seq<T>, f: T -> multiset<X>)
    requires s != []
    ensures SeqBag(s, f) == SeqBag(s[..|s| - 1], f) + f(s[|s| - 1])
  {
  }

  lemma AppendAssoc<T>(a: seq<T>, b: seq<T>, c: seq<T>)
    ensures (a + b) + c == a + (b + c)
  {
  }

  lemma SeqBagSingle<T, X>(x: T, f: T -> multiset<X>)
    ensures SeqBag([x], f) == f(x)
  {
    assert [x][..0] == [];
  }

  /** No duplicates means every element occurs once. */
  lemma {:induction false} NoDuplicatesCounts<T>(s: seq<T>)
    ensures NoDuplicates(s) <==> forall x :: multiset(s)[x] <= 1
  {
    if s != [] {
      var s', y := s[..|s| - 1], s[|s| - 1];
      NoDuplicatesCounts(s');
      assert s == s' + [y];
      assert NoDuplicates(s) <==> NoDuplicates(s') && y !in s' by {
        if NoDuplicates(s') && y !in s' {
          forall i, j | 0 <= i < j < |s| ensures s[i] != s[j] {
            if j < |s| - 1 {
              assert s[i] == s'[i] && s[j] == s'[j];
            } else {
              assert s[i] == s'[i];
            }
          }
        }
      }
      if forall x :: multiset(s)[x] <= 1 {
        assert multiset(s)[y] == multiset(s')[y] + 1;
        forall x ensures multiset(s')[x] <= 1 {
          assert multiset(s)[x] >= multiset(s')[x];
        }
      }
    }
  }

  /** A sequence without duplicates stays so under any reordering. */
  lemma NoDuplicatesPermutation<T>(a: seq<T>, b: seq<T>)
    requires NoDuplicates(a) && multiset(a) == multiset(b)
    ensures NoDuplicates(b)
  {
    NoDuplicatesCounts(a);
    NoDuplicatesCounts(b);
  }

  /** Python's `zip`: pairs up to the shorter length. */
  function Zip<T>(a: seq<T>, b: seq<T>): (r: seq<(T, T)>)
    ensures |r| == if |a| <= |b| then |a| else |b|
    ensures forall i :: 0 <= i < |r| ==> r[i] == (a[i], b[i])
  {
    seq(if |a| <= |b| then |a| else |b|, i requires 0 <= i < |a| && i < |b| => (a[i], b[i]))
  }

  function Firsts<T>(ps: seq<(T, T)>): (r: seq<T>)
    ensures |r| == |ps| && forall i :: 0 <= i < |ps| ==> r[i] == ps[i].0
  {
    seq(|ps|, i requires 0 <= i < |ps| => ps[i].0)
  }

  function Seconds<T>(ps: seq<(T, T)>): (r: seq<T>)
    ensures |r| == |ps| && forall i :: 0 <= i < |ps| ==> r[i] == ps[i].1
  {
    seq(|ps|, i requires 0 <= i < |ps| => ps[i].1)
  }

  lemma PrefixStep<T>(s: seq<T>, i: nat)
    requires i < |s|
    ensures s[..i + 1] == s[..i] + [s[i]]
  {
  }

  lemma FirstsSecondsAppend<T>(ps: seq<(T, T)>, p: (T, T))
    ensures Firsts(ps + [p]) == Firsts(ps) + [p.0]
    ensures Seconds(ps + [p]) == Seconds(ps) + [p.1]
  {
    assert Firsts(ps + [p]) == Firsts(ps) + [p.0];
    assert Seconds(ps + [p]) == Seconds(ps) + [p.1];
  }

  /** The pairs laid out one after the other: a0, b0, a1, b1, ... */
  function Interleave<T>(ps: seq<(T, T)>): (r: seq<T>)
    ensures |r| == 2 * |ps|
  {
    if ps == [] then [] else Interleave(ps[..|ps| - 1]) + [ps[|ps| - 1].0, ps[|ps| - 1].1]
  }

  lemma {:induction false} InterleaveConcat<T>(ps: seq<(T, T)>, qs: seq<(T, T)>)
    ensures Interleave(ps + qs) == Interleave(ps) + Interleave(qs)
  {
    if qs != [] {
      var qs' := qs[..|qs| - 1];
      InterleaveConcat(ps, qs');
      assert (ps + qs)[..|ps + qs| - 1] == ps + qs';
      assert qs[..|qs| - 1] == qs';
    } else {
      assert ps + qs == ps;
    }
  }

  lemma {:induction false} InterleaveAt<T>(ps: seq<(T, T)>, k: nat)
    requires k < 2 * |ps|
    ensures Interleave(ps)[k] == if k % 2 == 0 then ps[k / 2].0 else ps[k / 2].1
  {
    if k < 2 * (|ps| - 1) {
      InterleaveAt(ps[..|ps| - 1], k);
    }
  }

  /** Summing over the interleaving is summing over both halves. */
  lemma {:induction false} InterleaveBag<T, X>(ps: seq<(T, T)>, f: T -> multiset<X>)
    ensures SeqBag(Interleave(ps), f) == SeqBag(Firsts(ps), f) + SeqBag(Seconds(ps), f)
  {
    if ps != [] {
      var ps' := ps[..|ps| - 1];
      var p := ps[|ps| - 1];
      InterleaveBag(ps', f);
      SeqBagConcat(Interleave(ps'), [p.0, p.1], f);
      assert SeqBag([p.0, p.1], f) == f(p.0) + f(p.1) by {
        assert [p.0, p.1][..1] == [p.0];
        assert [p.0][..0] == [];
        assert SeqBag([p.0], f) == f(p.0);
      }
      assert Firsts(ps)[..|ps| - 1] == Firsts(ps');
      assert Seconds(ps)[..|ps| - 1] == Seconds(ps');
    }
  }

  lemma ZipHalves<T>(a: seq<T>, b: seq<T>)
    requires |a| == |b|
    ensures Firsts(Zip(a, b)) == a && Seconds(Zip(a, b)) == b
  {
  }
  /** The sum of f over both halves of every pair depends only on the
      per-pair sums. */
  lemma {:induction false} PairwiseBag<A, B, X>(xs: seq<(A, A)>, ys: seq<(B, B)>, f: A -> multiset<X>, h: B -> multiset<X>)
    requires |xs| == |ys|
    requires forall i :: 0 <= i < |xs| ==> f(xs[i].0) + f(xs[i].1) == h(ys[i].0) + h(ys[i].1)
    ensures SeqBag(Firsts(xs), f) + SeqBag(Seconds(xs), f) == SeqBag(Firsts(ys), h) + SeqBag(Seconds(ys), h)
  {
    if xs != [] {
      var n := |xs| - 1;
      PairwiseBag(xs[..n], ys[..n], f, h);
      assert Firsts(xs)[..n] == Firsts(xs[..n]) && Seconds(xs)[..n] == Seconds(xs[..n]);
      assert Firsts(ys)[..n] == Firsts(ys[..n]) && Seconds(ys)[..n] == Seconds(ys[..n]);
      assert SeqBag(Firsts(xs), f) == SeqBag(Firsts(xs[..n]), f) + f(xs[n].0);
      assert SeqBag(Seconds(xs), f) == SeqBag(Seconds(xs[..n]), f) + f(xs[n].1);
      assert SeqBag(Firsts(ys), h) == SeqBag(Firsts(ys[..n]), h) + h(ys[n].0);
      assert SeqBag(Seconds(ys), h) == SeqBag(Seconds(ys[..n]), h) + h(ys[n].1);
      var l := SeqBag(Firsts(xs), f) + SeqBag(Seconds(xs), f);
      var r := SeqBag(Firsts(ys), h) + SeqBag(Seconds(ys), h);
      assert f(xs[n].0) + f(xs[n].1) == h(ys[n].0) + h(ys[n].1);
      var l' := SeqBag(Firsts(xs[..n]), f) + SeqBag(Seconds(xs[..n]), f);
      var r' := SeqBag(Firsts(ys[..n]), h) + SeqBag(Seconds(ys[..n]), h);
      assert l == l' + (f(xs[n].0) + f(xs[n].1));
      assert r == r' + (h(ys[n].0) + h(ys[n].1));
      assert l == r;
    }
  }

  lemma MultisetCancel<X>(a: multiset<X>, b: multiset<X>, c: multiset<X>)
    requires a + c == b + c
    ensures a == b
  {
    forall x ensures a[x] == b[x] {
      assert (a + c)[x] == a[x] + c[x] && (b + c)[x] == b[x] + c[x];
    }
  }
}
