// The clique-cover joint degree sequence: every vertex of a clique cover
// gets a row that counts, per clique size, the cover's cliques containing
// it; columns of sizes that no clique has are dropped.

module CoverJointDegree {
  import opened Common
  import opened JointDegrees

  /** A clique cover: each clique a list of vertex ids. */
  type Cover = seq<seq<int>>

  // ----- sorted(set(...)) -----

  predicate Increasing(s: seq<int>)
  {
    forall i, j :: 0 <= i < j < |s| ==> s[i] < s[j]
  }

  /** x put into its place in a strictly increasing list, unless present. */
  function Insert(x: int, r: seq<int>): seq<int>
  {
    if r == [] then [x]
    else if x < r[0] then [x] + r
    else if x == r[0] then r
    else [r[0]] + Insert(x, r[1..])
  }

  lemma {:induction false} InsertMeaning(x: int, r: seq<int>)
    requires Increasing(r)
    ensures Increasing(Insert(x, r))
    ensures forall y :: y in Insert(x, r) <==> y == x || y in r
  {
    if r == [] {
    } else if x < r[0] {
      forall y | y in r ensures x < y {
        var k :| 0 <= k < |r| && r[k] == y;
      }
      ConsIncreasing(x, r);
    } else if x > r[0] {
      InsertMeaning(x, r[1..]);
      var t := Insert(x, r[1..]);
      assert r == [r[0]] + r[1..];
      forall y | y in t ensures r[0] < y {
        if y != x {
          var k :| 1 <= k < |r| && r[k] == y;
        }
      }
      ConsIncreasing(r[0], t);
    }
  }

  /** A value below every element of an increasing list extends it. */
  lemma ConsIncreasing(a: int, t: seq<int>)
    requires Increasing(t) && forall y :: y in t ==> a < y
    ensures Increasing([a] + t)
  {
    forall i, j | 0 <= i < j < |[a] + t| ensures ([a] + t)[i] < ([a] + t)[j] {
      if i == 0 {
        assert ([a] + t)[j] in t;
      } else {
        assert ([a] + t)[i] == t[i - 1] && ([a] + t)[j] == t[j - 1];
      }
    }
  }

  /** `sorted(set(s))`. */
  function SortedSet(s: seq<int>): seq<int>
  {
    if s == [] then [] else Insert(s[|s| - 1], SortedSet(s[..|s| - 1]))
  }

  /** `sorted(set(s))` is strictly increasing and holds exactly the elements
      of s. */
  lemma {:induction false} SortedSetMeaning(s: seq<int>)
    ensures Increasing(SortedSet(s))
    ensures forall y :: y in SortedSet(s) <==> y in s
  {
    if s != [] {
      SortedSetMeaning(s[..|s| - 1]);
      InsertMeaning(s[|s| - 1], SortedSet(s[..|s| - 1]));
      assert s == s[..|s| - 1] + [s[|s| - 1]];
    }
  }

  /** The size of every clique. */
  function Sizes(cover: Cover): (r: seq<int>)
    ensures |r| == |cover| && forall i :: 0 <= i < |cover| ==> r[i] == |cover[i]|
  {
    seq(|cover|, i requires 0 <= i < |cover| => |cover[i]|)
  }

  /** The loader's `motif_sizes`: the distinct clique sizes in ascending
      order. */
  function MotifSizes(cover: Cover): seq<int>
  {
    SortedSet(Sizes(cover))
  }

  lemma MotifSizesMeaning(cover: Cover, m: int)
    ensures Increasing(MotifSizes(cover))
    ensures m in MotifSizes(cover) <==> exists c :: c in cover && |c| == m
  {
    SortedSetMeaning(Sizes(cover));
    if m in Sizes(cover) {
      var i :| 0 <= i < |cover| && Sizes(cover)[i] == m;
      assert cover[i] in cover;
    }
    if c :| c in cover && |c| == m {
      var i :| 0 <= i < |cover| && cover[i] == c;
      assert Sizes(cover)[i] == m;
    }
  }

  /** `len(max(cover, key=len))`. */
  function Largest(cover: Cover): (m: nat)
    requires cover != []
    ensures forall c :: c in cover ==> |c| <= m
    ensures exists c :: c in cover && |c| == m
  {
    if |cover| == 1 then |cover[0]|
    else
      var m := Largest(cover[..|cover| - 1]);
      assert forall c :: c in cover ==> c in cover[..|cover| - 1] || c == cover[|cover| - 1];
      if |cover[|cover| - 1]| > m then |cover[|cover| - 1]| else m
  }

  // ----- counting -----

  /** Python's `jds[idx]` for idx = v - zero_index over R rows: a negative
      index counts from the end; anything outside -R .. R - 1 raises
      IndexError. */
  function Slot(v: int, zeroIndex: int, R: nat): (r: Option<nat>)
    ensures r.Some? ==> r.value < R
  {
    var idx := v - zeroIndex;
    if 0 <= idx < R then Some(idx)
    else if idx < 0 && idx + R >= 0 then Some(idx + R)
    else None
  }

  /** One increment of the counting loop: a vertex, and the column of its
      clique's size. */
  type Event = (int, int)

  function CliqueEvents(c: seq<int>): (r: seq<Event>)
    ensures |r| == |c| && forall p :: 0 <= p < |c| ==> r[p] == (c[p], |c| - 1)
  {
    seq(|c|, p requires 0 <= p < |c| => (c[p], |c| - 1))
  }

  /** Every increment of the counting loop, in order. */
  function Events(cover: Cover): seq<Event>
  {
    if cover == [] then [] else Events(cover[..|cover| - 1]) + CliqueEvents(cover[|cover| - 1])
  }

  /** The increments come from the cover: a member of a clique, and the
      column one below the clique's size. */
  lemma {:induction false} EventsFrom(cover: Cover, e: Event)
    requires e in Events(cover)
    ensures exists i, p :: 0 <= i < |cover| && 0 <= p < |cover[i]| && e == (cover[i][p], |cover[i]| - 1)
  {
    var init := cover[..|cover| - 1];
    if e in Events(init) {
      EventsFrom(init, e);
      var i, p :| 0 <= i < |init| && 0 <= p < |init[i]| && e == (init[i][p], |init[i]| - 1);
      assert cover[i] == init[i];
    } else {
      var c := cover[|cover| - 1];
      var p :| 0 <= p < |c| && CliqueEvents(c)[p] == e;
    }
  }

  lemma {:induction false} EventIn(cover: Cover, i: nat, p: nat)
    requires i < |cover| && p < |cover[i]|
    ensures (cover[i][p], |cover[i]| - 1) in Events(cover)
  {
    var init := cover[..|cover| - 1];
    if i < |cover| - 1 {
      assert init[i] == cover[i];
      EventIn(init, i, p);
    } else {
      assert CliqueEvents(cover[i])[p] == (cover[i][p], |cover[i]| - 1);
    }
  }

  /** Every increment lands in a row and a column of the R-by-L table. */
  predicate Fits(events: seq<Event>, zeroIndex: int, R: nat, L: nat)
  {
    forall e :: e in events ==> Slot(e.0, zeroIndex, R).Some? && 0 <= e.1 < L
  }

  /** R rows of L zeros. */
  function Zeros(R: nat, L: nat): (t: seq<Row>)
    ensures |t| == R && forall r :: 0 <= r < R ==> t[r] == Repeat(0, L)
  {
    Repeat(Repeat(0, L), R)
  }

  /** The table after the given increments. */
  function Table(events: seq<Event>, zeroIndex: int, R: nat, L: nat): (t: seq<Row>)
    requires Fits(events, zeroIndex, R, L)
    ensures |t| == R && forall r :: 0 <= r < R ==> |t[r]| == L
  {
    if events == [] then Zeros(R, L)
    else
      var last := events[|events| - 1];
      Bump(Table(events[..|events| - 1], zeroIndex, R, L), Slot(last.0, zeroIndex, R).value, last.1)
  }

  /** How many increments go to row r, column col. */
  function Tally(events: seq<Event>, zeroIndex: int, R: nat, r: nat, col: int): nat
  {
    if events == [] then 0
    else
      var last := events[|events| - 1];
      Tally(events[..|events| - 1], zeroIndex, R, r, col)
        + (if Slot(last.0, zeroIndex, R) == Some(r) && last.1 == col then 1 else 0)
  }

  /** Each cell of the table holds its tally. */
  lemma {:induction false} TableTally(events: seq<Event>, zeroIndex: int, R: nat, L: nat, r: nat, col: nat)
    requires Fits(events, zeroIndex, R, L) && r < R && col < L
    ensures Table(events, zeroIndex, R, L)[r][col] == Tally(events, zeroIndex, R, r, col)
  {
    if events != [] {
      TableTally(events[..|events| - 1], zeroIndex, R, L, r, col);
    }
  }

  lemma {:induction false} TallyPositive(events: seq<Event>, zeroIndex: int, R: nat, e: Event, r: nat)
    requires e in events && Slot(e.0, zeroIndex, R) == Some(r)
    ensures Tally(events, zeroIndex, R, r, e.1) >= 1
  {
    if events[|events| - 1] != e {
      assert e in events[..|events| - 1];
      TallyPositive(events[..|events| - 1], zeroIndex, R, e, r);
    }
  }

  lemma {:induction false} TallyNone(events: seq<Event>, zeroIndex: int, R: nat, r: nat, col: int)
    requires forall e :: e in events ==> e.1 != col
    ensures Tally(events, zeroIndex, R, r, col) == 0
  {
    if events != [] {
      TallyNone(events[..|events| - 1], zeroIndex, R, r, col);
    }
  }

  /** The counting loop's outcome over an R-row, L-column table: IndexError
      at a vertex whose row index is out of range. */
  function CountTable(cover: Cover, zeroIndex: int, R: nat, L: nat): Result<seq<Row>>
    requires forall c :: c in cover ==> |c| <= L
  {
    if forall e :: e in Events(cover) ==> Slot(e.0, zeroIndex, R).Some? then
      EventColumns(cover, L);
      Ok(Table(Events(cover), zeroIndex, R, L))
    else Err(IndexError)
  }

  lemma EventColumns(cover: Cover, L: nat)
    requires forall c :: c in cover ==> |c| <= L
    ensures forall e :: e in Events(cover) ==> 0 <= e.1 < L
  {
    forall e | e in Events(cover) ensures 0 <= e.1 < L {
      EventsFrom(cover, e);
      var i, p :| 0 <= i < |cover| && 0 <= p < |cover[i]| && e == (cover[i][p], |cover[i]| - 1);
      assert cover[i] in cover;
    }
  }

  lemma EventsStep(cover: Cover, i: nat)
    requires i < |cover|
    ensures Events(cover[..i + 1]) == Events(cover[..i]) + CliqueEvents(cover[i])
  {
    assert cover[..i + 1][..i] == cover[..i];
  }

  lemma TableStep(events: seq<Event>, e: Event, zeroIndex: int, R: nat, L: nat)
    requires Fits(events + [e], zeroIndex, R, L)
    ensures Fits(events, zeroIndex, R, L)
    ensures Table(events + [e], zeroIndex, R, L)
      == Bump(Table(events, zeroIndex, R, L), Slot(e.0, zeroIndex, R).value, e.1)
  {
    assert (events + [e])[..|events|] == events;
  }

  /** The inner loop of the counting: one clique's members, each adding one
      to the column of the clique's size in its own row. */
  method CountClique(jds: seq<Row>, c: seq<int>, ghost done: seq<Event>, zeroIndex: int, R: nat, L: nat)
    returns (res: Result<seq<Row>>)
    requires 1 <= |c| <= L || c == []
    requires Fits(done, zeroIndex, R, L) && jds == Table(done, zeroIndex, R, L)
    ensures res.Err? <==> exists p :: 0 <= p < |c| && Slot(c[p], zeroIndex, R).None?
    ensures res.Err? ==> res.error == IndexError
    ensures res.Ok? ==>
      (Fits(done + CliqueEvents(c), zeroIndex, R, L)
       && res.value == Table(done + CliqueEvents(c), zeroIndex, R, L))
  {
    var rows := jds;
    assert done + CliqueEvents(c)[..0] == done;
    for p := 0 to |c|
      invariant forall q :: 0 <= q < p ==> Slot(c[q], zeroIndex, R).Some?
      invariant Fits(done + CliqueEvents(c)[..p], zeroIndex, R, L)
      invariant rows == Table(done + CliqueEvents(c)[..p], zeroIndex, R, L)
    {
      var slot := Slot(c[p], zeroIndex, R);
      if slot.None? {
        return Err(IndexError);
      }
      CountStep(done, c, p, zeroIndex, R, L);
      rows := Bump(rows, slot.value, |c| - 1);
    }
    assert CliqueEvents(c)[..|c|] == CliqueEvents(c);
    return Ok(rows);
  }

  /** One member of a clique counted: its row's cell for the clique's size
      goes up by one. */
  lemma CountStep(done: seq<Event>, c: seq<int>, p: nat, zeroIndex: int, R: nat, L: nat)
    requires p < |c| <= L && Slot(c[p], zeroIndex, R).Some?
    requires Fits(done + CliqueEvents(c)[..p], zeroIndex, R, L)
    ensures Fits(done + CliqueEvents(c)[..p + 1], zeroIndex, R, L)
    ensures Table(done + CliqueEvents(c)[..p + 1], zeroIndex, R, L)
      == Bump(Table(done + CliqueEvents(c)[..p], zeroIndex, R, L), Slot(c[p], zeroIndex, R).value, |c| - 1)
  {
    var before := done + CliqueEvents(c)[..p];
    assert before + [(c[p], |c| - 1)] == done + CliqueEvents(c)[..p + 1];
    TableStep(before, (c[p], |c| - 1), zeroIndex, R, L);
  }

  /** `create_jdd`'s counting: an R-row table of L zeros, and for every
      member of every clique one more in the column of the clique's size. */
  method CountCliques(cover: Cover, zeroIndex: int, R: nat, L: nat) returns (res: Result<seq<Row>>)
    requires forall c :: c in cover ==> |c| <= L
    ensures res == CountTable(cover, zeroIndex, R, L)
  {
    EventColumns(cover, L);
    var jds: seq<Row> := [];
    for n := 0 to R
      invariant jds == Zeros(n, L)
    {
      jds := jds + [Repeat(0, L)];
    }
    for i := 0 to |cover|
      invariant Fits(Events(cover[..i]), zeroIndex, R, L)
      invariant jds == Table(Events(cover[..i]), zeroIndex, R, L)
    {
      EventsStep(cover, i);
      assert cover[i] in cover;
      var r := CountClique(jds, cover[i], Events(cover[..i]), zeroIndex, R, L);
      if r.Err? {
        var p :| 0 <= p < |cover[i]| && Slot(cover[i][p], zeroIndex, R).None?;
        EventIn(cover, i, p);
        return Err(IndexError);
      }
      jds := r.value;
    }
    assert cover[..|cover|] == cover;
    res := Ok(jds);
  }

  // ----- dropping the all-zero columns -----

  /** The j < n with p(j), ascending. */
  function Where(n: nat, p: int -> bool): (r: seq<nat>)
    ensures forall j :: j in r <==> 0 <= j < n && p(j)
    ensures forall t :: 0 <= t < |r| ==> r[t] < n
  {
    if n == 0 then [] else Where(n - 1, p) + (if p(n - 1) then [n - 1] else [])
  }

  lemma {:induction false} WhereIncreasing(n: nat, p: int -> bool)
    ensures forall s, t :: 0 <= s < t < |Where(n, p)| ==> Where(n, p)[s] < Where(n, p)[t]
  {
    if n > 0 {
      WhereIncreasing(n - 1, p);
    }
  }

  lemma {:induction false} WhereSame(n: nat, p: int -> bool, q: int -> bool)
    requires forall j :: 0 <= j < n ==> p(j) == q(j)
    ensures Where(n, p) == Where(n, q)
  {
    if n > 0 {
      WhereSame(n - 1, p, q);
    }
  }

  /** `not any(column j)`: column j is all zeros. */
  predicate ZeroColumn(rows: seq<Row>, j: nat)
  {
    forall r :: 0 <= r < |rows| ==> j < |rows[r]| && rows[r][j] == 0
  }

  /** `indxs`: the all-zero columns among the first n, ascending. */
  function ZeroColumns(rows: seq<Row>, n: nat): seq<nat>
  {
    Where(n, j => j >= 0 && ZeroColumn(rows, j))
  }

  /** The columns below n that are not in zs, ascending. */
  function Kept(n: nat, zs: seq<nat>): seq<nat>
  {
    Where(n, j => j !in zs)
  }

  /** Every row reduced to the columns listed in keep. */
  function KeepColumns(rows: seq<Row>, keep: seq<nat>): (r: seq<Row>)
    requires forall r, t :: 0 <= r < |rows| && 0 <= t < |keep| ==> keep[t] < |rows[r]|
    ensures |r| == |rows|
    ensures forall i :: 0 <= i < |rows| ==> |r[i]| == |keep| && forall t :: 0 <= t < |keep| ==> r[i][t] == rows[i][keep[t]]
  {
    seq(|rows|, i requires 0 <= i < |rows| => seq(|keep|, t requires 0 <= t < |keep| => rows[i][keep[t]]))
  }

  /** The zero columns removed as evidently intended: every listed column
      goes, every other column stays, in order. */
  function DropColumns(rows: seq<Row>, zs: seq<nat>): seq<Row>
  {
    var n := Stubs.Columns(rows);
    KeepColumns(rows, Kept(n, zs))
  }

  /** `del jd[i]` */
  function Delete(row: Row, i: nat): Row
    requires i < |row|
  {
    row[..i] + row[i + 1..]
  }

  /** The deletion loop as written: each listed index is deleted, in
      ascending order, from rows that earlier deletions already shortened;
      an index past the end raises IndexError. */
  function DropAsWritten(rows: seq<Row>, zs: seq<nat>): Result<seq<Row>>
    decreases |zs|
  {
    if zs == [] then Ok(rows)
    else if exists r :: 0 <= r < |rows| && zs[0] >= |rows[r]| then Err(IndexError)
    else DropAsWritten(seq(|rows|, r requires 0 <= r < |rows| => Delete(rows[r], zs[0])), zs[1..])
  }

  /** Sizes 2 and 4 leave columns 0 and 2 of a vertex's row empty. */
  lemma ShiftsZeroColumns()
    ensures ZeroColumns([[0, 1, 0, 1]], 4) == [0, 2]
  {
    var rows: seq<Row> := [[0, 1, 0, 1]];
    assert !ZeroColumn(rows, 1) by { assert rows[0][1] != 0; }
    assert !ZeroColumn(rows, 3) by { assert rows[0][3] != 0; }
    assert ZeroColumn(rows, 0) && ZeroColumn(rows, 2);
  }

  /** Deleting index 2 after index 0 removes the size-4 column instead of
      the size-3 one: the row for sizes 2 and 4 keeps its 0 for size 3. */
  lemma StaleDeletionShifts()
    ensures DropAsWritten([[0, 1, 0, 1]], [0, 2]) == Ok([[1, 0]])
    ensures DropColumns([[0, 1, 0, 1]], [0, 2]) == [[1, 1]]
  {
    ShiftsFirstPass();
    ShiftsSecondPass();
    ShiftsKept();
  }

  lemma ShiftsFirstPass()
    ensures DropAsWritten([[0, 1, 0, 1]], [0, 2]) == DropAsWritten([[1, 0, 1]], [2])
  {
    var rows: seq<Row> := [[0, 1, 0, 1]];
    assert Delete(rows[0], 0) == [1, 0, 1];
    DropStep(rows, 0, [2], [[1, 0, 1]]);
  }

  lemma ShiftsSecondPass()
    ensures DropAsWritten([[1, 0, 1]], [2]) == Ok([[1, 0]])
  {
    var rows: seq<Row> := [[1, 0, 1]];
    assert Delete(rows[0], 2) == [1, 0];
    DropStep(rows, 2, [], [[1, 0]]);
    DropDone([[1, 0]]);
  }

  lemma ShiftsKept()
    ensures DropColumns([[0, 1, 0, 1]], [0, 2]) == [[1, 1]]
  {
    var rows: seq<Row> := [[0, 1, 0, 1]];
    KeptExample();
    assert DropColumns(rows, [0, 2]) == KeepColumns(rows, [1, 3]);
    assert KeepColumns(rows, [1, 3])[0] == [1, 1];
  }

  /** One pass of the deletion loop, when the index fits every row. */
  lemma DropStep(rows: seq<Row>, z: nat, rest: seq<nat>, next: seq<Row>)
    requires |next| == |rows|
    requires forall r :: 0 <= r < |rows| ==> z < |rows[r]| && Delete(rows[r], z) == next[r]
    ensures DropAsWritten(rows, [z] + rest) == DropAsWritten(next, rest)
  {
    assert ([z] + rest)[1..] == rest;
    assert seq(|rows|, r requires 0 <= r < |rows| => Delete(rows[r], z)) == next;
  }

  /** The deletion loop over no indexes leaves the rows as they are. */
  lemma DropDone(rows: seq<Row>)
    ensures DropAsWritten(rows, []) == Ok(rows)
  {
  }

  /** `for i in indxs: for jd in jds: del jd[i]`: the deletion loop as
      written, one row at a time. */
  method DeleteColumns(rows: seq<Row>, zs: seq<nat>) returns (res: Result<seq<Row>>)
    ensures res == DropAsWritten(rows, zs)
  {
    var jds := rows;
    for k := 0 to |zs|
      invariant DropAsWritten(jds, zs[k..]) == DropAsWritten(rows, zs)
    {
      var i := zs[k];
      assert zs[k..] == [i] + zs[k + 1..];
      var next := jds;
      for r := 0 to |jds|
        invariant |next| == |jds|
        invariant forall q :: 0 <= q < r ==> i < |jds[q]| && next[q] == Delete(jds[q], i)
        invariant forall q :: r <= q < |jds| ==> next[q] == jds[q]
      {
        if i >= |jds[r]| {
          return Err(IndexError);
        }
        next := next[r := Delete(jds[r], i)];
      }
      DropStep(jds, i, zs[k + 1..], next);
      jds := next;
    }
    assert zs[|zs|..] == [];
    return Ok(jds);
  }

  /** Without a listed index, every column is kept. */
  lemma {:induction false} KeptNone(n: nat)
    ensures |Kept(n, [])| == n && forall t :: 0 <= t < n ==> Kept(n, [])[t] == t
  {
    if n > 0 {
      KeptNone(n - 1);
    }
  }

  /** With one listed index z, the kept columns are those below z and those
      above it, shifted down by one. */
  lemma {:induction false} KeptOne(n: nat, z: nat)
    requires z < n
    ensures |Kept(n, [z])| == n - 1
    ensures forall t :: 0 <= t < n - 1 ==> Kept(n, [z])[t] == if t < z then t else t + 1
  {
    if n - 1 == z {
      KeptBelow(z, z);
    } else {
      KeptOne(n - 1, z);
    }
  }

  lemma {:induction false} KeptBelow(n: nat, z: nat)
    requires n <= z
    ensures |Kept(n, [z])| == n && forall t :: 0 <= t < n ==> Kept(n, [z])[t] == t
  {
    if n > 0 {
      KeptBelow(n - 1, z);
    }
  }

  /** When at most one column is listed, deleting as written removes
      exactly the intended columns. */
  lemma DropAgrees(rows: seq<Row>, zs: seq<nat>)
    requires |zs| <= 1
    requires forall r :: 0 <= r < |rows| ==> |rows[r]| == Stubs.Columns(rows)
    requires forall t :: 0 <= t < |zs| ==> zs[t] < Stubs.Columns(rows)
    ensures DropAsWritten(rows, zs) == Ok(DropColumns(rows, zs))
  {
    if zs == [] {
      DropNone(rows);
    } else {
      assert zs == [zs[0]];
      DropOne(rows, zs[0]);
    }
  }

  lemma DropNone(rows: seq<Row>)
    requires forall r :: 0 <= r < |rows| ==> |rows[r]| == Stubs.Columns(rows)
    ensures DropAsWritten(rows, []) == Ok(DropColumns(rows, []))
  {
    var n := Stubs.Columns(rows);
    KeptNone(n);
    var keep := Kept(n, []);
    var kept := KeepColumns(rows, keep);
    assert DropColumns(rows, []) == kept;
    forall r | 0 <= r < |rows| ensures kept[r] == rows[r] {
      assert |kept[r]| == |rows[r]|;
    }
    assert kept == rows;
  }

  lemma DropOne(rows: seq<Row>, z: nat)
    requires forall r :: 0 <= r < |rows| ==> |rows[r]| == Stubs.Columns(rows)
    requires z < Stubs.Columns(rows)
    ensures DropAsWritten(rows, [z]) == Ok(DropColumns(rows, [z]))
  {
    var n := Stubs.Columns(rows);
    KeptOne(n, z);
    var next := seq(|rows|, r requires 0 <= r < |rows| => Delete(rows[r], z));
    assert [z] == [z] + [];
    DropStep(rows, z, [], next);
    DropDone(next);
    var keep := Kept(n, [z]);
    var kept := KeepColumns(rows, keep);
    assert DropColumns(rows, [z]) == kept;
    forall r | 0 <= r < |rows| ensures kept[r] == next[r] {
      RowAfterDelete(rows[r], z, keep, kept[r], next[r]);
    }
    assert kept == next;
  }

  /** One row: the kept entries are the row with entry z deleted. */
  lemma RowAfterDelete(row: Row, z: nat, keep: seq<nat>, kept: Row, deleted: Row)
    requires z < |row| && |keep| == |row| - 1
    requires forall t :: 0 <= t < |keep| ==> keep[t] == if t < z then t else t + 1
    requires |kept| == |keep| && forall t :: 0 <= t < |keep| ==> kept[t] == row[keep[t]]
    requires deleted == Delete(row, z)
    ensures kept == deleted
  {
    forall t | 0 <= t < |kept| ensures kept[t] == deleted[t] {
      if t < z {
        assert deleted[t] == row[t];
      } else {
        assert deleted[t] == row[t + 1];
      }
    }
  }

  lemma KeptExample()
    ensures Stubs.Columns([[0, 1, 0, 1]]) == 4
    ensures Kept(4, [0, 2]) == [1, 3]
  {
    assert Where(1, j => j !in [0, 2]) == [];
    assert Where(2, j => j !in [0, 2]) == [1];
    assert Where(3, j => j !in [0, 2]) == [1];
  }

  /** Sizes 1 and 5 leave columns 1, 2 and 3 empty; after two deletions the
      row has three entries and deleting index 3 raises IndexError. */
  lemma StaleDeletionOverruns()
    ensures ZeroColumns([[1, 0, 0, 0, 1]], 5) == [1, 2, 3]
    ensures DropAsWritten([[1, 0, 0, 0, 1]], [1, 2, 3]) == Err(IndexError)
  {
    OverrunsZeroColumns();
    OverrunsFirstPass();
    OverrunsSecondPass();
    OverrunsThirdPass();
  }

  lemma OverrunsFirstPass()
    ensures DropAsWritten([[1, 0, 0, 0, 1]], [1, 2, 3]) == DropAsWritten([[1, 0, 0, 1]], [2, 3])
  {
    var rows: seq<Row> := [[1, 0, 0, 0, 1]];
    assert Delete(rows[0], 1) == [1, 0, 0, 1];
    DropStep(rows, 1, [2, 3], [[1, 0, 0, 1]]);
  }

  lemma OverrunsSecondPass()
    ensures DropAsWritten([[1, 0, 0, 1]], [2, 3]) == DropAsWritten([[1, 0, 1]], [3])
  {
    var rows: seq<Row> := [[1, 0, 0, 1]];
    assert Delete(rows[0], 2) == [1, 0, 1];
    DropStep(rows, 2, [3], [[1, 0, 1]]);
  }

  lemma OverrunsThirdPass()
    ensures DropAsWritten([[1, 0, 1]], [3]) == Err(IndexError)
  {
    var rows: seq<Row> := [[1, 0, 1]];
    assert 3 >= |rows[0]|;
  }

  lemma OverrunsZeroColumns()
    ensures ZeroColumns([[1, 0, 0, 0, 1]], 5) == [1, 2, 3]
  {
    var rows: seq<Row> := [[1, 0, 0, 0, 1]];
    assert !ZeroColumn(rows, 0) by { assert rows[0][0] != 0; }
    assert !ZeroColumn(rows, 4) by { assert rows[0][4] != 0; }
    assert ZeroColumn(rows, 1) && ZeroColumn(rows, 2) && ZeroColumn(rows, 3);
  }

  // ----- the whole sequence -----

  /** What `create_jdd` evidently means to compute before converting: the
      distinct vertices (`min` of none raises ValueError), the row offset
      (0 when the least id is 0, else 1), the counting table, and the table
      without its all-zero columns. */
  function CoverJds(cover: Cover): Result<seq<Row>>
  {
    var ids := SortedSet(Flatten(cover));
    if ids == [] then Err(ValueError)
    else
      var zeroIndex := if ids[0] != 0 then 1 else 0;
      NonEmptyCover(cover);
      match CountTable(cover, zeroIndex, |ids|, Largest(cover))
        case Err(e) => Err(e)
        case Ok(t) => Ok(DropColumns(t, ZeroColumns(t, Stubs.Columns(t))))
  }

  /** What `create_jdd` computes before converting, as written: the
      intended table above, but with the all-zero columns deleted by the
      stale-index loop, which can delete the wrong column or raise
      IndexError. */
  function CoverJdsAsWritten(cover: Cover): Result<seq<Row>>
  {
    var ids := SortedSet(Flatten(cover));
    if ids == [] then Err(ValueError)
    else
      var zeroIndex := if ids[0] != 0 then 1 else 0;
      NonEmptyCover(cover);
      match CountTable(cover, zeroIndex, |ids|, Largest(cover))
        case Err(e) => Err(e)
        case Ok(t) => DropAsWritten(t, ZeroColumns(t, Stubs.Columns(t)))
  }

  lemma NonEmptyCover(cover: Cover)
    requires SortedSet(Flatten(cover)) != []
    ensures cover != []
  {
    SortedSetMeaning(Flatten(cover));
  }

  /** The columns j whose clique size j + 1 occurs in the cover. */
  function SizeColumns(cover: Cover, L: nat): seq<nat>
  {
    Where(L, j => j + 1 in Sizes(cover))
  }

  /** Column j of the counting table is all zeros exactly when no clique has
      j + 1 members. */
  lemma ZeroColumnMeaning(cover: Cover, zeroIndex: int, R: nat, L: nat, j: nat)
    requires forall c :: c in cover ==> |c| <= L
    requires CountTable(cover, zeroIndex, R, L).Ok? && R >= 1 && j < L
    ensures ZeroColumn(CountTable(cover, zeroIndex, R, L).value, j) <==> j + 1 !in Sizes(cover)
  {
    EventColumns(cover, L);
    var events := Events(cover);
    var t := Table(events, zeroIndex, R, L);
    if j + 1 in Sizes(cover) {
      var i :| 0 <= i < |cover| && Sizes(cover)[i] == j + 1;
      EventIn(cover, i, 0);
      var e := (cover[i][0], j);
      var r := Slot(e.0, zeroIndex, R).value;
      TallyPositive(events, zeroIndex, R, e, r);
      TableTally(events, zeroIndex, R, L, r, j);
    } else {
      forall e | e in events ensures e.1 != j {
        EventsFrom(cover, e);
        var i, p :| 0 <= i < |cover| && 0 <= p < |cover[i]| && e == (cover[i][p], |cover[i]| - 1);
        assert Sizes(cover)[i] == |cover[i]|;
      }
      forall r | 0 <= r < R ensures t[r][j] == 0 {
        TallyNone(events, zeroIndex, R, r, j);
        TableTally(events, zeroIndex, R, L, r, j);
      }
    }
  }

  /** The columns the drop keeps are those of the clique sizes present. */
  lemma KeptAreSizes(cover: Cover, zeroIndex: int, R: nat, L: nat)
    requires forall c :: c in cover ==> |c| <= L
    requires CountTable(cover, zeroIndex, R, L).Ok? && R >= 1
    ensures var t := CountTable(cover, zeroIndex, R, L).value;
      Stubs.Columns(t) == L && Kept(L, ZeroColumns(t, L)) == SizeColumns(cover, L)
  {
    var t := CountTable(cover, zeroIndex, R, L).value;
    EventColumns(cover, L);
    assert |t[0]| == L;
    var zs := ZeroColumns(t, L);
    forall j | 0 <= j < L ensures (j !in zs) == (j + 1 in Sizes(cover)) {
      ZeroColumnMeaning(cover, zeroIndex, R, L, j);
    }
    WhereSame(L, j => j !in zs, j => j + 1 in Sizes(cover));
  }

  /** The sequence is the counting table reduced to the columns of the
      clique sizes present. */
  lemma CoverJdsIs(cover: Cover)
    requires CoverJds(cover).Ok?
    ensures var ids := SortedSet(Flatten(cover));
      ids != [] && cover != [] &&
      var zeroIndex := if ids[0] != 0 then 1 else 0;
      var t := CountTable(cover, zeroIndex, |ids|, Largest(cover));
      t.Ok? && CoverJds(cover).value == KeepColumns(t.value, SizeColumns(cover, Largest(cover)))
  {
    var ids := SortedSet(Flatten(cover));
    NonEmptyCover(cover);
    var zeroIndex := if ids[0] != 0 then 1 else 0;
    KeptAreSizes(cover, zeroIndex, |ids|, Largest(cover));
  }

  /** The clique-cover sequence has one row per distinct vertex of the cover. */
  lemma CoverJdsRows(cover: Cover)
    requires CoverJds(cover).Ok?
    ensures var ids := SortedSet(Flatten(cover));
      |CoverJds(cover).value| == |ids| &&
      forall y :: y in ids <==> y in Flatten(cover)
  {
    CoverJdsIs(cover);
    SortedSetMeaning(Flatten(cover));
  }

  /** Its columns are those of the clique sizes present, ascending: every
      kept column is a size that occurs and every clique's size is kept. */
  lemma SizeColumnsMeaning(cover: Cover)
    requires cover != []
    ensures var keep := SizeColumns(cover, Largest(cover));
      (forall t :: 0 <= t < |keep| ==> keep[t] + 1 in Sizes(cover)) &&
      (forall c :: c in cover && c != [] ==> |c| - 1 in keep) &&
      (forall s, t :: 0 <= s < t < |keep| ==> keep[s] < keep[t])
  {
    SizeColumnsOccur(cover, Largest(cover));
    SizeColumnsCover(cover);
    WhereIncreasing(Largest(cover), j => j + 1 in Sizes(cover));
  }

  lemma SizeColumnsOccur(cover: Cover, L: nat)
    ensures var keep := SizeColumns(cover, L);
      forall t :: 0 <= t < |keep| ==> keep[t] + 1 in Sizes(cover)
  {
    var keep := SizeColumns(cover, L);
    forall t | 0 <= t < |keep| ensures keep[t] + 1 in Sizes(cover) {
      assert keep[t] in keep;
    }
  }

  lemma SizeColumnsCover(cover: Cover)
    requires cover != []
    ensures var keep := SizeColumns(cover, Largest(cover));
      forall c :: c in cover && c != [] ==> |c| - 1 in keep
  {
    var L := Largest(cover);
    var keep := SizeColumns(cover, L);
    forall c | c in cover && c != [] ensures |c| - 1 in keep {
      var i :| 0 <= i < |cover| && cover[i] == c;
      assert Sizes(cover)[i] == |c|;
      assert |c| <= L;
    }
  }

  /** Each cell counts how often the row's vertex sits in a clique of the
      column's size. */
  lemma CoverJdsCells(cover: Cover)
    requires CoverJds(cover).Ok?
    ensures var ids := SortedSet(Flatten(cover));
      var zeroIndex := if ids[0] != 0 then 1 else 0;
      var rows := CoverJds(cover).value;
      var keep := SizeColumns(cover, Largest(cover));
      forall r, t :: 0 <= r < |rows| && 0 <= t < |keep| ==>
        |rows[r]| == |keep| && rows[r][t] == Tally(Events(cover), zeroIndex, |ids|, r, keep[t])
  {
    CoverJdsIs(cover);
    var ids := SortedSet(Flatten(cover));
    var zeroIndex := if ids[0] != 0 then 1 else 0;
    var R, L := |ids|, Largest(cover);
    EventColumns(cover, L);
    var keep := SizeColumns(cover, L);
    var rows := CoverJds(cover).value;
    forall r, s | 0 <= r < R && 0 <= s < |keep|
      ensures rows[r][s] == Tally(Events(cover), zeroIndex, R, r, keep[s])
    {
      TableTally(Events(cover), zeroIndex, R, L, r, keep[s]);
    }
  }

  /** No clique of the cover has j + 1 members. */
  predicate SizeMissing(cover: Cover, j: int)
  {
    j + 1 !in Sizes(cover)
  }

  /** At most one clique size from 1 up to the largest is missing (a cover
      holding every size from 2 up, say). */
  predicate AtMostOneGap(cover: Cover)
    requires cover != []
  {
    forall i, j :: 0 <= i < j < Largest(cover) && SizeMissing(cover, i) ==> !SizeMissing(cover, j)
  }

  /** For such a cover the table has at most one all-zero column, and the
      deletion as written gives the intended sequence. */
  lemma CoverJdsAgree(cover: Cover)
    requires cover != [] && AtMostOneGap(cover)
    ensures CoverJdsAsWritten(cover) == CoverJds(cover)
  {
    var ids := SortedSet(Flatten(cover));
    if ids != [] {
      var zeroIndex := if ids[0] != 0 then 1 else 0;
      var table := CountTable(cover, zeroIndex, |ids|, Largest(cover));
      if table.Ok? {
        TableAgrees(cover, zeroIndex, |ids|, Largest(cover));
      }
    }
  }

  /** The counting table of such a cover loses the same columns either way. */
  lemma TableAgrees(cover: Cover, zeroIndex: int, R: nat, L: nat)
    requires forall c :: c in cover ==> |c| <= L
    requires CountTable(cover, zeroIndex, R, L).Ok? && R >= 1
    requires forall i, j :: 0 <= i < j < L && SizeMissing(cover, i) ==> !SizeMissing(cover, j)
    ensures var t := CountTable(cover, zeroIndex, R, L).value;
      DropAsWritten(t, ZeroColumns(t, Stubs.Columns(t))) == Ok(DropColumns(t, ZeroColumns(t, Stubs.Columns(t))))
  {
    var t := CountTable(cover, zeroIndex, R, L).value;
    KeptAreSizes(cover, zeroIndex, R, L);
    var zs := ZeroColumns(t, L);
    if |zs| >= 2 {
      WhereIncreasing(L, j => j >= 0 && ZeroColumn(t, j));
      assert zs[0] in zs && zs[1] in zs;
      ZeroColumnMeaning(cover, zeroIndex, R, L, zs[0]);
      ZeroColumnMeaning(cover, zeroIndex, R, L, zs[1]);
      assert SizeMissing(cover, zs[0]) && SizeMissing(cover, zs[1]);
      assert false;
    }
    DropAgrees(t, zs);
  }

  /** `create_jdd`'s computation of the sequence, as written. */
  method CliqueCoverJds(cover: Cover) returns (res: Result<seq<Row>>)
    ensures res == CoverJdsAsWritten(cover)
    ensures cover != [] && AtMostOneGap(cover) ==> res == CoverJds(cover)
  {
    var ids := SortedSet(Flatten(cover));
    if ids == [] {
      return Err(ValueError);
    }
    var zeroIndex := 0;
    if ids[0] != zeroIndex {
      zeroIndex := 1;
    }
    NonEmptyCover(cover);
    var largest := Largest(cover);
    var table := CountCliques(cover, zeroIndex, |ids|, largest);
    if table.Err? {
      return Err(table.error);
    }
    var zs := ZeroColumns(table.value, Stubs.Columns(table.value));
    res := DeleteColumns(table.value, zs);
    if AtMostOneGap(cover) {
      CoverJdsAgree(cover);
    }
  }

  // ----- the loader -----

  /** `JointDegreeCover`. */
  class CoverLoader {
    /** `_jdd`; None while the attribute has never been assigned. */
    var jdd: Option<map<Row, real>>
    const cover: Cover
    const motifSizes: seq<int>

    constructor (cover: Cover)
      ensures this.cover == cover && motifSizes == MotifSizes(cover) && jdd == None
    {
      this.cover := cover;
      motifSizes := MotifSizes(cover);
      jdd := None;
    }

    /** `create_jdd`: the rows it hands to `convert_jds_to_jdd` are lists,
        which `Counter` cannot hash, so a cover that gets that far raises
        TypeError. */
    method CreateJdd() returns (res: Result<()>)
      ensures CoverJdsAsWritten(cover).Err? ==> res == Err(CoverJdsAsWritten(cover).error)
      ensures CoverJdsAsWritten(cover).Ok? ==> res == Err(TypeError)
    {
      var jds := CliqueCoverJds(cover);
      if jds.Err? {
        return Err(jds.error);
      }
      return Err(TypeError);
    }
  }

  /** `JointDegreeCover(params)`: a missing cover is re-raised as a plain
      string (TypeError); otherwise `create_jdd` decides. */
  method NewCover(cover: Option<Cover>) returns (res: Result<CoverLoader>)
    ensures cover.None? ==> res == Err(TypeError)
    ensures cover.Some? && CoverJdsAsWritten(cover.value).Err? ==> res == Err(CoverJdsAsWritten(cover.value).error)
    ensures cover.Some? && CoverJdsAsWritten(cover.value).Ok? ==> res == Err(TypeError)
  {
    if cover.None? {
      return Err(TypeError);
    }
    var loader := new CoverLoader(cover.value);
    var r := loader.CreateJdd();
    return Err(r.error);
  }
}
