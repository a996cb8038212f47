/** Department rankings (calculateDepartmentRankings in
    src/utils/healthcareCalculations.js): every department is extended with
    its four computed figures, the list is sorted by efficiency, highest
    first, and each entry gets its 1-based position as its rank.

    JavaScript's `Array.prototype.sort` is stable (ECMA-262, 2019 edition
    onwards), so departments with equal efficiency keep their input order.
    The sort is modelled as a stable insertion sort; `StableSortIsUnique`
    shows that no other stable sort could give a different order. */
module Rankings {
  import opened Records
  import opened Metrics

  /** A department with its computed figures (the first `map`). */
  datatype Scored = Scored(
    dept: Department,
    efficiency: real,
    profitability: real,
    costPerPatient: real,
    revenuePerPatient: real)

  /** A scored department with its rank (the final `map`). */
  datatype RankedDepartment = RankedDepartment(entry: Scored, rank: int)

  /** The figures the first `map` attaches to one department: the department
      itself, unchanged, with its return on budget, its margin on revenue and
      its cost and revenue per patient. */
  function Score(d: Department): (s: Scored)
    ensures s.dept == d
    ensures d.budget == 0.0 ==> s.efficiency == 0.0
    ensures d.budget != 0.0 ==> s.efficiency * d.budget == (d.revenueGenerated - d.budget) * 100.0
    ensures d.revenueGenerated == 0.0 ==> s.profitability == 0.0
    ensures d.revenueGenerated != 0.0 ==>
      s.profitability * d.revenueGenerated == (d.revenueGenerated - d.budget) * 100.0
    ensures d.patientLoad == 0.0 ==> s.costPerPatient == 0.0 && s.revenuePerPatient == 0.0
    ensures d.patientLoad != 0.0 ==>
      s.costPerPatient * d.patientLoad == d.budget
      && s.revenuePerPatient * d.patientLoad == d.revenueGenerated
  {
    Scored(d,
      Efficiency(d.revenueGenerated, d.budget),
      Profitability(d.revenueGenerated, d.budget),
      PerPatient(d.budget, d.patientLoad),
      PerPatient(d.revenueGenerated, d.patientLoad))
  }

  /** The scored entry carries exactly its own department's figures. */
  predicate ScoredFaithfully(s: Scored)
  {
    s == Score(s.dept)
  }

  function ScoreAll(ds: seq<Department>): seq<Scored>
  {
    seq(|ds|, i requires 0 <= i < |ds| => Score(ds[i]))
  }

  /** The sort comparator `(a, b) => b.efficiency - a.efficiency`: negative
      when `a` must come first, zero when the order is left alone. */
  function Compare(a: Scored, b: Scored): real
  {
    b.efficiency - a.efficiency
  }

  /** Efficiency never increases along the sequence. */
  predicate SortedByEfficiency(xs: seq<Scored>)
  {
    forall i, j :: 0 <= i < j < |xs| ==> xs[i].efficiency >= xs[j].efficiency
  }

  /** The entries of `xs` whose efficiency is `k`, in their order in `xs`. A
      sort is stable when it leaves every such subsequence unchanged. */
  function Tied(xs: seq<Scored>, k: real): seq<Scored>
  {
    if |xs| == 0 then []
    else (if xs[0].efficiency == k then [xs[0]] else []) + Tied(xs[1..], k)
  }

  // ---------------------------------------------------------------------
  // Facts about tie subsequences
  // ---------------------------------------------------------------------

  lemma {:induction false} TiedAppend(a: seq<Scored>, b: seq<Scored>, k: real)
    ensures Tied(a + b, k) == Tied(a, k) + Tied(b, k)
  {
    if |a| == 0 {
      assert a + b == b;
    } else {
      var ab := a + b;
      assert ab[0] == a[0];
      assert ab[1..] == a[1..] + b;
      TiedAppend(a[1..], b, k);
      var h := if a[0].efficiency == k then [a[0]] else [];
      assert Tied(ab, k) == h + Tied(a[1..] + b, k);
      assert Tied(a, k) == h + Tied(a[1..], k);
    }
  }

  lemma {:induction false} TiedMembers(xs: seq<Scored>, k: real)
    ensures forall y :: y in Tied(xs, k) ==> y in xs && y.efficiency == k
  {
    if |xs| > 0 {
      TiedMembers(xs[1..], k);
    }
  }

  /** The first entry is tied with itself. */
  lemma TiedHead(xs: seq<Scored>)
    requires |xs| > 0
    ensures Tied(xs, xs[0].efficiency) != []
  {
  }

  /** No entry reaches efficiency `k`, so none is tied at `k`. */
  lemma {:induction false} TiedEmptyBelow(xs: seq<Scored>, k: real)
    requires forall i :: 0 <= i < |xs| ==> xs[i].efficiency < k
    ensures Tied(xs, k) == []
  {
    if |xs| > 0 {
      TiedEmptyBelow(xs[1..], k);
    }
  }

  // ---------------------------------------------------------------------
  // The stable sort
  // ---------------------------------------------------------------------

  /** Insert `x` into the sorted `s` after every entry the comparator does
      not place behind it: the entries of `s` are earlier in the input, so
      on a tie they stay in front. */
  function Insert(x: Scored, s: seq<Scored>): (r: seq<Scored>)
    requires SortedByEfficiency(s)
    ensures |r| == |s| + 1
    ensures multiset(r) == multiset(s) + multiset{x}
    ensures r[0] == x || (|s| > 0 && r[0] == s[0])
    ensures SortedByEfficiency(r)
  {
    if |s| == 0 then [x]
    else if Compare(s[0], x) <= 0.0 then
      var rest := Insert(x, s[1..]);
      assert s == [s[0]] + s[1..];
      assert rest[0].efficiency <= s[0].efficiency;
      PrependSorted(s[0], rest);
      [s[0]] + rest
    else
      PrependSorted(x, s);
      [x] + s
  }

  /** A sorted sequence stays sorted behind a head at least as efficient as
      its first entry. */
  lemma PrependSorted(y: Scored, r: seq<Scored>)
    requires SortedByEfficiency(r)
    requires |r| > 0 ==> r[0].efficiency <= y.efficiency
    ensures SortedByEfficiency([y] + r)
  {
    var t := [y] + r;
    forall i, j | 0 <= i < j < |t|
      ensures t[i].efficiency >= t[j].efficiency
    {
      if i == 0 {
        assert t[j] == r[j - 1];
        assert r[0].efficiency >= r[j - 1].efficiency;
      } else {
        assert t[i] == r[i - 1] && t[j] == r[j - 1];
      }
    }
  }

  /** Sort by efficiency, highest first, keeping ties in input order. */
  function SortByEfficiency(xs: seq<Scored>): (r: seq<Scored>)
    ensures |r| == |xs|
    ensures multiset(r) == multiset(xs)
    ensures SortedByEfficiency(r)
  {
    if |xs| == 0 then []
    else
      var init, last := xs[..|xs| - 1], xs[|xs| - 1];
      assert xs == init + [last];
      Insert(last, SortByEfficiency(init))
  }

  /** Inserting `x` in front of entries that are all less efficient adds it
      to the front of its tie subsequence, which was empty. */
  lemma InsertTiedInFront(x: Scored, s: seq<Scored>, k: real)
    requires SortedByEfficiency(s) && |s| > 0 && Compare(s[0], x) > 0.0
    ensures Tied(Insert(x, s), k) == if x.efficiency == k then Tied(s, k) + [x] else Tied(s, k)
  {
    assert Insert(x, s) == [x] + s;
    assert ([x] + s)[1..] == s;
    if x.efficiency == k {
      TiedEmptyBelow(s, k);
    }
  }

  /** Inserting `x` behind the first entry leaves that entry in front, so
      the tie subsequences grow as they do for the rest of `s`. */
  lemma InsertTiedBehind(x: Scored, s: seq<Scored>, k: real)
    requires SortedByEfficiency(s) && |s| > 0 && Compare(s[0], x) <= 0.0
    requires Tied(Insert(x, s[1..]), k) ==
      if x.efficiency == k then Tied(s[1..], k) + [x] else Tied(s[1..], k)
    ensures Tied(Insert(x, s), k) == if x.efficiency == k then Tied(s, k) + [x] else Tied(s, k)
  {
    var rest := Insert(x, s[1..]);
    assert Insert(x, s) == [s[0]] + rest;
    TiedCons(s[0], rest, k);
    assert s == [s[0]] + s[1..];
    TiedCons(s[0], s[1..], k);
    AppendAfter(if s[0].efficiency == k then [s[0]] else [], Tied(s[1..], k), Tied(rest, k), x, x.efficiency == k);
  }

  /** The tie subsequence of `[y] + r`. */
  lemma TiedCons(y: Scored, r: seq<Scored>, k: real)
    ensures Tied([y] + r, k) == (if y.efficiency == k then [y] else []) + Tied(r, k)
  {
    assert ([y] + r)[1..] == r;
  }

  /** Prefixing `h` commutes with appending `x` on a condition. */
  lemma AppendAfter(h: seq<Scored>, a: seq<Scored>, b: seq<Scored>, x: Scored, cond: bool)
    requires b == if cond then a + [x] else a
    ensures h + b == if cond then (h + a) + [x] else h + a
  {
    if cond {
      assert h + (a + [x]) == (h + a) + [x];
    }
  }

  /** Inserting `x` appends it to the entries tied with it. */
  lemma {:induction false} InsertTied(x: Scored, s: seq<Scored>, k: real)
    requires SortedByEfficiency(s)
    ensures Tied(Insert(x, s), k) == if x.efficiency == k then Tied(s, k) + [x] else Tied(s, k)
  {
    if |s| == 0 {
      assert Tied([x], k) == (if x.efficiency == k then [x] else []) + Tied([], k);
    } else if Compare(s[0], x) <= 0.0 {
      InsertTied(x, s[1..], k);
      InsertTiedBehind(x, s, k);
    } else {
      InsertTiedInFront(x, s, k);
    }
  }

  /** The sort is stable: every tie subsequence is the input's. */
  lemma {:induction false} SortKeepsTies(xs: seq<Scored>, k: real)
    ensures Tied(SortByEfficiency(xs), k) == Tied(xs, k)
  {
    if |xs| > 0 {
      var init, last := xs[..|xs| - 1], xs[|xs| - 1];
      assert xs == init + [last];
      SortKeepsTies(init, k);
      InsertTied(last, SortByEfficiency(init), k);
      TiedAppend(init, [last], k);
      assert Tied([last], k) == (if last.efficiency == k then [last] else []) + Tied([], k);
    }
  }

  /** Two sequences sorted by efficiency with the same tie subsequences are
      equal: sortedness and stability pin down the order completely. */
  lemma {:induction false} StableSortIsUnique(a: seq<Scored>, b: seq<Scored>)
    requires SortedByEfficiency(a) && SortedByEfficiency(b)
    requires forall k :: Tied(a, k) == Tied(b, k)
    ensures a == b
  {
    if |a| == 0 || |b| == 0 {
      // the first entry of a non-empty one would be tied with nothing
      if |a| > 0 {
        TiedHead(a);
        assert false;
      } else if |b| > 0 {
        TiedHead(b);
        assert false;
      }
    } else {
      var ka, kb := a[0].efficiency, b[0].efficiency;
      TiedMembers(a, kb);
      TiedMembers(b, ka);
      assert Tied(a, ka) == [a[0]] + Tied(a[1..], ka);
      assert a[0] in Tied(b, ka);
      assert Tied(b, kb) == [b[0]] + Tied(b[1..], kb);
      assert b[0] in Tied(a, kb);
      assert ka == kb;
      assert Tied(b, ka) == [b[0]] + Tied(b[1..], ka);
      assert a[0] == Tied(a, ka)[0] == Tied(b, ka)[0] == b[0];
      forall k
        ensures Tied(a[1..], k) == Tied(b[1..], k)
      {
        var h := if ka == k then [a[0]] else [];
        assert Tied(a, k) == h + Tied(a[1..], k);
        assert Tied(b, k) == h + Tied(b[1..], k);
        assert Tied(a[1..], k) == Tied(a, k)[|h|..];
        assert Tied(b[1..], k) == Tied(b, k)[|h|..];
      }
      StableSortIsUnique(a[1..], b[1..]);
      assert a == [a[0]] + a[1..];
      assert b == [b[0]] + b[1..];
    }
  }

  /** Any result of a stable descending sort of `xs` is the model's. */
  lemma StableSortAgrees(xs: seq<Scored>, ys: seq<Scored>)
    requires SortedByEfficiency(ys)
    requires forall k :: Tied(ys, k) == Tied(xs, k)
    ensures ys == SortByEfficiency(xs)
  {
    forall k
      ensures Tied(ys, k) == Tied(SortByEfficiency(xs), k)
    {
      SortKeepsTies(xs, k);
    }
    StableSortIsUnique(ys, SortByEfficiency(xs));
  }

  /** Sorting an already sorted list changes nothing. */
  lemma SortIdempotent(xs: seq<Scored>)
    ensures SortByEfficiency(SortByEfficiency(xs)) == SortByEfficiency(xs)
  {
    StableSortAgrees(SortByEfficiency(xs), SortByEfficiency(xs));
  }

  // ---------------------------------------------------------------------
  // The ranking
  // ---------------------------------------------------------------------

  /** The scored entries of a ranking, rank dropped. */
  function Entries(r: seq<RankedDepartment>): seq<Scored>
  {
    seq(|r|, i requires 0 <= i < |r| => r[i].entry)
  }

  /** Every entry of a permutation of scored departments is scored
      faithfully. */
  lemma PermutationKeepsScores(ds: seq<Department>, xs: seq<Scored>)
    requires multiset(xs) == multiset(ScoreAll(ds))
    ensures forall i :: 0 <= i < |xs| ==> ScoredFaithfully(xs[i])
  {
    forall i | 0 <= i < |xs|
      ensures ScoredFaithfully(xs[i])
    {
      assert xs[i] in multiset(xs);
      assert xs[i] in ScoreAll(ds);
      var j :| 0 <= j < |ds| && ScoreAll(ds)[j] == xs[i];
    }
  }

  /** calculateDepartmentRankings. */
  function DepartmentRankings(ds: seq<Department>): (r: seq<RankedDepartment>)
    ensures |r| == |ds|
    ensures forall i :: 0 <= i < |r| ==> r[i].rank == i + 1
    ensures forall i :: 0 <= i < |r| ==> ScoredFaithfully(r[i].entry)
    ensures forall i, j :: 0 <= i < j < |r| ==> r[i].entry.efficiency >= r[j].entry.efficiency
    ensures multiset(Entries(r)) == multiset(ScoreAll(ds))
    ensures forall k :: Tied(Entries(r), k) == Tied(ScoreAll(ds), k)
  {
    var scored := ScoreAll(ds);
    var sorted := SortByEfficiency(scored);
    PermutationKeepsScores(ds, sorted);
    var r := seq(|sorted|, i requires 0 <= i < |sorted| => RankedDepartment(sorted[i], i + 1));
    assert Entries(r) == sorted;
    assert forall k :: Tied(Entries(r), k) == Tied(scored, k) by {
      forall k
        ensures Tied(sorted, k) == Tied(scored, k)
      {
        SortKeepsTies(scored, k);
      }
    }
    r
  }
}
