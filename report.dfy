/** What `printStats` computes before printing it: the months in key order,
    one block per month (the authors who have that month, ranked by
    insertions, and the month's subtotals), the ranking of authors by their
    insertions over all months, and the grand total. */
module Report {
  import opened Options
  import opened Sums
  import opened Stats
  import opened Text

  /** An author and an insertion count: `authorStats` and `kv` in printStats. */
  datatype AuthorTotal = AuthorTotal(author: string, insertions: nat)

  /** The block printed for one month. */
  datatype MonthBlock = MonthBlock(month: string, authors: seq<AuthorTotal>, insertions: nat, deletions: nat)

  /** Everything printStats prints, before formatting. */
  datatype Summary = Summary(months: seq<MonthBlock>, ranking: seq<AuthorTotal>, grandTotal: nat)

  predicate StrictlySorted(s: seq<string>) {
    forall i, j :: 0 <= i < j < |s| ==> LexLess(s[i], s[j])
  }

  predicate NonIncreasing(r: seq<AuthorTotal>) {
    forall i, j :: 0 <= i < j < |r| ==> r[i].insertions >= r[j].insertions
  }

  function AuthorsOf(r: seq<AuthorTotal>): (s: seq<string>)
    ensures |s| == |r| && forall i :: 0 <= i < |r| ==> s[i] == r[i].author
  {
    seq(|r|, i requires 0 <= i < |r| => r[i].author)
  }

  /** `r` holds every entry of `m` exactly once, in some order: a
      permutation of the map's (author, count) pairs. */
  ghost predicate ListsEntries(r: seq<AuthorTotal>, m: map<string, nat>) {
    && (forall i :: 0 <= i < |r| ==> r[i].author in m && r[i].insertions == m[r[i].author])
    && (forall i, j :: 0 <= i < j < |r| ==> r[i].author != r[j].author)
    && (forall a :: a in m ==> a in AuthorsOf(r))
  }

  /** The authors who have month `m`, each with that month's cell. */
  function Column(t: Table, m: string): Row {
    map a | a in t && m in t[a] :: t[a][m]
  }

  /** Some author has month `m`. */
  ghost predicate HasMonth(t: Table, m: string) {
    exists a :: a in t && m in t[a]
  }

  function MonthsOf(blocks: seq<MonthBlock>): (s: seq<string>)
    ensures |s| == |blocks| && forall i :: 0 <= i < |blocks| ==> s[i] == blocks[i].month
  {
    seq(|blocks|, i requires 0 <= i < |blocks| => blocks[i].month)
  }

  /** `sort.Strings` applied to the distinct strings of `s`: ascending, no
      repeats, nothing lost or added. */
  method SortStrings(s: set<string>) returns (r: seq<string>)
    ensures StrictlySorted(r)
    ensures forall x :: x in r <==> x in s
  {
    r := [];
    var rest := s;
    while rest != {}
      invariant rest <= s
      invariant StrictlySorted(r)
      invariant forall x :: x in r <==> x in s - rest
    {
      var x :| x in rest;
      var k := 0;
      while k < |r| && LexLess(r[k], x)
        invariant 0 <= k <= |r|
        invariant forall j :: 0 <= j < k ==> LexLess(r[j], x)
      {
        k := k + 1;
      }
      InsertSorted(r, k, x);
      InsertMembers(r, k, x);
      r := r[..k] + [x] + r[k..];
      rest := rest - {x};
    }
  }

  lemma InsertMembers<T>(r: seq<T>, k: nat, x: T)
    requires k <= |r|
    ensures forall y :: y in r[..k] + [x] + r[k..] <==> y in r || y == x
  {
    assert r == r[..k] + r[k..];
  }

  /** Inserting `x` after exactly the elements less than it keeps a strictly
      sorted list strictly sorted. */
  lemma InsertSorted(r: seq<string>, k: nat, x: string)
    requires StrictlySorted(r) && x !in r && k <= |r|
    requires forall j :: 0 <= j < k ==> LexLess(r[j], x)
    requires k == |r| || !LexLess(r[k], x)
    ensures StrictlySorted(r[..k] + [x] + r[k..])
  {
    var r' := r[..k] + [x] + r[k..];
    if k < |r| {
      LexLessTotal(r[k], x);
    }
    forall j | k < j < |r|
      ensures LexLess(x, r[j])
    {
      LexLessTransitive(x, r[k], r[j]);
    }
    forall i, j | 0 <= i < j < |r'|
      ensures LexLess(r'[i], r'[j])
    {
      if i < k && j == k {
      } else if i < k && j > k {
        assert r'[j] == r[j - 1];
        if j - 1 > k {
          LexLessTransitive(r[i], r[k], r[j - 1]);
        }
      } else if i == k {
        assert r'[j] == r[j - 1];
      } else if i > k {
        assert r'[i] == r[i - 1] && r'[j] == r[j - 1];
      }
    }
  }

  /** `uniqueMonths` and `sort.Strings(monthsOrdered)`: every month key of
      any author, once each, in ascending string order. */
  method OrderedMonths(t: Table) returns (months: seq<string>)
    ensures StrictlySorted(months)
    ensures forall m :: m in months <==> HasMonth(t, m)
  {
    var unique: set<string> := {};
    var authors := t.Keys;
    while authors != {}
      invariant authors <= t.Keys
      invariant forall m :: m in unique <==> exists a :: a in t && a !in authors && m in t[a]
    {
      var a :| a in authors;
      var pending := t[a].Keys;
      while pending != {}
        invariant pending <= t[a].Keys
        invariant forall m :: m in unique <==>
          (exists b :: b in t && b !in authors && m in t[b]) || (m in t[a] && m !in pending)
      {
        var m :| m in pending;
        unique := unique + {m};
        pending := pending - {m};
      }
      authors := authors - {a};
    }
    months := SortStrings(unique);
  }

  /** The sum of the insertions of a list. */
  function SumInsertions(r: seq<AuthorTotal>): nat {
    if r == [] then 0 else r[0].insertions + SumInsertions(r[1..])
  }

  /** Dropping the first entry of a list leaves the entries of the rest of the map. */
  lemma ListsEntriesTail(r: seq<AuthorTotal>, m: map<string, nat>)
    requires ListsEntries(r, m) && r != []
    ensures ListsEntries(r[1..], m - {r[0].author})
  {
    var tail := r[1..];
    var rest := m - {r[0].author};
    forall i | 0 <= i < |tail|
      ensures tail[i].author in rest && tail[i].insertions == rest[tail[i].author]
    {
      assert tail[i] == r[i + 1];
      assert tail[i].author != r[0].author;
    }
    forall i, j | 0 <= i < j < |tail|
      ensures tail[i].author != tail[j].author
    {
      assert tail[i] == r[i + 1] && tail[j] == r[j + 1];
    }
    forall b | b in rest
      ensures b in AuthorsOf(tail)
    {
      assert b in m && b != r[0].author;
      var i :| 0 <= i < |r| && AuthorsOf(r)[i] == b;
      assert AuthorsOf(tail)[i - 1] == b;
    }
  }

  /** A list holding a map's entries sums to the map's sum. */
  lemma {:induction false} ListsEntriesSum(r: seq<AuthorTotal>, m: map<string, nat>)
    requires ListsEntries(r, m)
    ensures SumInsertions(r) == SumMap(m)
    decreases |r|
  {
    if r == [] {
      assert m.Keys == {};
    } else {
      ListsEntriesTail(r, m);
      ListsEntriesSum(r[1..], m - {r[0].author});
      SumMapRemove(m, r[0].author);
    }
  }

  /** `r'` is `r` with `x` inserted at position `k`, element by element. */
  ghost predicate InsertedAt(r: seq<AuthorTotal>, r': seq<AuthorTotal>, k: nat, x: AuthorTotal) {
    && k <= |r| && |r'| == |r| + 1 && r'[k] == x
    && (forall i :: 0 <= i < k ==> r'[i] == r[i])
    && (forall i :: k < i < |r'| ==> r'[i] == r[i - 1])
  }

  /** Splicing `x` in at position `k` inserts it there. */
  lemma InsertIndex(r: seq<AuthorTotal>, k: nat, x: AuthorTotal)
    requires k <= |r|
    ensures InsertedAt(r, r[..k] + [x] + r[k..], k, x)
  {
  }

  /** The inserted list pairs every author with its count in `m[a := v]`. */
  lemma InsertValues(r: seq<AuthorTotal>, r': seq<AuthorTotal>, k: nat, m: map<string, nat>, a: string, v: nat)
    requires InsertedAt(r, r', k, AuthorTotal(a, v))
    requires forall i :: 0 <= i < |r| ==> r[i].author in m && r[i].insertions == m[r[i].author]
    requires a !in m
    ensures forall i :: 0 <= i < |r'| ==> r'[i].author in m[a := v] && r'[i].insertions == m[a := v][r'[i].author]
  {
    forall i | 0 <= i < |r'|
      ensures r'[i].author in m[a := v] && r'[i].insertions == m[a := v][r'[i].author]
    {
      if i < k {
        assert r'[i] == r[i];
      } else if i > k {
        assert r'[i] == r[i - 1];
      }
    }
  }

  /** Inserting an author absent from the list keeps its authors distinct. */
  lemma InsertDistinct(r: seq<AuthorTotal>, r': seq<AuthorTotal>, k: nat, x: AuthorTotal)
    requires InsertedAt(r, r', k, x)
    requires forall i, j :: 0 <= i < j < |r| ==> r[i].author != r[j].author
    requires forall i :: 0 <= i < |r| ==> r[i].author != x.author
    ensures forall i, j :: 0 <= i < j < |r'| ==> r'[i].author != r'[j].author
  {
    forall i, j | 0 <= i < j < |r'|
      ensures r'[i].author != r'[j].author
    {
      var i0 := if i < k then i else i - 1;
      var j0 := if j < k then j else j - 1;
      if i != k && j != k {
        assert r'[i] == r[i0] && r'[j] == r[j0] && i0 < j0;
      } else if i == k {
        assert r'[j] == r[j0];
      } else {
        assert r'[i] == r[i0];
      }
    }
  }

  /** Every author of `r`, and `x`'s author, is an author of the inserted list. */
  lemma InsertCovers(r: seq<AuthorTotal>, r': seq<AuthorTotal>, k: nat, x: AuthorTotal, b: string)
    requires InsertedAt(r, r', k, x)
    requires b == x.author || b in AuthorsOf(r)
    ensures b in AuthorsOf(r')
  {
    if b == x.author {
      assert AuthorsOf(r')[k] == b;
    } else {
      var i :| 0 <= i < |r| && AuthorsOf(r)[i] == b;
      var i' := if i < k then i else i + 1;
      assert r'[i'] == r[i];
      assert AuthorsOf(r')[i'] == b;
    }
  }

  /** Inserting a new entry keeps a list holding the entries of `m`. */
  lemma InsertEntry(r: seq<AuthorTotal>, k: nat, m: map<string, nat>, a: string, v: nat)
    requires ListsEntries(r, m) && a !in m && k <= |r|
    ensures ListsEntries(r[..k] + [AuthorTotal(a, v)] + r[k..], m[a := v])
  {
    var x := AuthorTotal(a, v);
    var r' := r[..k] + [x] + r[k..];
    InsertIndex(r, k, x);
    InsertValues(r, r', k, m, a, v);
    InsertDistinct(r, r', k, x);
    forall b | b in m[a := v]
      ensures b in AuthorsOf(r')
    {
      InsertCovers(r, r', k, x, b);
    }
  }

  /** One step of the ranking loop: inserting the next entry after all
      entries with at least its count keeps the ranking complete for the
      entries seen so far, and non-increasing. */
  lemma RankStep(m: map<string, nat>, rest: set<string>, r: seq<AuthorTotal>, k: nat, a: string)
    requires rest <= m.Keys && a in rest && k <= |r|
    requires ListsEntries(r, Restrict(m, m.Keys - rest)) && NonIncreasing(r)
    requires forall j :: 0 <= j < k ==> r[j].insertions >= m[a]
    requires k == |r| || r[k].insertions < m[a]
    ensures ListsEntries(r[..k] + [AuthorTotal(a, m[a])] + r[k..], Restrict(m, m.Keys - (rest - {a})))
    ensures NonIncreasing(r[..k] + [AuthorTotal(a, m[a])] + r[k..])
  {
    var done := m.Keys - rest;
    assert m.Keys - (rest - {a}) == done + {a};
    RestrictAdd(m, done, a);
    InsertEntry(r, k, Restrict(m, done), a, m[a]);
    InsertRanked(r, k, AuthorTotal(a, m[a]));
  }

  /** Inserting an entry after exactly the entries with at least its count
      keeps a ranking non-increasing. */
  lemma InsertRanked(r: seq<AuthorTotal>, k: nat, x: AuthorTotal)
    requires k <= |r| && NonIncreasing(r)
    requires forall j :: 0 <= j < k ==> r[j].insertions >= x.insertions
    requires k == |r| || r[k].insertions < x.insertions
    ensures NonIncreasing(r[..k] + [x] + r[k..])
  {
    var r' := r[..k] + [x] + r[k..];
    forall i, j | 0 <= i < j < |r'|
      ensures r'[i].insertions >= r'[j].insertions
    {
      if i < k && j > k {
        assert r'[j] == r[j - 1];
      } else if i == k && j > k {
        assert r'[j] == r[j - 1];
      } else if i > k {
        assert r'[i] == r[i - 1] && r'[j] == r[j - 1];
      }
    }
  }

  /** `sort.Slice(..., Insertions[i] > Insertions[j])` over the entries of
      `m`: every entry once, by non-increasing insertions (the order among
      equal counts is left open, as the library leaves it). */
  method RankByInsertions(m: map<string, nat>) returns (r: seq<AuthorTotal>)
    ensures ListsEntries(r, m)
    ensures NonIncreasing(r)
  {
    r := [];
    var rest := m.Keys;
    while rest != {}
      invariant rest <= m.Keys
      invariant ListsEntries(r, Restrict(m, m.Keys - rest))
      invariant NonIncreasing(r)
    {
      var a :| a in rest;
      var v := m[a];
      var k := 0;
      while k < |r| && r[k].insertions >= v
        invariant 0 <= k <= |r|
        invariant forall j :: 0 <= j < k ==> r[j].insertions >= v
      {
        k := k + 1;
      }
      RankStep(m, rest, r, k, a);
      r := r[..k] + [AuthorTotal(a, v)] + r[k..];
      rest := rest - {a};
    }
    assert Restrict(m, m.Keys - rest) == m;
  }

  /** The block for `month`: its authors are exactly those who have that
      month, ranked by their insertions in it, and the subtotals are the sums
      of that month's cells. */
  ghost predicate IsMonthBlock(t: Table, b: MonthBlock) {
    && ListsEntries(b.authors, InsertionsOf(Column(t, b.month)))
    && NonIncreasing(b.authors)
    && b.insertions == RowInsertions(Column(t, b.month))
    && b.deletions == RowDeletions(Column(t, b.month))
  }

  /** Visiting one more author adds that author's cell for `month` to the
      column, when the author has that month. */
  lemma ColumnStep(t: Table, authors: set<string>, a: string, month: string)
    requires authors <= t.Keys && a in authors
    ensures var before := Column(Restrict(t, t.Keys - authors), month);
      && a !in before
      && Column(Restrict(t, t.Keys - (authors - {a})), month)
         == (if month in t[a] then before[a := t[a][month]] else before)
      && (month in t[a] ==> Bump(before, a, t[a][month]) == before[a := t[a][month]])
  {
  }

  /** One iteration of printStats' month loop. */
  method SummarizeMonth(t: Table, month: string) returns (b: MonthBlock)
    ensures b.month == month
    ensures IsMonthBlock(t, b)
  {
    var column: Row := map[];
    var totalInsertions, totalDeletions := 0, 0;
    var authors := t.Keys;
    while authors != {}
      invariant authors <= t.Keys
      invariant column == Column(Restrict(t, t.Keys - authors), month)
      invariant totalInsertions == RowInsertions(column)
      invariant totalDeletions == RowDeletions(column)
    {
      var a :| a in authors;
      if month in t[a] {
        var stats := t[a][month];
        ColumnStep(t, authors, a, month);
        BumpTotals(column, a, stats);
        column := column[a := stats];
        totalInsertions := totalInsertions + stats.insertions;
        totalDeletions := totalDeletions + stats.deletions;
      } else {
        ColumnStep(t, authors, a, month);
      }
      authors := authors - {a};
    }
    assert Restrict(t, t.Keys - authors) == t;
    var ranked := RankByInsertions(InsertionsOf(column));
    b := MonthBlock(month, ranked, totalInsertions, totalDeletions);
  }

  /** Visiting one more month of a row adds its insertions to the running
      sum of the months visited. */
  lemma RowStep(row: Row, pending: set<string>, m: string, sofar: nat, started: bool)
    requires pending <= row.Keys && m in pending
    requires started <==> pending != row.Keys
    requires started ==> sofar == RowInsertions(Restrict(row, row.Keys - pending))
    requires !started ==> sofar == 0
    ensures sofar + row[m].insertions == RowInsertions(Restrict(row, row.Keys - (pending - {m})))
  {
    var before := Restrict(row, row.Keys - pending);
    if !started {
      assert before == map[];
      EmptyRowTotals(before);
    }
    BumpTotals(before, m, row[m]);
    assert Bump(before, m, row[m]) == Restrict(row, row.Keys - (pending - {m}));
  }

  /** The loop filling `authorInsertions`: each author's insertions summed
      over that author's months.  An author whose month map is empty never
      gets an entry, as in Go. */
  method AuthorTotals(t: Table) returns (totals: map<string, nat>)
    ensures forall a :: a in totals <==> a in t && t[a] != map[]
    ensures forall a :: a in totals ==> totals[a] == RowInsertions(t[a])
  {
    totals := map[];
    var authors := t.Keys;
    while authors != {}
      invariant authors <= t.Keys
      invariant forall a :: a in totals <==> a in t && a !in authors && t[a] != map[]
      invariant forall a :: a in totals ==> totals[a] == RowInsertions(t[a])
    {
      var a :| a in authors;
      var row := t[a];
      var pending := row.Keys;
      while pending != {}
        invariant pending <= row.Keys
        invariant forall b :: b in totals && b != a <==> b in t && b !in authors && t[b] != map[]
        invariant forall b :: b in totals && b != a ==> totals[b] == RowInsertions(t[b])
        invariant a in totals <==> pending != row.Keys
        invariant a in totals ==> totals[a] == RowInsertions(Restrict(row, row.Keys - pending))
      {
        var m :| m in pending;
        var sofar := if a in totals then totals[a] else 0;
        RowStep(row, pending, m, sofar, a in totals);
        totals := totals[a := sofar + row[m].insertions];
        pending := pending - {m};
      }
      assert Restrict(row, row.Keys - pending) == row;
      authors := authors - {a};
    }
  }

  /** All a summary promises about the table it summarises. */
  ghost predicate IsSummaryOf(t: Table, totalInsertions: nat, s: Summary) {
    && StrictlySorted(MonthsOf(s.months))
    && (forall m :: m in MonthsOf(s.months) <==> HasMonth(t, m))
    && (forall i :: 0 <= i < |s.months| ==> IsMonthBlock(t, s.months[i]))
    && NonIncreasing(s.ranking)
    && (forall a :: a in AuthorsOf(s.ranking) <==> a in t && t[a] != map[])
    && (forall i :: 0 <= i < |s.ranking| ==> s.ranking[i].insertions == RowInsertions(t[s.ranking[i].author]))
    && (forall i, j :: 0 <= i < j < |s.ranking| ==> s.ranking[i].author != s.ranking[j].author)
    && s.grandTotal == totalInsertions
  }

  /** When no row is empty (as in every table `processDir` builds), the
      ranking holds every author with that author's total, so its counts add
      up to the sum of the whole table. */
  lemma RankingCoversTable(t: Table, totalInsertions: nat, s: Summary)
    requires IsSummaryOf(t, totalInsertions, s) && NoEmptyRows(t)
    ensures ListsEntries(s.ranking, InsertionsByAuthor(t))
    ensures SumInsertions(s.ranking) == TableInsertions(t)
  {
    ListsEntriesSum(s.ranking, InsertionsByAuthor(t));
  }

  /** printStats without the printing: nothing for an empty table; otherwise
      the month blocks in ascending key order, the author ranking and the
      grand total, which printStats takes from the running total. */
  method Summarize(t: Table, totalInsertions: nat) returns (s: Option<Summary>)
    ensures s.None? <==> t == map[]
    ensures s.Some? ==> IsSummaryOf(t, totalInsertions, s.value)
  {
    if |t| == 0 {
      return None;
    }
    var months := OrderedMonths(t);
    var blocks: seq<MonthBlock> := [];
    var i := 0;
    while i < |months|
      invariant 0 <= i <= |months|
      invariant MonthsOf(blocks) == months[..i]
      invariant forall j :: 0 <= j < i ==> IsMonthBlock(t, blocks[j])
    {
      var b := SummarizeMonth(t, months[i]);
      blocks := blocks + [b];
      i := i + 1;
    }
    assert months[..i] == months;
    var totals := AuthorTotals(t);
    var ranking := RankByInsertions(totals);
    s := Some(Summary(blocks, ranking, totalInsertions));
    forall a
      ensures a in AuthorsOf(ranking) <==> a in t && t[a] != map[]
    {
      if a in AuthorsOf(ranking) {
        var k :| 0 <= k < |ranking| && AuthorsOf(ranking)[k] == a;
      }
    }
  }
}
