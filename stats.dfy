/** The aggregate kept by main.go: change counts per author and month, and the
    fold of one scan's per-author counts into it. */
module Stats {
  import opened Sums

  /** Line churn of one author in one month, or in one scan. */
  datatype ChangesStats = ChangesStats(insertions: nat, deletions: nat) {
    function Plus(c: ChangesStats): ChangesStats {
      ChangesStats(insertions + c.insertions, deletions + c.deletions)
    }
  }

  /** Go's zero value of `ChangesStats` (and of `[2]int`). */
  const Zero: ChangesStats := ChangesStats(0, 0)

  /** A map to counts: month key to counts in a table row, author to counts in
      the per-scan map of `processDir` (Go's `map[string][2]int` there). */
  type Row = map<string, ChangesStats>

  /** `GlobalStats.Stats`: author, then month key, to counts. */
  type Table = map<string, Row>

  /** Go's lookup `m[k]`, which yields the zero value for a missing key. */
  function Get(r: Row, k: string): ChangesStats {
    if k in r then r[k] else Zero
  }

  /** The row of author `a`, empty when the author has none yet. */
  function RowOf(t: Table, a: string): Row {
    if a in t then t[a] else map[]
  }

  /** `v := m[k]; v += c; m[k] = v`: adds `c` into one entry, starting a
      missing entry at zero. */
  function Bump(r: Row, k: string, c: ChangesStats): Row {
    r[k := Get(r, k).Plus(c)]
  }

  function InsertionsOf(r: Row): map<string, nat> {
    map k | k in r :: r[k].insertions
  }

  function DeletionsOf(r: Row): map<string, nat> {
    map k | k in r :: r[k].deletions
  }

  ghost function RowInsertions(r: Row): nat {
    SumMap(InsertionsOf(r))
  }

  ghost function RowDeletions(r: Row): nat {
    SumMap(DeletionsOf(r))
  }

  /** Author to the sum of `Insertions` over that author's cells. */
  ghost function InsertionsByAuthor(t: Table): map<string, nat> {
    map a | a in t :: RowInsertions(t[a])
  }

  /** Author to the sum of `Deletions` over that author's cells. */
  ghost function DeletionsByAuthor(t: Table): map<string, nat> {
    map a | a in t :: RowDeletions(t[a])
  }

  /** Sum of `Insertions` over every cell of the table. */
  ghost function TableInsertions(t: Table): nat {
    SumMap(InsertionsByAuthor(t))
  }

  /** Sum of `Deletions` over every cell of the table. */
  ghost function TableDeletions(t: Table): nat {
    SumMap(DeletionsByAuthor(t))
  }

  /** The entries of `m` whose keys are in `ks`. */
  function Restrict<V>(m: map<string, V>, ks: set<string>): map<string, V> {
    map k | k in m && k in ks :: m[k]
  }

  lemma RestrictAdd<V>(m: map<string, V>, ks: set<string>, k: string)
    requires k in m
    ensures Restrict(m, ks + {k}) == Restrict(m, ks)[k := m[k]]
  {
  }

  /** One step of the fold loop: adds `c` into the cell `t[a][m]`, creating the
      author's row and the cell at zero when they are missing. */
  function AddCell(t: Table, a: string, m: string, c: ChangesStats): Table {
    t[a := Bump(RowOf(t, a), m, c)]
  }

  /** The whole fold loop: every author of the scan gets its counts added into
      its cell for month key `m`; authors outside the scan keep their rows. */
  function FoldScan(t: Table, scan: Row, m: string): Table {
    map a | a in t.Keys + scan.Keys :: if a in scan then Bump(RowOf(t, a), m, scan[a]) else t[a]
  }

  /** Bumping one entry raises the row's sums by exactly the bumped amounts. */
  lemma BumpTotals(r: Row, k: string, c: ChangesStats)
    ensures RowInsertions(Bump(r, k, c)) == RowInsertions(r) + c.insertions
    ensures RowDeletions(Bump(r, k, c)) == RowDeletions(r) + c.deletions
  {
    var v := Get(r, k).Plus(c);
    assert InsertionsOf(Bump(r, k, c)) == InsertionsOf(r)[k := v.insertions];
    assert DeletionsOf(Bump(r, k, c)) == DeletionsOf(r)[k := v.deletions];
    SumMapUpdate(InsertionsOf(r), k, v.insertions);
    SumMapUpdate(DeletionsOf(r), k, v.deletions);
  }

  lemma EmptyRowTotals(r: Row)
    requires r == map[]
    ensures RowInsertions(r) == 0 && RowDeletions(r) == 0
  {
    assert InsertionsOf(r) == map[];
    assert DeletionsOf(r) == map[];
  }

  /** Replacing one author's row replaces that author's sums and nothing else. */
  lemma ByAuthorUpdate(t: Table, a: string, row: Row)
    ensures InsertionsByAuthor(t[a := row]) == InsertionsByAuthor(t)[a := RowInsertions(row)]
    ensures DeletionsByAuthor(t[a := row]) == DeletionsByAuthor(t)[a := RowDeletions(row)]
  {
  }

  /** Adding into one cell raises the table's sums by exactly the added amounts. */
  lemma AddCellTotals(t: Table, a: string, m: string, c: ChangesStats)
    ensures TableInsertions(AddCell(t, a, m, c)) == TableInsertions(t) + c.insertions
    ensures TableDeletions(AddCell(t, a, m, c)) == TableDeletions(t) + c.deletions
  {
    var new_row := Bump(RowOf(t, a), m, c);
    BumpTotals(RowOf(t, a), m, c);
    if a !in t {
      EmptyRowTotals(RowOf(t, a));
    }
    ByAuthorUpdate(t, a, new_row);
    SumMapUpdate(InsertionsByAuthor(t), a, RowInsertions(new_row));
    SumMapUpdate(DeletionsByAuthor(t), a, RowDeletions(new_row));
  }

  /** The row a fold leaves for one author. */
  lemma FoldScanRow(t: Table, scan: Row, m: string, a: string)
    ensures a in FoldScan(t, scan, m) <==> a in t || a in scan
    ensures RowOf(FoldScan(t, scan, m), a)
         == if a in scan then Bump(RowOf(t, a), m, scan[a]) else RowOf(t, a)
  {
  }

  /** Folding a scan is folding all of it but one author, then that author's cell. */
  lemma FoldScanPeel(t: Table, scan: Row, m: string, a: string)
    requires a in scan
    ensures FoldScan(t, scan, m) == AddCell(FoldScan(t, scan - {a}, m), a, m, scan[a])
  {
    var rest := FoldScan(t, scan - {a}, m);
    FoldScanRow(t, scan - {a}, m, a);
    var l := FoldScan(t, scan, m);
    var r := AddCell(rest, a, m, scan[a]);
    assert l.Keys == r.Keys;
    forall x | x in l
      ensures l[x] == r[x]
    {
      if x != a {
        FoldScanRow(t, scan - {a}, m, x);
      }
    }
  }

  /** Folding an empty scan changes nothing. */
  lemma FoldScanEmpty(t: Table, m: string)
    ensures FoldScan(t, map[], m) == t
  {
    assert FoldScan(t, map[], m).Keys == t.Keys;
  }

  /** Folding a scan raises the table's sums by the scan's sums: the running
      totals, bumped by every parsed count, therefore stay equal to the sums
      over all cells. */
  lemma {:induction false} FoldScanTotals(t: Table, scan: Row, m: string)
    ensures TableInsertions(FoldScan(t, scan, m)) == TableInsertions(t) + RowInsertions(scan)
    ensures TableDeletions(FoldScan(t, scan, m)) == TableDeletions(t) + RowDeletions(scan)
    decreases |scan|
  {
    if scan == map[] {
      FoldScanEmpty(t, m);
      EmptyRowTotals(scan);
    } else {
      var a :| a in scan;
      var rest := scan - {a};
      assert rest.Keys == scan.Keys - {a};
      FoldScanPeel(t, scan, m, a);
      FoldScanTotals(t, rest, m);
      AddCellTotals(FoldScan(t, rest, m), a, m, scan[a]);
      RemoveFromScan(scan, a);
    }
  }

  /** Taking one author out of a scan takes its counts out of the scan's sums. */
  lemma RemoveFromScan(scan: Row, a: string)
    requires a in scan
    ensures RowInsertions(scan) == scan[a].insertions + RowInsertions(scan - {a})
    ensures RowDeletions(scan) == scan[a].deletions + RowDeletions(scan - {a})
  {
    assert InsertionsOf(scan) - {a} == InsertionsOf(scan - {a});
    assert DeletionsOf(scan) - {a} == DeletionsOf(scan - {a});
    SumMapRemove(InsertionsOf(scan), a);
    SumMapRemove(DeletionsOf(scan), a);
  }

  /** What a fold changes: each scanned author's cell for month `m` receives
      that author's counts (starting from zero when missing); every other cell
      keeps its value, and no cell disappears. */
  lemma FoldScanCells(t: Table, scan: Row, m: string)
    ensures var r := FoldScan(t, scan, m);
      && r.Keys == t.Keys + scan.Keys
      && (forall a :: a in scan ==> m in r[a] && r[a][m] == Get(RowOf(t, a), m).Plus(scan[a]))
      && (forall a :: a in r ==> r[a].Keys == RowOf(t, a).Keys + (if a in scan then {m} else {}))
      && (forall a, k :: a in r && k in r[a] && !(a in scan && k == m) ==> r[a][k] == t[a][k])
  {
  }

  /** Every author in the table has at least one month: rows are created
      only to receive a cell. */
  ghost predicate NoEmptyRows(t: Table) {
    forall a :: a in t ==> t[a] != map[]
  }

  /** A fold never leaves an empty row behind. */
  lemma FoldScanNoEmptyRows(t: Table, scan: Row, m: string)
    requires NoEmptyRows(t)
    ensures NoEmptyRows(FoldScan(t, scan, m))
  {
    FoldScanCells(t, scan, m);
  }

  /** Two bumps of a row can be applied in either order. */
  lemma BumpCommute(r: Row, k1: string, c1: ChangesStats, k2: string, c2: ChangesStats)
    ensures Bump(Bump(r, k1, c1), k2, c2) == Bump(Bump(r, k2, c2), k1, c1)
  {
    var x1 := Get(r, k1).Plus(c1);
    if k1 == k2 {
      assert Get(r[k1 := x1], k1).Plus(c2) == Get(r[k2 := Get(r, k2).Plus(c2)], k1).Plus(c1);
    } else {
      var x2 := Get(r, k2).Plus(c2);
      assert Get(r[k1 := x1], k2) == Get(r, k2);
      assert Get(r[k2 := x2], k1) == Get(r, k1);
      assert r[k1 := x1][k2 := x2] == r[k2 := x2][k1 := x1];
    }
  }

  /** Folding two scans gives the same row for every author in either order. */
  lemma FoldScanCommuteRow(t: Table, s1: Row, m1: string, s2: Row, m2: string, a: string)
    ensures var l := FoldScan(FoldScan(t, s1, m1), s2, m2);
            var r := FoldScan(FoldScan(t, s2, m2), s1, m1);
            (a in l <==> a in r) && RowOf(l, a) == RowOf(r, a)
  {
    var t1 := FoldScan(t, s1, m1);
    var t2 := FoldScan(t, s2, m2);
    FoldScanRow(t, s1, m1, a);
    FoldScanRow(t, s2, m2, a);
    FoldScanRow(t1, s2, m2, a);
    FoldScanRow(t2, s1, m1, a);
    if a in s1 && a in s2 {
      BumpCommute(RowOf(t, a), m1, s1[a], m2, s2[a]);
    }
  }

  /** Folding two scans gives the same table in either order, whether or not
      they share a month key: the aggregate does not depend on the order in
      which directories and months are scanned. */
  lemma FoldScanCommute(t: Table, s1: Row, m1: string, s2: Row, m2: string)
    ensures FoldScan(FoldScan(t, s1, m1), s2, m2) == FoldScan(FoldScan(t, s2, m2), s1, m1)
  {
    var l := FoldScan(FoldScan(t, s1, m1), s2, m2);
    var r := FoldScan(FoldScan(t, s2, m2), s1, m1);
    forall a | a in l || a in r
      ensures a in l && a in r && l[a] == r[a]
    {
      FoldScanCommuteRow(t, s1, m1, s2, m2, a);
    }
    assert l.Keys == r.Keys;
  }
}
