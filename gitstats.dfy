/** The program of main.go: the `GlobalStats` aggregate, `processDir` (one
    `git log` scan of one directory for one month, parsed and folded into
    the aggregate), the per-month loop over one repository or over every
    subdirectory of a base directory, and the final summary.

    The outside world comes in as values: `git log` is a function from
    (directory, --since date, --until date) to its outcome, the directory
    listing is a value, and the current date is a parameter. */
module GitStats {
  import opened Options
  import opened Sums
  import opened Stats
  import opened Text
  import opened Parser
  import opened Calendar
  import opened Report

  /** What `cmd.Output()` yields for one `git log` run. */
  datatype GitOutcome = Failed(reason: string) | Output(text: string)

  /** `git log` over a directory and a --since/--until window. */
  type History = (string, string, string) -> GitOutcome

  /** One entry of `os.ReadDir`. */
  datatype DirEntry = DirEntry(name: string, isDir: bool)

  /** What `os.ReadDir(baseDir)` yields. */
  datatype Listing = ListFailed(reason: string) | Entries(entries: seq<DirEntry>)

  const ExecFailure: string := "failed to execute command: "
  const ListFailure: string := "Failed to read directory: "

  /** `filepath.Join(baseDir, name)`, without the path cleaning. */
  function JoinPath(base: string, name: string): string {
    base + "/" + name
  }

  /** `git log` over `dir` for the whole of month `ym`: from its first day
      to its last (which `firstDayOfMonth.AddDate(0, 1, -1)` computes, by
      `LastDayIsMonthEnd`). */
  function Scan(history: History, dir: string, ym: CalendarMonth): GitOutcome {
    history(dir, IsoDate(FirstDayOfMonth(ym)), IsoDate(MonthEnd(ym)))
  }

  /** The table after `processDir(dir)`: unchanged when git fails, otherwise
      the scan's per-author counts folded in under the key of month `ym`. */
  function AfterScan(t: Table, history: History, dir: string, ym: CalendarMonth): Table {
    match Scan(history, dir, ym)
    case Failed(_) => t
    case Output(text) => FoldScan(t, Parse(SplitLines(text)).scan, MonthKey(ym))
  }

  /** The table after processing every directory entry of `entries` under
      `base`, skipping plain files and directories whose scan fails. */
  function AfterEntries(t: Table, history: History, base: string, entries: seq<DirEntry>, ym: CalendarMonth): Table
    decreases |entries|
  {
    if entries == [] then t
    else
      var before := AfterEntries(t, history, base, entries[..|entries| - 1], ym);
      var e := entries[|entries| - 1];
      if e.isDir then AfterScan(before, history, JoinPath(base, e.name), ym) else before
  }

  /** The messages printed for the entries whose scan fails, in order. */
  function EntryErrors(history: History, base: string, entries: seq<DirEntry>, ym: CalendarMonth): seq<string>
    decreases |entries|
  {
    if entries == [] then []
    else
      var before := EntryErrors(history, base, entries[..|entries| - 1], ym);
      var e := entries[|entries| - 1];
      if e.isDir && Scan(history, JoinPath(base, e.name), ym).Failed?
      then before + [ExecFailure + Scan(history, JoinPath(base, e.name), ym).reason]
      else before
  }

  /** The aggregate `gb` of main.go. */
  class GlobalStats {
    var stats: Table
    var totalInsertions: nat
    var totalDeletions: nat

    /** The running totals are the sums of the table, and every author in
        the table has a month. */
    ghost predicate Valid()
      reads this
    {
      && NoEmptyRows(stats)
      && totalInsertions == TableInsertions(stats)
      && totalDeletions == TableDeletions(stats)
    }

    constructor ()
      ensures stats == map[] && totalInsertions == 0 && totalDeletions == 0
      ensures Valid()
    {
      stats := map[];
      totalInsertions := 0;
      totalDeletions := 0;
    }

    /** `processDir(dir)` for month `ym`. */
    method ProcessDir(history: History, dir: string, ym: CalendarMonth) returns (err: Option<string>)
      requires Valid()
      modifies this
      ensures Valid()
      ensures stats == AfterScan(old(stats), history, dir, ym)
      ensures match Scan(history, dir, ym)
        case Failed(reason) => err == Some(ExecFailure + reason) && unchanged(this)
        case Output(text) =>
          var scan := Parse(SplitLines(text)).scan;
          && err == None
          && totalInsertions == old(totalInsertions) + RowInsertions(scan)
          && totalDeletions == old(totalDeletions) + RowDeletions(scan)
    {
      var first := FirstDayOfMonth(ym);
      LastDayIsMonthEnd(ym);
      var last := LastDayOfMonth(ym);
      var outcome := history(dir, IsoDate(first), IsoDate(last));
      if outcome.Failed? {
        return Some(ExecFailure + outcome.reason);
      }
      var scan := CountLines(SplitLines(outcome.text));
      var key := MonthKey(MonthOf(first));
      ghost var before := stats;
      Accumulate(scan, key);
      FoldScanTotals(before, scan, key);
      FoldScanNoEmptyRows(before, scan, key);
      return None;
    }

    /** The line loop of `processDir`: returns the per-scan map and adds
        every stat line's counts to the running totals as it goes. */
    method CountLines(lines: seq<string>) returns (scan: Row)
      modifies this`totalInsertions, this`totalDeletions
      ensures scan == Parse(lines).scan
      ensures totalInsertions == old(totalInsertions) + RowInsertions(scan)
      ensures totalDeletions == old(totalDeletions) + RowDeletions(scan)
    {
      var author := "";
      scan := map[];
      EmptyRowTotals(scan);
      var i := 0;
      while i < |lines|
        invariant 0 <= i <= |lines|
        invariant Parse(lines[..i]) == ParseState(author, scan)
        invariant totalInsertions == old(totalInsertions) + RowInsertions(scan)
        invariant totalDeletions == old(totalDeletions) + RowDeletions(scan)
      {
        var line := lines[i];
        ParsePrefix(lines, i);
        if line == "" {
        } else if Contains(line, "files changed") || Contains(line, "file changed") {
          var ins := ClauseCount(line, InsertionClause);
          var del := ClauseCount(line, DeletionClause);
          BumpTotals(scan, author, ChangesStats(ins, del));
          scan := Bump(scan, author, ChangesStats(ins, del));
          totalInsertions := totalInsertions + ins;
          totalDeletions := totalDeletions + del;
        } else {
          author := line;
        }
        i := i + 1;
      }
      assert lines[..i] == lines;
    }

    /** The accumulation loop of `processDir`: each author's counts are
        added into that author's cell for month key `key`. */
    method Accumulate(scan: Row, key: string)
      modifies this`stats
      ensures stats == FoldScan(old(stats), scan, key)
    {
      ghost var start := stats;
      var pending := scan.Keys;
      while pending != {}
        invariant pending <= scan.Keys
        invariant stats == FoldScan(start, Restrict(scan, scan.Keys - pending), key)
      {
        var a :| a in pending;
        ghost var before := stats;
        if a !in stats {
          stats := stats[a := map[]];
        }
        ghost var created := stats;
        var cell := Get(stats[a], key);
        cell := ChangesStats(cell.insertions + scan[a].insertions, cell.deletions + scan[a].deletions);
        stats := stats[a := stats[a][key := cell]];
        AccumulateStep(start, scan, pending, a, key, before, created, stats);
        pending := pending - {a};
      }
      assert Restrict(scan, scan.Keys - pending) == scan;
    }

    /** The `-a` branch for one month: every subdirectory of `base` in
        listing order, each failure reported and skipped. */
    method ProcessEntries(history: History, base: string, entries: seq<DirEntry>, ym: CalendarMonth)
      returns (errors: seq<string>)
      requires Valid()
      modifies this
      ensures Valid()
      ensures stats == AfterEntries(old(stats), history, base, entries, ym)
      ensures errors == EntryErrors(history, base, entries, ym)
    {
      errors := [];
      var i := 0;
      while i < |entries|
        invariant 0 <= i <= |entries|
        invariant Valid()
        invariant stats == AfterEntries(old(stats), history, base, entries[..i], ym)
        invariant errors == EntryErrors(history, base, entries[..i], ym)
      {
        EntriesStep(old(stats), history, base, entries, i, ym);
        EntryErrorsStep(history, base, entries, i, ym);
        var e := entries[i];
        if e.isDir {
          var err := ProcessDir(history, JoinPath(base, e.name), ym);
          if err.Some? {
            errors := errors + [err.value];
          }
        }
        i := i + 1;
      }
      assert entries[..i] == entries;
    }
  }

  /** One more directory entry is one more `processDir`, for a directory. */
  lemma EntriesStep(t: Table, history: History, base: string, entries: seq<DirEntry>, i: nat, ym: CalendarMonth)
    requires i < |entries|
    ensures AfterEntries(t, history, base, entries[..i + 1], ym)
         == if entries[i].isDir then AfterScan(AfterEntries(t, history, base, entries[..i], ym), history, JoinPath(base, entries[i].name), ym)
            else AfterEntries(t, history, base, entries[..i], ym)
  {
    var pre := entries[..i + 1];
    assert pre[..|pre| - 1] == entries[..i] && pre[|pre| - 1] == entries[i];
  }

  /** The same step for the messages of failing entries. */
  lemma EntryErrorsStep(history: History, base: string, entries: seq<DirEntry>, i: nat, ym: CalendarMonth)
    requires i < |entries|
    ensures EntryErrors(history, base, entries[..i + 1], ym)
         == if entries[i].isDir && Scan(history, JoinPath(base, entries[i].name), ym).Failed?
            then EntryErrors(history, base, entries[..i], ym) + [ExecFailure + Scan(history, JoinPath(base, entries[i].name), ym).reason]
            else EntryErrors(history, base, entries[..i], ym)
  {
    var pre := entries[..i + 1];
    assert pre[..|pre| - 1] == entries[..i] && pre[|pre| - 1] == entries[i];
  }

  /** One more line of the loop is one more `Step`. */
  lemma ParsePrefix(lines: seq<string>, i: nat)
    requires i < |lines|
    ensures Parse(lines[..i + 1]) == Step(Parse(lines[..i]), lines[i])
  {
    assert lines[..i + 1][..i] == lines[..i];
  }

  /** The Go statements of one fold step (create the row when missing, read
      the cell with its zero default, add, store) compute `AddCell`. */
  lemma AddCellInPlace(t: Table, t1: Table, a: string, key: string, c: ChangesStats)
    requires t1 == if a in t then t else t[a := map[]]
    ensures a in t1
    ensures t1[a := t1[a][key := ChangesStats(Get(t1[a], key).insertions + c.insertions, Get(t1[a], key).deletions + c.deletions)]]
         == AddCell(t, a, key, c)
  {
  }

  /** One fold step: folding one more author of the scan is `AddCell`. */
  lemma FoldStep(t: Table, scan: Row, pending: set<string>, a: string, key: string)
    requires pending <= scan.Keys && a in pending
    ensures FoldScan(t, Restrict(scan, scan.Keys - (pending - {a})), key)
         == AddCell(FoldScan(t, Restrict(scan, scan.Keys - pending), key), a, key, scan[a])
  {
    var done := Restrict(scan, scan.Keys - pending);
    var next := Restrict(scan, scan.Keys - (pending - {a}));
    assert next - {a} == done;
    FoldScanPeel(t, next, key, a);
  }

  /** One pass of the accumulation loop, from the table `before` through
      `created` (the row made when missing) to `after`, folds author `a` in. */
  lemma AccumulateStep(t: Table, scan: Row, pending: set<string>, a: string, key: string, before: Table, created: Table, after: Table)
    requires pending <= scan.Keys && a in pending
    requires before == FoldScan(t, Restrict(scan, scan.Keys - pending), key)
    requires created == if a in before then before else before[a := map[]]
    requires a in created
    requires after == created[a := created[a][key := ChangesStats(Get(created[a], key).insertions + scan[a].insertions,
                                                                  Get(created[a], key).deletions + scan[a].deletions)]]
    ensures after == FoldScan(t, Restrict(scan, scan.Keys - (pending - {a})), key)
  {
    FoldStep(t, scan, pending, a, key);
    AddCellInPlace(before, created, a, key, scan[a]);
  }

  /** Where the program stands after some months: stopped with the message
      it printed, or still running with the table built so far. */
  datatype Progress = Stopped(message: string) | Running(table: Table)

  /** The months the first `n` iterations scan, in iteration order: the
      i-th is the month of `now.AddDate(0, -i, 0)`. */
  function Window(now: Date, n: nat): (w: seq<CalendarMonth>)
    ensures |w| == n
    decreases n
  {
    if n == 0 then [] else Window(now, n - 1) + [MonthBackAsWritten(now, n - 1)]
  }

  /** One iteration of the month loop, for month `ym`. */
  function MonthStep(t: Table, ym: CalendarMonth, allRepos: bool, base: string, listing: Listing, history: History): Progress {
    if allRepos then
      match listing
      case ListFailed(reason) => Stopped(ListFailure + reason)
      case Entries(entries) => Running(AfterEntries(t, history, base, entries, ym))
    else
      match Scan(history, base, ym)
      case Failed(reason) => Stopped(ExecFailure + reason)
      case Output(_) => Running(AfterScan(t, history, base, ym))
  }

  /** One iteration of a month loop, as a value. */
  type MonthFn = (Table, CalendarMonth) -> Progress

  /** The iteration of `main`'s month loop for the given flags and world. */
  function MonthLoop(allRepos: bool, base: string, listing: Listing, history: History): MonthFn {
    (t: Table, ym: CalendarMonth) => MonthStep(t, ym, allRepos, base, listing, history)
  }

  /** A month loop with iteration `step` run over the months of `window`
      from the empty table. */
  function Months(window: seq<CalendarMonth>, step: MonthFn): Progress
    decreases |window|
  {
    if window == [] then Running(map[])
    else Continue(Months(window[..|window| - 1], step), window[|window| - 1], step)
  }

  /** The iteration for month `ym` when the program is still running; a
      stopped program stays where it stopped. */
  function Continue(p: Progress, ym: CalendarMonth, step: MonthFn): Progress {
    match p
    case Stopped(_) => p
    case Running(t) => step(t, ym)
  }

  /** No line of the output is a stat line. */
  predicate NoStatLines(lines: seq<string>) {
    forall i :: 0 <= i < |lines| ==> !IsStatLine(lines[i])
  }

  /** Empty output (`strings.Split("", "\n")` is `[""]`) holds no stat line. */
  lemma EmptyOutputIsQuiet()
    ensures NoStatLines(SplitLines(""))
  {
    assert SplitLines("") == [""];
    assert !Contains("", "files changed") && !Contains("", "file changed");
  }

  /** A successful scan whose output holds no stat line leaves the table
      and (by `ProcessDir`'s contract) both running totals as they were. */
  lemma QuietScanChangesNothing(t: Table, history: History, dir: string, ym: CalendarMonth)
    requires Scan(history, dir, ym).Output?
    requires NoStatLines(SplitLines(Scan(history, dir, ym).text))
    ensures AfterScan(t, history, dir, ym) == t
    ensures var scan := Parse(SplitLines(Scan(history, dir, ym).text)).scan;
      RowInsertions(scan) == 0 && RowDeletions(scan) == 0
  {
    var lines := SplitLines(Scan(history, dir, ym).text);
    NoStatLinesNoCounts(lines);
    FoldScanEmpty(t, MonthKey(ym));
    EmptyRowTotals(Parse(lines).scan);
  }

  /** The key under which the i-th iteration files its counts. */
  function KeyOf(now: Date, i: nat): string {
    MonthKey(MonthBackAsWritten(now, i))
  }

  /** The month keys of the months the first `n` iterations scan. */
  ghost function ScannedKeys(now: Date, n: nat): set<string> {
    set j | 0 <= j < n :: KeyOf(now, j)
  }

  /** Every cell of `t` sits under a key of `keys`. */
  ghost predicate KeysWithin(t: Table, keys: set<string>) {
    forall a :: a in t ==> t[a].Keys <= keys
  }

  /** One more iteration adds one key. */
  lemma ScannedKeysStep(now: Date, i: nat)
    ensures ScannedKeys(now, i + 1) == ScannedKeys(now, i) + {KeyOf(now, i)}
  {
    forall x | x in ScannedKeys(now, i + 1)
      ensures x in ScannedKeys(now, i) + {KeyOf(now, i)}
    {
      var j :| 0 <= j < i + 1 && x == KeyOf(now, j);
      if j < i {
        assert x in ScannedKeys(now, i);
      }
    }
    forall x | x in ScannedKeys(now, i)
      ensures x in ScannedKeys(now, i + 1)
    {
      var j :| 0 <= j < i && x == KeyOf(now, j);
    }
  }

  lemma FoldScanWithin(t: Table, scan: Row, m: string, keys: set<string>)
    requires KeysWithin(t, keys) && m in keys
    ensures KeysWithin(FoldScan(t, scan, m), keys)
  {
    FoldScanCells(t, scan, m);
  }

  lemma {:induction false} AfterEntriesWithin(t: Table, history: History, base: string, entries: seq<DirEntry>, ym: CalendarMonth, keys: set<string>)
    requires KeysWithin(t, keys) && MonthKey(ym) in keys
    ensures KeysWithin(AfterEntries(t, history, base, entries, ym), keys)
    decreases |entries|
  {
    if entries != [] {
      var before := AfterEntries(t, history, base, entries[..|entries| - 1], ym);
      AfterEntriesWithin(t, history, base, entries[..|entries| - 1], ym, keys);
      var e := entries[|entries| - 1];
      if e.isDir && Scan(history, JoinPath(base, e.name), ym).Output? {
        FoldScanWithin(before, Parse(SplitLines(Scan(history, JoinPath(base, e.name), ym).text)).scan, MonthKey(ym), keys);
      }
    }
  }

  /** The summary's months come oldest first: of two scanned months, the one
      printed earlier lies further back from `now`. */
  lemma SummaryIsChronological(now: Date, t: Table, total: nat, s: Summary, p: nat, q: nat, j1: nat, j2: nat)
    requires ValidDate(now)
    requires IsSummaryOf(t, total, s) && p < q < |s.months|
    requires s.months[p].month == KeyOf(now, j1)
    requires s.months[q].month == KeyOf(now, j2)
    requires 0 <= MonthBackAsWritten(now, j1).year < 10000 && 0 <= MonthBackAsWritten(now, j2).year < 10000
    ensures j1 > j2
  {
    assert LexLess(MonthsOf(s.months)[p], MonthsOf(s.months)[q]);
    MonthKeyOrder(MonthBackAsWritten(now, j1), MonthBackAsWritten(now, j2));
    MonthBackAsWrittenRollsForward(now, j1);
    MonthBackAsWrittenRollsForward(now, j2);
  }

  /** How a run ends: stopped by an error before printing anything, or with
      the summary printStats prints (None when the table is empty and
      printStats prints nothing). */
  datatype RunResult = Aborted(message: string) | Completed(summary: Option<Summary>)

  /** Once a run stops it stays stopped with the same message: no later
      month is scanned and nothing is printed. */
  lemma {:induction false} StoppedStaysStopped(window: seq<CalendarMonth>, k: nat, step: MonthFn)
    requires k <= |window| && Months(window[..k], step).Stopped?
    ensures Months(window, step) == Months(window[..k], step)
    decreases |window|
  {
    if |window| > k {
      var before := window[..|window| - 1];
      assert before[..k] == window[..k];
      StoppedStaysStopped(before, k, step);
      assert Months(window, step) == Continue(Months(before, step), window[|window| - 1], step);
    } else {
      assert window[..k] == window;
    }
  }

  /** One more month is one more iteration. */
  lemma MonthsSnoc(window: seq<CalendarMonth>, ym: CalendarMonth, step: MonthFn)
    ensures Months(window + [ym], step) == Continue(Months(window, step), ym, step)
  {
    assert (window + [ym])[..|window|] == window;
  }

  /** The i-th month of the window is the month of `now.AddDate(0, -i, 0)`. */
  lemma {:induction false} WindowAt(now: Date, n: nat, i: nat)
    requires i < n
    ensures Window(now, n)[i] == MonthBackAsWritten(now, i)
    decreases n
  {
    if i < n - 1 {
      WindowAt(now, n - 1, i);
    } else if n > 1 {
      WindowAt(now, n - 1, 0);
    }
  }

  /** On days 1 to 28, which every month has, the i-th iteration scans the
      month `i` months before the month of `now`. */
  lemma WindowIntended(now: Date, n: nat, i: nat)
    requires ValidDate(now) && now.day <= 28 && i < n
    ensures Window(now, n)[i] == MonthBack(now, i)
  {
    WindowAt(now, n, i);
    MonthBackAsWrittenRollsForward(now, i);
  }

  /** On a day the previous month lacks (31 March, say), the first two
      iterations both scan the current month. */
  lemma WindowRepeatsCurrentMonth(now: Date)
    requires ValidDate(now)
    requires now.day > DaysIn(MonthBack(now, 1).year, MonthBack(now, 1).month)
    ensures Window(now, 2) == [MonthOf(now), MonthOf(now)]
  {
    var m := MonthOf(now);
    WindowAt(now, 2, 0);
    WindowAt(now, 2, 1);
    MonthIndexInjective(MonthBack(now, 0), m);
    MonthBackAsWrittenRollsForward(now, 0);
    MonthBackAsWrittenRollsForward(now, 1);
    MonthIndexInjective(MonthBackAsWritten(now, 0), m);
    MonthIndexInjective(MonthBackAsWritten(now, 1), m);
  }

  /** Folding the same scan twice under one key, starting from nothing,
      leaves every scanned author with double counts under that key. */
  lemma FoldScanTwice(scan: Row, key: string)
    ensures var t := FoldScan(FoldScan(map[], scan, key), scan, key);
      forall a :: a in scan ==>
        (key in RowOf(t, a) && RowOf(t, a)[key] == ChangesStats(2 * scan[a].insertions, 2 * scan[a].deletions))
  {
    var t1 := FoldScan(map[], scan, key);
    forall a | a in scan
      ensures var t := FoldScan(t1, scan, key);
        key in RowOf(t, a) && RowOf(t, a)[key] == ChangesStats(2 * scan[a].insertions, 2 * scan[a].deletions)
    {
      FoldScanRow(map[], scan, key, a);
      FoldScanRow(t1, scan, key, a);
    }
  }

  /** Two iterations over the same month. */
  lemma MonthsTwice(m: CalendarMonth, step: MonthFn)
    ensures Months([m, m], step) == Continue(step(map[], m), m, step)
  {
    MonthsSnoc([], m, step);
    assert [m] == [] + [m];
    MonthsSnoc([m], m, step);
    assert [m, m] == [m] + [m];
  }

  /** Then a two-month run on one repository whose scan succeeds files the
      current month's output twice: every author it names ends with double
      counts for that month. */
  lemma RunScansCurrentMonthTwice(now: Date, base: string, listing: Listing, history: History)
    requires ValidDate(now)
    requires now.day > DaysIn(MonthBack(now, 1).year, MonthBack(now, 1).month)
    requires Scan(history, base, MonthOf(now)).Output?
    ensures var scan := Parse(SplitLines(Scan(history, base, MonthOf(now)).text)).scan;
      var p := Months(Window(now, 2), MonthLoop(false, base, listing, history));
      && p.Running?
      && forall a :: a in scan ==>
        (MonthKey(MonthOf(now)) in RowOf(p.table, a)
         && RowOf(p.table, a)[MonthKey(MonthOf(now))] == ChangesStats(2 * scan[a].insertions, 2 * scan[a].deletions))
  {
    var m: CalendarMonth := MonthOf(now);
    var step := MonthLoop(false, base, listing, history);
    var scan := Parse(SplitLines(Scan(history, base, m).text)).scan;
    WindowRepeatsCurrentMonth(now);
    MonthsTwice(m, step);
    var t1 := FoldScan(map[], scan, MonthKey(m));
    assert step(map[], m) == Running(t1);
    assert step(t1, m) == Running(FoldScan(t1, scan, MonthKey(m)));
    FoldScanTwice(scan, MonthKey(m));
  }

  /** An iteration that leaves the program running or stopped extends
      the loop by one month; one that stops it decides the whole loop. */
  lemma MonthsAdvance(window: seq<CalendarMonth>, i: nat, t: Table, p: Progress, step: MonthFn)
    requires i < |window| && Months(window[..i], step) == Running(t) && step(t, window[i]) == p
    ensures Months(window[..i + 1], step) == p
    ensures p.Stopped? ==> Months(window, step) == p
  {
    assert window[..i + 1] == window[..i] + [window[i]];
    MonthsSnoc(window[..i], window[i], step);
    if p.Stopped? {
      StoppedStaysStopped(window, i + 1, step);
    }
  }

  /** The outcome of iteration `i` of the month loop extends the loop's
      outcome by one month, and a stop there is the outcome of all `n`. */
  lemma IterationStep(now: Date, n: nat, i: nat, t: Table, p: Progress, allRepos: bool, base: string, listing: Listing, history: History)
    requires i < n
    requires Months(Window(now, n)[..i], MonthLoop(allRepos, base, listing, history)) == Running(t)
    requires MonthStep(t, MonthBackAsWritten(now, i), allRepos, base, listing, history) == p
    ensures Months(Window(now, n)[..i + 1], MonthLoop(allRepos, base, listing, history)) == p
    ensures p.Stopped? ==> Months(Window(now, n), MonthLoop(allRepos, base, listing, history)) == p
  {
    WindowAt(now, n, i);
    MonthsAdvance(Window(now, n), i, t, p, MonthLoop(allRepos, base, listing, history));
  }

  /** One iteration of the month loop of `main` on the aggregate `gb`, for
      month `ym`: `base` alone, or every subdirectory of it.  Returns the
      message of the error that stops the loop, if any. */
  method ScanMonth(gb: GlobalStats, ym: CalendarMonth, allRepos: bool, base: string, listing: Listing, history: History, ghost keys: set<string>)
    returns (stopped: Option<string>)
    requires gb.Valid() && KeysWithin(gb.stats, keys) && MonthKey(ym) in keys
    modifies gb
    ensures gb.Valid()
    ensures MonthStep(old(gb.stats), ym, allRepos, base, listing, history)
         == if stopped.Some? then Stopped(stopped.value) else Running(gb.stats)
    ensures stopped.None? ==> KeysWithin(gb.stats, keys)
    ensures stopped.Some? ==> unchanged(gb)
  {
    ghost var t0 := gb.stats;
    if allRepos {
      if listing.ListFailed? {
        return Some(ListFailure + listing.reason);
      }
      var _ := gb.ProcessEntries(history, base, listing.entries, ym);
      AfterEntriesWithin(t0, history, base, listing.entries, ym, keys);
      return None;
    }
    stopped := gb.ProcessDir(history, base, ym);
    if stopped.None? {
      FoldScanWithin(t0, Parse(SplitLines(Scan(history, base, ym).text)).scan, MonthKey(ym), keys);
    }
  }

  /** The month loop of `main` on the aggregate `gb`: `n` months back from
      `now`.  Returns the message of the error that stopped it, if any. */
  method ScanMonths(gb: GlobalStats, now: Date, n: nat, allRepos: bool, base: string, listing: Listing, history: History)
    returns (stopped: Option<string>)
    requires gb.Valid() && gb.stats == map[]
    modifies gb
    ensures gb.Valid()
    ensures Months(Window(now, n), MonthLoop(allRepos, base, listing, history))
         == if stopped.Some? then Stopped(stopped.value) else Running(gb.stats)
    ensures stopped.None? ==> KeysWithin(gb.stats, ScannedKeys(now, n))
    ensures stopped.Some? ==> exists k :: (0 <= k < n
      && Months(Window(now, n)[..k], MonthLoop(allRepos, base, listing, history)) == Running(gb.stats)
      && Months(Window(now, n)[..k + 1], MonthLoop(allRepos, base, listing, history)) == Stopped(stopped.value))
  {
    var i := 0;
    while i < n
      invariant 0 <= i <= n
      invariant gb.Valid()
      invariant Months(Window(now, n)[..i], MonthLoop(allRepos, base, listing, history)) == Running(gb.stats)
      invariant KeysWithin(gb.stats, ScannedKeys(now, i))
    {
      // `year, month, _ := time.Now().AddDate(0, -i, 0).Date()`
      var ym := MonthBackAsWritten(now, i);
      ScannedKeysStep(now, i);
      ghost var t0 := gb.stats;
      stopped := ScanMonth(gb, ym, allRepos, base, listing, history, ScannedKeys(now, i + 1));
      ghost var p := if stopped.Some? then Stopped(stopped.value) else Running(gb.stats);
      IterationStep(now, n, i, t0, p, allRepos, base, listing, history);
      if stopped.Some? {
        assert Months(Window(now, n)[..i], MonthLoop(allRepos, base, listing, history)) == Running(gb.stats);
        return;
      }
      i := i + 1;
    }
    assert Window(now, n)[..i] == Window(now, n);
    return None;
  }

  /** `main` after flag parsing: the month loop, then printStats unless an
      error stopped the loop. */
  method Run(now: Date, monthsBack: int, allRepos: bool, base: string, listing: Listing, history: History)
    returns (result: RunResult)
    ensures match Months(Window(now, if monthsBack < 0 then 0 else monthsBack), MonthLoop(allRepos, base, listing, history))
      case Stopped(message) => result == Aborted(message)
      case Running(t) =>
        && result.Completed?
        && (result.summary.None? <==> t == map[])
        && (result.summary.Some? ==> IsSummaryOf(t, TableInsertions(t), result.summary.value))
    ensures result.Completed? && result.summary.Some? ==>
      var months := result.summary.value.months;
      forall p :: 0 <= p < |months| ==> months[p].month in ScannedKeys(now, if monthsBack < 0 then 0 else monthsBack)
  {
    // `for i := 0; i < *monthsBackPtr; i++` runs no iteration for a negative count.
    var n: nat := if monthsBack < 0 then 0 else monthsBack;
    var gb := new GlobalStats();
    var stopped := ScanMonths(gb, now, n, allRepos, base, listing, history);
    if stopped.Some? {
      return Aborted(stopped.value);
    }
    var summary := Summarize(gb.stats, gb.totalInsertions);
    if summary.Some? {
      forall p | 0 <= p < |summary.value.months|
        ensures summary.value.months[p].month in ScannedKeys(now, n)
      {
        assert summary.value.months[p].month in MonthsOf(summary.value.months);
      }
    }
    return Completed(summary);
  }
}
