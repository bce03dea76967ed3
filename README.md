# gitstats, modelled in Dafny

gitstats (`main.go`) reports how many lines each author added and removed,
month by month. For each of the last `-m` months it runs
`git log --pretty=%ae --shortstat` over one repository, or with `-a` over
every subdirectory of the base directory. A one-register parser turns the
output into per-author counts. Those counts are folded into the aggregate
`GlobalStats.Stats` (author → month key → `ChangesStats`), next to two
running totals. Finally `printStats` prints:

- the months in key order;
- per month, the authors ranked by insertions and the month's subtotal;
- a ranking of authors by their insertions over all months;
- the grand total.

The model has eight modules, one file each:

- `options.dfy` (`Options`): the `Option` datatype.
- `sums.dfy` (`Sums`): order-free sums over finite maps. Go iterates maps in
  no fixed order, and every total the program keeps is such a sum.
- `stats.dfy` (`Stats`): `ChangesStats`, the table, Go's zero-default lookup,
  and the fold of one scan into the table (`FoldScan`), with its properties.
- `text.dfy` (`Text`):
  - `strings.Contains` and `strings.Split(s, "\n")`;
  - the two count patterns `(\d+) insertions?\(\+\)` and
    `(\d+) deletions?\(-\)` with `fmt.Sscanf`;
  - Go's string order.
- `parser.dfy` (`Parser`):
  - the line loop as a fold (`Step`, `Parse`);
  - an independent reading of the same output as one record per stat line;
  - the summary line git writes for a commit (`ShortStat`: ` F files changed`,
    then `, N insertions(+)` and `, M deletions(-)`, singular for one, either
    clause left out when its count is 0), and what the loop reads from it.
- `calendar.dfy` (`Calendar`):
  - Go's `time.Date`/`AddDate` normalisation on the Gregorian calendar;
  - the month of each iteration and its first and last day;
  - the `--since`/`--until` dates and the month key.
- `report.dfy` (`Report`): everything `printStats` computes, without the
  printing.
- `gitstats.dfy` (`GitStats`):
  - the class `GlobalStats`, with `processDir` split into its line loop
    (`CountLines`) and its fold loop (`Accumulate`);
  - the `-a` loop over directory entries;
  - the month loop;
  - `Run`, which is `main` after flag parsing.

The outside world comes in as values:

- `git log` is a function `History` from (directory, since, until) to its
  output or a failure;
- `os.ReadDir(baseDir)` is a `Listing` value;
- "now" is a `Date` parameter.

`GlobalStats.Valid()` is the class invariant, which every method keeps:

- `totalInsertions` and `totalDeletions` equal the sums over all cells;
- no author has an empty row.

The month loop is specified by `Months(Window(now, n), MonthLoop(...))`,
where `Window(now, n)` lists the months of the `n` iterations. Its i-th month
is the month of `now.AddDate(0, -i, 0)`, as main.go:47 computes it. On days
29 to 31 this can be the month after the intended one, so the same month is
scanned twice (see "## Findings"). `Calendar.MonthBack` is the month the
i-th iteration is meant to scan, and `GitStats.WindowIntended` shows that the
window holds exactly those months on days 1 to 28. `Months`
yields either `Stopped(message)` (the error that makes `main` return before
`printStats`) or `Running(table)`. `Run` is proved to end exactly as
`Months` says. When it completes, its result is what `printStats` prints
for that table (`Report.IsSummaryOf`).

Behaviours of the code kept as written:

- A stat line before any author line is not an error: its counts are
  credited to the author `""` (`Parser.LatestAuthorEmpty` says exactly when).
- Equal insertion counts are ranked in no defined order, because `sort.Slice`
  is not stable, so the model promises a non-increasing permutation and
  nothing about ties.
- Keys are sorted as strings (`sort.Strings`). `Calendar.MonthKeyOrder`
  proves this is chronological order for years 0 to 9999.

## Model

| member | source | states |
|---|---|---|
| `Text.Contains` | main.go:83-84 | `strings.Contains(line, t)` is true exactly when `t` occurs at some position of the line |
| `Text.SplitLines` | main.go:74 | `strings.Split(output, "\n")` yields at least one piece, no piece contains a newline, and joining the pieces with newlines gives the output back |
| `Text.SplitJoin` | main.go:74 | the other direction: splitting newline-free lines joined with newlines gives the same lines |
| `Text.FirstMatch` | main.go:85-86 | the leftmost position from which the count pattern matches, or none when it matches nowhere; no earlier position matches |
| `Text.ClauseCountSource` | main.go:85-94 | a line where the pattern never matches counts 0; otherwise the count is the decimal value of a whole digit run, not preceded by a digit, that the unit word and sign follow immediately |
| `Text.DecimalValuePadded` | main.go:89-94 | reading back the decimal digits of any number, with or without leading zeros, gives that number |
| `Text.FixedDigitsOrder` | main.go:113 | zero-padded numerals of one width compare as strings exactly as their values compare |
| `Parser.ParseIsTally` | main.go:74-106 | the line loop ends with the register on the latest author line and, per author, the sum of the counts of the stat lines whose latest preceding author line is that author |
| `Parser.BlankLineIgnored` | main.go:79-81 | inserting an empty line anywhere changes neither the register nor the counts |
| `Parser.LatestAuthorEmpty` | main.go:75-105 | the register holds `""` exactly when no non-empty, non-stat line has been seen, so a leading stat line is credited to `""` |
| `Parser.NoStatLinesNoCounts` | main.go:78-106 | output with no stat line yields an empty per-scan map |
| `Parser.ShortStatCounts` | main.go:83-94 | every summary line git writes, with any file count and with both clauses, only insertions or only deletions, in singular or plural, is a stat line. The insertions and deletions read from it are the counts in its clauses, 0 for a missing clause, and never the file count |
| `Parser.CommitStep` | main.go:78-105 | from any state, an author line, the empty line and a summary line leave that author in the register and add the summary's insertions and deletions to that author's counts |
| `Parser.ParseCommit` | main.go:74-106 | the output of one commit yields `ParseState(author, {author: (N, M)})` for the commit's N insertions and M deletions |
| `Stats.FoldScanCells` | main.go:108-118 | each scanned author's cell for the month key gets that author's counts added, starting from zero; every other cell keeps its value; no row or cell disappears |
| `Stats.FoldScanTotals` | main.go:96-118 | folding a scan raises the sums over all cells by exactly the scan's sums, which are what the line loop adds to the two totals |
| `Stats.FoldScanNoEmptyRows` | main.go:109-117 | a row is only ever created to receive a cell, so no author has an empty month map |
| `Stats.FoldScanCommute` | main.go:108-118 | folding two scans gives the same table in either order, whether or not they share a month key |
| `Calendar.MonthBack` | main.go:44-47 | the intended month of iteration `i`: a valid month exactly `i` months before the month of now |
| `Calendar.MonthBackDistinct` | main.go:44-47 | different iterations are meant to scan different months |
| `Calendar.MonthBackAsWrittenSkipsFebruary` | main.go:47 | as written, on 2024-03-31 the second iteration scans March 2024 again, not February |
| `Calendar.MonthBackAsWrittenRollsForward` | main.go:47 | as written, the month is the intended one, or the month after it exactly when now's day does not exist in the intended month; days 1 to 28 always give the intended month |
| `Calendar.LastDayIsMonthEnd` | main.go:48-49 | first of next month minus one day is the last calendar day of the same month (leap years included) |
| `Calendar.MonthKeyOrder` | main.go:113 | for years 0 to 9999, string order of two month keys is chronological order of their months |
| `Calendar.MonthKeyInjective` | main.go:113 | for years 0 to 9999, different months have different keys |
| `Report.SortStrings` | main.go:165-169 | the result is strictly ascending and holds exactly the given strings |
| `Report.OrderedMonths` | main.go:159-169 | every month key that any author has, once each, in ascending string order |
| `Report.RankByInsertions` | main.go:193-195 | every (author, insertions) entry exactly once, ordered non-increasing by insertions |
| `Report.SummarizeMonth` | main.go:172-204 | the month block lists exactly the authors who have that month, each with that month's insertions, ranked non-increasing; its subtotals are the sums of that month's cells |
| `Report.AuthorTotals` | main.go:207-213 | an author gets an entry exactly when the author has at least one month, and the entry is the sum of the author's insertions over all months |
| `Report.ListsEntriesSum` | main.go:220-223 | a list holding each entry of a map once sums to the map's sum |
| `Report.Summarize` | main.go:156-238 | nothing for an empty table; otherwise exactly the month blocks in ascending key order, and a ranking of every author with at least one month, each once with that author's total, non-increasing; the grand total is the running insertion total passed in |
| `Report.RankingCoversTable` | main.go:207-228 | for a table without empty rows, the ranking is a permutation of the per-author totals and adds up to the sum over all cells |
| `GitStats.GlobalStats.constructor` | main.go:31-32 | the aggregate starts empty with both totals 0, and the invariant holds |
| `GitStats.GlobalStats.ProcessDir` | main.go:53-121 | on a git failure: the message `failed to execute command: …` and no state change; otherwise: the table is the old table with the parsed scan folded in under the month's key, both totals rise by the scan's sums, and the invariant holds |
| `GitStats.GlobalStats.CountLines` | main.go:74-106 | the loop returns the per-scan map the parser defines and adds exactly that map's sums to the two totals |
| `GitStats.GlobalStats.Accumulate` | main.go:108-118 | the table after the loop is the fold of the scan into the old table |
| `GitStats.GlobalStats.ProcessEntries` | main.go:130-137 | plain files are skipped; every subdirectory's scan is folded in, in listing order; the failures' messages are returned in order; the invariant holds |
| `GitStats.IterationStep` | main.go:44-143 | the outcome of iteration `i`, on the month of `now.AddDate(0, -i, 0)`, extends the loop's outcome by that month, and a stop in it is the outcome of the whole loop |
| `GitStats.WindowAt` | main.go:44-47 | the i-th month of the window is the month of `now.AddDate(0, -i, 0)`, as written |
| `GitStats.WindowIntended` | main.go:44-47 | on days 1 to 28, the i-th month of the window is the intended one, `i` months before the month of now |
| `GitStats.WindowRepeatsCurrentMonth` | main.go:47 | when the previous month lacks today's day, the first two iterations both scan the current month |
| `GitStats.FoldScanTwice` | main.go:108-118 | folding the same scan twice into an empty table under one key gives every scanned author twice their counts in that cell |
| `GitStats.RunScansCurrentMonthTwice` | main.go:44-118 | on such a day, a two-month run on one repository whose scan succeeds keeps running and gives every author in the current month's output double counts for the current month |
| `GitStats.ScanMonth` | main.go:123-143 | one iteration of the month loop has exactly the outcome `MonthStep` gives: stopped on an unreadable base directory or on a single-repository git failure, otherwise running with the new table. On a stop the aggregate is unchanged; otherwise cells stay under scanned keys |
| `GitStats.ScanMonths` | main.go:44-144 | the month loop ends as `Months` of the window says: stopped with the first fatal message, or running with the aggregate's table. On a stop the aggregate holds the table of the iterations before the failing one; otherwise every cell sits under the key of a scanned month |
| `GitStats.StoppedStaysStopped` | main.go:125-128 | once an iteration stops the loop, later months change nothing |
| `GitStats.QuietScanChangesNothing` | main.go:74-118 | a successful scan with no stat line leaves the table as it was and adds 0 to both totals |
| `GitStats.EmptyOutputIsQuiet` | main.go:74 | empty git output holds no stat line |
| `GitStats.SummaryIsChronological` | main.go:169 | of two iterations' months, as written, the one printed first is filed by the later iteration, further back from now |
| `GitStats.Run` | main.go:30-147 | a negative `-m` runs no iteration; a fatal error ends the run with its message and nothing else; otherwise no output for an empty table, else the summary of the table; the grand total is the sum over all cells, and every printed month is a scanned month |

## Left out

- Flag parsing: `-m`, `-a` and `-p` (main.go:37-42) arrive as the parameters of `Run`.
- Building and running the git process (main.go:54-72): `History` is a function from the directory and the two date strings to the output text or a failure reason. The six hard-coded `--` extension filters are part of what that function stands for.
- `log.Println` of the command line, all `fmt.Printf`/`fmt.Println` output and the ANSI colour codes: `Run` returns the fatal message or the summary value that would be printed; per-directory messages are returned by `ProcessEntries`.
- `GitStats.Run`: does not collect the per-directory error messages of the `-a` mode, which `main` prints and then skips; `GitStats.GlobalStats.ProcessEntries` returns them for each month, and `ScanMonths` drops them.
- `os.ReadDir` is called again in every iteration (main.go:124); the model gives one `Listing` for all iterations, so a directory that changes between months is not represented.
- `filepath.Join` cleaning of the path (`JoinPath` concatenates with `/`).
- `time.Now()` and time zones: "now" is a calendar `Date` parameter.
- main.go:47 reads `time.Now()` again in every iteration; the model takes one `now` for the whole loop, so a run that crosses midnight or a month boundary is not represented.
- Go's fixed-width `int` and `fmt.Sscanf` overflow: counts are unbounded `nat`.
- `sort.Strings` and `sort.Slice` are library sorts over slices, done in place. Their results are modelled by their contracts: an insertion loop over a `seq`, not Go's algorithm over the slice. The order among equal insertion counts is not specified.
- The per-scan map of `[2]int` (main.go:76) is modelled with `ChangesStats` values.
- The per-month deletion subtotal (main.go:188) is computed and proved but, as in the source, never printed.
- Regular expressions in general: the two patterns are modelled by a function specific to their shape (digits, a space, the unit word, an optional `s`, the sign in parentheses).

## Findings

| source | as written | input that shows it | evidently intended | confidence | as-written member | corrected member |
|---|---|---|---|---|---|---|
| main.go:47 | the i-th month is taken from `time.Now().AddDate(0, -i, 0)`, which keeps the day of the month and rolls an overflowing day into the next month | now = 2024-03-31 with `-m 2`: iteration 1 computes "2024-02-31", which becomes 2024-03-02, so March is scanned twice and February never | iteration `i` scans the month `i` months before the current month, whatever the day | not executed | `Calendar.MonthBackAsWrittenSkipsFebruary` | `Calendar.MonthBack` |

`GitStats.Run` and the month loop are modelled as written, on
`Calendar.MonthBackAsWritten`; `GitStats.RunScansCurrentMonthTwice` shows the
effect on the report. `Calendar.MonthBack` is the corrected month.
`GitStats.WindowIntended` and `Calendar.MonthBackAsWrittenRollsForward` prove
that the written and the corrected months agree on days 1 to 28.
