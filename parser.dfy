/** The record parser of `processDir`: a single pass over the lines of
    `git log --pretty=%ae --shortstat`, with an author register.

    `Step`/`Feed` are the loop as main.go writes it.  `LatestAuthor`,
    `Attributions` and `Tally` describe the same output as a list of
    (author, counts) records, one per stat line, each credited to the most
    recent author line before it; `ParseIsTally` proves the two agree. */
module Parser {
  import opened Options
  import opened Stats
  import opened Text

  /** The insertions and deletions a stat line reports, 0 for a missing clause. */
  function StatCounts(line: string): ChangesStats {
    ChangesStats(ClauseCount(line, InsertionClause), ClauseCount(line, DeletionClause))
  }

  /** The loop's state: the `author` register and the per-scan `stats` map. */
  datatype ParseState = ParseState(author: string, scan: Row)

  /** Before the first line: the register holds "" and no counts exist. */
  const Start: ParseState := ParseState("", map[])

  /** One iteration of the loop: skip an empty line, credit a stat line's
      counts to the register, or load any other line into the register. */
  function Step(st: ParseState, line: string): ParseState {
    if line == "" then st
    else if IsStatLine(line) then ParseState(st.author, Bump(st.scan, st.author, StatCounts(line)))
    else ParseState(line, st.scan)
  }

  /** The loop run over `lines` from state `st`. */
  function Feed(st: ParseState, lines: seq<string>): ParseState
    decreases |lines|
  {
    if lines == [] then st
    else Step(Feed(st, lines[..|lines| - 1]), lines[|lines| - 1])
  }

  /** The loop run over all lines of one scan. */
  function Parse(lines: seq<string>): ParseState {
    Feed(Start, lines)
  }

  /** A line that names an author: any non-empty line that is not a stat line. */
  predicate IsAuthorLine(line: string) {
    line != "" && !IsStatLine(line)
  }

  /** The most recent author line, or "" when there is none. */
  function LatestAuthor(lines: seq<string>): string
    decreases |lines|
  {
    if lines == [] then ""
    else if IsAuthorLine(lines[|lines| - 1]) then lines[|lines| - 1]
    else LatestAuthor(lines[..|lines| - 1])
  }

  /** One stat line's counts and the author they are credited to. */
  datatype Attribution = Attribution(author: string, counts: ChangesStats)

  /** One record per non-empty stat line, in order, credited to the latest
      author line before it. */
  function Attributions(lines: seq<string>): seq<Attribution>
    decreases |lines|
  {
    if lines == [] then []
    else
      var before := lines[..|lines| - 1];
      var line := lines[|lines| - 1];
      Attributions(before)
        + (if line != "" && IsStatLine(line) then [Attribution(LatestAuthor(before), StatCounts(line))] else [])
  }

  /** The per-author sums of a list of records. */
  function Tally(records: seq<Attribution>): Row
    decreases |records|
  {
    if records == [] then map[]
    else
      var last := records[|records| - 1];
      Bump(Tally(records[..|records| - 1]), last.author, last.counts)
  }

  /** The loop computes exactly the record view: its register ends on the
      latest author line, and its per-scan map holds, for each author, the
      sums of the stat lines credited to that author. */
  lemma {:induction false} ParseIsTally(lines: seq<string>)
    ensures Parse(lines) == ParseState(LatestAuthor(lines), Tally(Attributions(lines)))
    decreases |lines|
  {
    if lines != [] {
      var before := lines[..|lines| - 1];
      var line := lines[|lines| - 1];
      ParseIsTally(before);
      if line != "" && IsStatLine(line) {
        var r := Attribution(LatestAuthor(before), StatCounts(line));
        assert (Attributions(before) + [r])[..|Attributions(before)|] == Attributions(before);
      } else {
        assert Attributions(lines) == Attributions(before);
      }
    }
  }

  /** Running the loop over two pieces in turn is running it over both. */
  lemma {:induction false} FeedAppend(st: ParseState, a: seq<string>, b: seq<string>)
    ensures Feed(st, a + b) == Feed(Feed(st, a), b)
    decreases |b|
  {
    if b == [] {
      assert a + b == a;
    } else {
      assert (a + b)[..|a + b| - 1] == a + b[..|b| - 1];
      FeedAppend(st, a, b[..|b| - 1]);
    }
  }

  /** An empty line changes neither the register nor the counts, wherever it
      stands. */
  lemma BlankLineIgnored(a: seq<string>, b: seq<string>)
    ensures Parse(a + [""] + b) == Parse(a + b)
  {
    FeedAppend(Start, a + [""], b);
    FeedAppend(Start, a, [""]);
    FeedAppend(Start, a, b);
    assert [""][..0] == [];
  }

  /** The register holds "" exactly when no author line has been seen, so a
      stat line before every author line is credited to the author "". */
  lemma {:induction false} LatestAuthorEmpty(lines: seq<string>)
    ensures LatestAuthor(lines) == "" <==> forall i :: 0 <= i < |lines| ==> !IsAuthorLine(lines[i])
    decreases |lines|
  {
    if lines != [] {
      var before := lines[..|lines| - 1];
      LatestAuthorEmpty(before);
      assert forall i :: 0 <= i < |before| ==> before[i] == lines[i];
    }
  }

  /** Without stat lines there are no records. */
  lemma {:induction false} NoStatLinesNoRecords(lines: seq<string>)
    requires forall i :: 0 <= i < |lines| ==> !IsStatLine(lines[i])
    ensures Attributions(lines) == []
    decreases |lines|
  {
    if lines != [] {
      NoStatLinesNoRecords(lines[..|lines| - 1]);
    }
  }

  /** Output without stat lines yields an empty per-scan map. */
  lemma NoStatLinesNoCounts(lines: seq<string>)
    requires forall i :: 0 <= i < |lines| ==> !IsStatLine(lines[i])
    ensures Parse(lines).scan == map[]
  {
    ParseIsTally(lines);
    NoStatLinesNoRecords(lines);
  }

  /** How git writes a count: its decimal digits. */
  function Numeral(n: nat): string {
    Padded(n, 1)
  }

  /** git's ending for a counted word: none for exactly one. */
  function Plural(n: nat): string {
    if n == 1 then "" else "s"
  }

  /** The head of a summary line: ` F files changed` (or `file`). */
  function FilesPart(files: nat): string {
    " " + Numeral(files) + FilesWord(files)
  }

  /** The words after the file count. */
  function FilesWord(files: nat): string {
    " file" + Plural(files) + " changed"
  }

  /** A count clause of a summary line: `, N insertions(+)` or
      `, M deletions(-)`, singular for one. */
  function CountPart(n: nat, c: Clause): string {
    ", " + Numeral(n) + ClauseWord(n, c)
  }

  /** The unit word and sign after a clause's count. */
  function ClauseWord(n: nat, c: Clause): string {
    " " + c.word + Plural(n) + "(" + [c.sign] + ")"
  }

  /** The summary line `git log --shortstat` prints for a commit: the number
      of files changed, then the insertions and the deletions, either of
      which git can leave out. */
  function ShortStat(files: nat, ins: Option<nat>, del: Option<nat>): string {
    FilesPart(files) + OptionalPart(ins, InsertionClause) + OptionalPart(del, DeletionClause)
  }

  /** A count clause when git writes one, nothing otherwise. */
  function OptionalPart(n: Option<nat>, c: Clause): string {
    match n
    case None => ""
    case Some(v) => CountPart(v, c)
  }

  /** The count of a clause, 0 when the line leaves it out. */
  function CountOf(n: Option<nat>): nat {
    if n.Some? then n.value else 0
  }

  /** The words after the file count hold no digit. */
  lemma FilesWordNoDigits(files: nat)
    ensures NoDigits(FilesWord(files))
  {
    var y := FilesWord(files);
    if files == 1 { assert y == " file changed"; } else { assert y == " files changed"; }
  }

  /** The words after a clause's count hold no digit. */
  lemma ClauseWordNoDigits(n: nat, c: Clause)
    requires c == InsertionClause || c == DeletionClause
    ensures NoDigits(ClauseWord(n, c))
  {
    if c == InsertionClause {
      InsertionWordNoDigits(n);
    } else {
      DeletionWordNoDigits(n);
    }
  }

  lemma InsertionWordNoDigits(n: nat)
    ensures NoDigits(" insertion" + Plural(n) + "(+)")
  {
    if n == 1 { assert " insertion" + Plural(n) + "(+)" == " insertion(+)"; }
    else { assert " insertion" + Plural(n) + "(+)" == " insertions(+)"; }
  }

  lemma DeletionWordNoDigits(n: nat)
    ensures NoDigits(" deletion" + Plural(n) + "(-)")
  {
    if n == 1 { assert " deletion" + Plural(n) + "(-)" == " deletion(-)"; }
    else { assert " deletion" + Plural(n) + "(-)" == " deletions(-)"; }
  }

  /** The file count of a summary line never matches a count pattern. */
  lemma FilesPartNoMatch(s: string, u: string, files: nat, v: string, c: Clause)
    requires s == u + FilesPart(files) + v
    requires c == InsertionClause || c == DeletionClause
    ensures forall p :: |u| <= p < |u| + |FilesPart(files)| ==> !MatchAt(s, p, c)
  {
    var x, d, y := " ", Numeral(files), FilesWord(files);
    FilesWordNoDigits(files);
    assert y[1] == 'f';
    PieceNoMatch(s, u, x, d, y, v, c);
  }

  /** A count clause never matches the other clause's pattern. */
  lemma CountPartNoMatch(s: string, u: string, n: nat, part: Clause, v: string, c: Clause)
    requires s == u + CountPart(n, part) + v
    requires (part, c) == (InsertionClause, DeletionClause) || (part, c) == (DeletionClause, InsertionClause)
    ensures forall p :: |u| <= p < |u| + |CountPart(n, part)| ==> !MatchAt(s, p, c)
  {
    var x, d, y := ", ", Numeral(n), ClauseWord(n, part);
    ClauseWordNoDigits(n, part);
    assert y[1] == part.word[0];
    PieceNoMatch(s, u, x, d, y, v, c);
  }

  /** A count clause first matches its own pattern at its first digit,
      which starts the count's digits. */
  lemma CountPartMatch(s: string, u: string, n: nat, c: Clause, v: string)
    requires s == u + CountPart(n, c) + v
    requires c == InsertionClause || c == DeletionClause
    ensures var r := |u| + 2;
      && MatchAt(s, r, c)
      && DigitEnd(s, r) == r + |Numeral(n)|
      && s[r..r + |Numeral(n)|] == Numeral(n)
      && forall p :: |u| <= p < r ==> !MatchAt(s, p, c)
  {
    var x, d, y := ", ", Numeral(n), ClauseWord(n, c);
    ClauseWordNoDigits(n, c);
    PieceMatch(s, u, x, d, y, v, c, Plural(n));
  }

  /** The summary line is the file count followed by the clauses git wrote. */
  lemma ShortStatParts(files: nat, ins: Option<nat>, del: Option<nat>)
    ensures ShortStat(files, ins, del)
         == FilesPart(files) + (OptionalPart(ins, InsertionClause) + OptionalPart(del, DeletionClause))
  {
  }

  /** A line that starts with a file count is a stat line. */
  lemma FilesPartIsStatLine(files: nat, rest: string)
    ensures IsStatLine(FilesPart(files) + rest)
  {
    var x := " " + Numeral(files);
    var t := if files == 1 then "file changed" else "files changed";
    assert FilesWord(files) == " " + t;
    Regroup(x, " ", t);
    OccursBetween(x + " ", t, rest);
    ContainsAt(FilesPart(files) + rest, t, |x + " "|);
  }

  /** Neither count pattern matches inside the file count that opens a line. */
  lemma FilesPartNoMatchAtStart(s: string, files: nat, v: string, c: Clause)
    requires s == FilesPart(files) + v
    requires c == InsertionClause || c == DeletionClause
    ensures forall p :: 0 <= p < |FilesPart(files)| ==> !MatchAt(s, p, c)
  {
    AppendEmpty(FilesPart(files));
    FilesPartNoMatch(s, "", files, v, c);
  }

  /** A clause that may be absent never matches the other clause's pattern. */
  lemma OptionalPartNoMatch(s: string, u: string, n: Option<nat>, part: Clause, v: string, c: Clause)
    requires s == u + OptionalPart(n, part) + v
    requires (part, c) == (InsertionClause, DeletionClause) || (part, c) == (DeletionClause, InsertionClause)
    ensures forall p :: |u| <= p < |u| + |OptionalPart(n, part)| ==> !MatchAt(s, p, c)
  {
    match n
    case None =>
    case Some(k) => CountPartNoMatch(s, u, k, part, v, c);
  }

  /** A clause preceded by no match of its pattern is the one counted. */
  lemma CountPartCounted(s: string, u: string, n: nat, c: Clause, v: string)
    requires s == u + CountPart(n, c) + v
    requires c == InsertionClause || c == DeletionClause
    requires forall p :: 0 <= p < |u| ==> !MatchAt(s, p, c)
    ensures ClauseCount(s, c) == n
  {
    CountPartMatch(s, u, n, c, v);
    ClauseCountFirst(s, |u| + 2, c, Numeral(n));
    DecimalValuePadded(n, 1);
  }

  /** The insertion pattern reads the insertion clause right after the file count. */
  lemma InsertionsPresent(s: string, files: nat, n: nat, e: string)
    requires s == FilesPart(files) + CountPart(n, InsertionClause) + e
    ensures ClauseCount(s, InsertionClause) == n
  {
    Regroup(FilesPart(files), CountPart(n, InsertionClause), e);
    FilesPartNoMatchAtStart(s, files, CountPart(n, InsertionClause) + e, InsertionClause);
    CountPartCounted(s, FilesPart(files), n, InsertionClause, e);
  }

  /** Without an insertion clause, the insertion pattern matches nowhere. */
  lemma InsertionsAbsent(s: string, files: nat, del: Option<nat>)
    requires s == FilesPart(files) + OptionalPart(del, DeletionClause)
    ensures ClauseCount(s, InsertionClause) == 0
  {
    FilesPartNoMatchAtStart(s, files, OptionalPart(del, DeletionClause), InsertionClause);
    AppendEmpty(FilesPart(files) + OptionalPart(del, DeletionClause));
    OptionalPartNoMatch(s, FilesPart(files), del, DeletionClause, "", InsertionClause);
    ClauseCountNone(s, InsertionClause);
  }

  /** The deletion pattern reads the last clause, which is the deletion clause. */
  lemma DeletionsPresent(s: string, files: nat, ins: Option<nat>, m: nat)
    requires s == FilesPart(files) + OptionalPart(ins, InsertionClause) + CountPart(m, DeletionClause)
    ensures ClauseCount(s, DeletionClause) == m
  {
    var h, i := FilesPart(files), OptionalPart(ins, InsertionClause);
    Regroup(h, i, CountPart(m, DeletionClause));
    AppendEmpty(h + i + CountPart(m, DeletionClause));
    FilesPartNoMatchAtStart(s, files, i + CountPart(m, DeletionClause), DeletionClause);
    OptionalPartNoMatch(s, h, ins, InsertionClause, CountPart(m, DeletionClause), DeletionClause);
    CountPartCounted(s, h + i, m, DeletionClause, "");
  }

  /** Without a deletion clause, the deletion pattern matches nowhere. */
  lemma DeletionsAbsent(s: string, files: nat, ins: Option<nat>)
    requires s == FilesPart(files) + OptionalPart(ins, InsertionClause)
    ensures ClauseCount(s, DeletionClause) == 0
  {
    FilesPartNoMatchAtStart(s, files, OptionalPart(ins, InsertionClause), DeletionClause);
    AppendEmpty(FilesPart(files) + OptionalPart(ins, InsertionClause));
    OptionalPartNoMatch(s, FilesPart(files), ins, InsertionClause, "", DeletionClause);
    ClauseCountNone(s, DeletionClause);
  }

  /** What the parser reads from a summary line: the insertions and the
      deletions it reports, 0 for a clause it leaves out. */
  lemma ShortStatCounts(files: nat, ins: Option<nat>, del: Option<nat>)
    ensures IsStatLine(ShortStat(files, ins, del))
    ensures StatCounts(ShortStat(files, ins, del)) == ChangesStats(CountOf(ins), CountOf(del))
  {
    ShortStatParts(files, ins, del);
    FilesPartIsStatLine(files, OptionalPart(ins, InsertionClause) + OptionalPart(del, DeletionClause));
    ShortStatInsertions(files, ins, del);
    ShortStatDeletions(files, ins, del);
  }

  /** The insertion count of a summary line. */
  lemma ShortStatInsertions(files: nat, ins: Option<nat>, del: Option<nat>)
    ensures ClauseCount(ShortStat(files, ins, del), InsertionClause) == CountOf(ins)
  {
    var s := ShortStat(files, ins, del);
    if ins.Some? {
      InsertionsPresent(s, files, ins.value, OptionalPart(del, DeletionClause));
    } else {
      AppendEmpty(FilesPart(files));
      InsertionsAbsent(s, files, del);
    }
  }

  /** The deletion count of a summary line. */
  lemma ShortStatDeletions(files: nat, ins: Option<nat>, del: Option<nat>)
    ensures ClauseCount(ShortStat(files, ins, del), DeletionClause) == CountOf(del)
  {
    var s := ShortStat(files, ins, del);
    if del.Some? {
      DeletionsPresent(s, files, ins, del.value);
    } else {
      AppendEmpty(FilesPart(files));
      DeletionsAbsent(s, files, ins);
    }
  }

  /** An author line, the empty line and a stat line, fed in turn, credit the
      stat line's counts to that author and leave the author in the register. */
  lemma CommitFeed(st: ParseState, author: string, line: string)
    requires IsAuthorLine(author) && line != "" && IsStatLine(line)
    ensures Feed(st, [author, "", line]) == ParseState(author, Bump(st.scan, author, StatCounts(line)))
  {
    FeedThree(st, author, "", line);
  }

  /** The loop over three lines is three steps. */
  lemma FeedThree(st: ParseState, a: string, b: string, c: string)
    ensures Feed(st, [a, b, c]) == Step(Step(Step(st, a), b), c)
  {
    assert Feed(st, [a]) == Step(st, a) by {
      assert [a][..0] == [];
    }
    assert Feed(st, [a, b]) == Step(Feed(st, [a]), b) by {
      assert [a, b][..1] == [a];
    }
    assert Feed(st, [a, b, c]) == Step(Feed(st, [a, b]), c) by {
      assert [a, b, c][..2] == [a, b];
    }
  }

  /** One commit of the output, an author line, the empty line and the
      summary line, credits the summary's counts to that author and leaves
      that author in the register. */
  lemma CommitStep(st: ParseState, author: string, files: nat, ins: Option<nat>, del: Option<nat>)
    requires IsAuthorLine(author)
    ensures Feed(st, [author, "", ShortStat(files, ins, del)])
         == ParseState(author, Bump(st.scan, author, ChangesStats(CountOf(ins), CountOf(del))))
  {
    var line := ShortStat(files, ins, del);
    ShortStatCounts(files, ins, del);
    assert line != "" by {
      ShortStatParts(files, ins, del);
    }
    CommitFeed(st, author, line);
  }

  /** A scan of a single commit yields exactly that commit's counts under its
      author. */
  lemma ParseCommit(author: string, files: nat, ins: Option<nat>, del: Option<nat>)
    requires IsAuthorLine(author)
    ensures Parse([author, "", ShortStat(files, ins, del)])
         == ParseState(author, map[author := ChangesStats(CountOf(ins), CountOf(del))])
  {
    var line := ShortStat(files, ins, del);
    ShortStatCounts(files, ins, del);
    assert line != "" by {
      ShortStatParts(files, ins, del);
    }
    ParseCommitLine(author, line);
  }

  /** A scan of one author line, the empty line and one stat line credits
      that line's counts to the author. */
  lemma ParseCommitLine(author: string, line: string)
    requires IsAuthorLine(author) && line != "" && IsStatLine(line)
    ensures Parse([author, "", line]) == ParseState(author, map[author := StatCounts(line)])
  {
    CommitFeed(Start, author, line);
    assert Bump(map[], author, StatCounts(line)) == map[author := StatCounts(line)];
  }
}
