/** The string functions the parser relies on: `strings.Contains`,
    `strings.Split(s, "\n")`, decimal digits (`fmt.Sscanf` with `%d` and the
    zero-padded integers of `time.Format`), and the two count patterns
    `(\d+) insertions?\(\+\)` and `(\d+) deletions?\(-\)`. */
module Text {
  import opened Options

  /** `t` occurs in `s` starting at position `i`. */
  predicate OccursAt(s: string, t: string, i: int) {
    0 <= i <= |s| - |t| && s[i..i + |t|] == t
  }

  /** `strings.Contains(s, t)`: `t` occurs somewhere in `s`. */
  function Contains(s: string, t: string): (r: bool)
    ensures r <==> exists i :: OccursAt(s, t, i)
  {
    if |t| > |s| then false
    else if s[..|t|] == t then assert OccursAt(s, t, 0); true
    else
      var r := Contains(s[1..], t);
      assert r ==> exists i :: OccursAt(s, t, i) by {
        if r {
          var i :| OccursAt(s[1..], t, i);
          assert OccursAt(s, t, i + 1);
        }
      }
      assert (exists i :: OccursAt(s, t, i)) ==> r by {
        if exists i :: OccursAt(s, t, i) {
          var i :| OccursAt(s, t, i);
          assert i != 0;
          assert OccursAt(s[1..], t, i - 1);
        }
      }
      r
  }

  /** The first position of a newline in `s`. */
  function FirstNewline(s: string): (k: nat)
    requires '\n' in s
    ensures k < |s| && s[k] == '\n' && '\n' !in s[..k]
  {
    if s[0] == '\n' then 0
    else
      assert '\n' in s[1..];
      var k := FirstNewline(s[1..]);
      assert s[..k + 1] == [s[0]] + s[1..][..k];
      k + 1
  }

  /** Lines joined with newlines: the inverse of `SplitLines`. */
  function JoinLines(lines: seq<string>): string
    requires |lines| > 0
  {
    if |lines| == 1 then lines[0] else lines[0] + "\n" + JoinLines(lines[1..])
  }

  /** `strings.Split(s, "\n")`: at least one piece (the empty string splits
      into `[""]`), no piece holds a newline, and joining the pieces with
      newlines gives `s` back. */
  function SplitLines(s: string): (lines: seq<string>)
    ensures |lines| > 0
    ensures forall i :: 0 <= i < |lines| ==> '\n' !in lines[i]
    ensures JoinLines(lines) == s
    decreases |s|
  {
    if '\n' in s then
      var k := FirstNewline(s);
      var rest := SplitLines(s[k + 1..]);
      assert s == s[..k] + "\n" + s[k + 1..];
      [s[..k]] + rest
    else
      [s]
  }

  /** Splitting newline-free lines joined by newlines gives those lines back. */
  lemma {:induction false} SplitJoin(lines: seq<string>)
    requires |lines| > 0
    requires forall i :: 0 <= i < |lines| ==> '\n' !in lines[i]
    ensures SplitLines(JoinLines(lines)) == lines
  {
    if |lines| == 1 {
    } else {
      var s := JoinLines(lines);
      var head := lines[0];
      assert s == head + "\n" + JoinLines(lines[1..]);
      assert s[|head|] == '\n';
      assert s[..|head|] == head;
      assert '\n' in s;
      var k := FirstNewline(s);
      assert k == |head|;
      assert s[k + 1..] == JoinLines(lines[1..]);
      SplitJoin(lines[1..]);
    }
  }

  predicate IsDigit(c: char) {
    '0' <= c <= '9'
  }

  function DigitValue(c: char): nat
    requires IsDigit(c)
  {
    (c as int - '0' as int) as nat
  }

  function DigitChar(d: nat): (c: char)
    requires d < 10
    ensures IsDigit(c) && DigitValue(c) == d
  {
    ('0' as int + d) as char
  }

  predicate AllDigits(s: string) {
    forall i :: 0 <= i < |s| ==> IsDigit(s[i])
  }

  /** The value `fmt.Sscanf(ds, "%d", &n)` stores for a run of digits. */
  function DecimalValue(ds: string): nat
    requires AllDigits(ds)
  {
    if ds == [] then 0 else 10 * DecimalValue(ds[..|ds| - 1]) + DigitValue(ds[|ds| - 1])
  }

  /** The decimal digits of `x`, zero-padded on the left to at least `width`
      characters: how `time.Format` writes a numeric field. */
  function Padded(x: nat, width: nat): (s: string)
    ensures AllDigits(s) && |s| > 0
  {
    var w := if width > 0 then width - 1 else 0;
    if x < 10 then seq(w, _ => '0') + [DigitChar(x)]
    else Padded(x / 10, w) + [DigitChar(x % 10)]
  }

  /** Reading a padded decimal back gives the number: padding is leading zeros only. */
  lemma {:induction false} DecimalValuePadded(x: nat, width: nat)
    ensures DecimalValue(Padded(x, width)) == x
  {
    var w := if width > 0 then width - 1 else 0;
    var s := Padded(x, width);
    if x < 10 {
      ZerosValue(w);
      assert s[..|s| - 1] == seq(w, _ => '0');
    } else {
      DecimalValuePadded(x / 10, w);
      assert s[..|s| - 1] == Padded(x / 10, w);
    }
  }

  lemma {:induction false} ZerosValue(n: nat)
    ensures DecimalValue(seq(n, _ => '0')) == 0
  {
    if n > 0 {
      assert seq(n, _ => '0')[..n - 1] == seq(n - 1, _ => '0');
      ZerosValue(n - 1);
    }
  }

  /** The end of the run of digits that starts at `p`. */
  function DigitEnd(s: string, p: nat): (q: nat)
    requires p <= |s|
    ensures p <= q <= |s|
    ensures forall i :: p <= i < q ==> IsDigit(s[i])
    ensures q == |s| || !IsDigit(s[q])
    decreases |s| - p
  {
    if p < |s| && IsDigit(s[p]) then DigitEnd(s, p + 1) else p
  }

  predicate StartsWith(s: string, prefix: string) {
    |prefix| <= |s| && s[..|prefix|] == prefix
  }

  /** The unit word and sign of a count pattern. */
  datatype Clause = Clause(word: string, sign: char)

  const InsertionClause: Clause := Clause("insertion", '+')
  const DeletionClause: Clause := Clause("deletion", '-')

  /** What the pattern demands right after the digits: a space, the unit
      word, an optional `s`, and the sign in parentheses. */
  predicate ClauseAt(s: string, q: nat, c: Clause)
    requires q <= |s|
  {
    || StartsWith(s[q..], " " + c.word + "(" + [c.sign] + ")")
    || StartsWith(s[q..], " " + c.word + "s(" + [c.sign] + ")")
  }

  /** The pattern `(\d+) <word>s?\(<sign>\)` matches starting at `p`.  Since
      a space must follow the digits, a match starting at `p` takes the
      whole digit run from `p`. */
  predicate MatchAt(s: string, p: nat, c: Clause) {
    p < |s| && IsDigit(s[p]) && ClauseAt(s, DigitEnd(s, p), c)
  }

  /** The leftmost position at or after `from` where the pattern matches. */
  function FirstMatch(s: string, from: nat, c: Clause): (r: Option<nat>)
    requires from <= |s|
    ensures r.None? ==> forall p :: from <= p < |s| ==> !MatchAt(s, p, c)
    ensures r.Some? ==> from <= r.value < |s| && MatchAt(s, r.value, c)
    ensures r.Some? ==> forall p :: from <= p < r.value ==> !MatchAt(s, p, c)
    decreases |s| - from
  {
    if from == |s| then None
    else if MatchAt(s, from, c) then Some(from)
    else FirstMatch(s, from + 1, c)
  }

  /** `regexp.FindStringSubmatch` followed by `fmt.Sscanf` of the captured
      digits: the count of the leftmost match, 0 when the pattern does not
      match. */
  function ClauseCount(s: string, c: Clause): nat {
    match FirstMatch(s, 0, c)
    case None => 0
    case Some(p) => DecimalValue(s[p..DigitEnd(s, p)])
  }

  /** The count is read from a whole digit run that the unit word follows
      immediately, and no earlier position of the line matches; a line with
      no match counts 0. */
  lemma ClauseCountSource(s: string, c: Clause)
    ensures ClauseCount(s, c) == 0 <== forall p :: 0 <= p < |s| ==> !MatchAt(s, p, c)
    ensures FirstMatch(s, 0, c).Some? ==>
      var p := FirstMatch(s, 0, c).value;
      var q := DigitEnd(s, p);
      && p < q
      && (p == 0 || !IsDigit(s[p - 1]))
      && ClauseAt(s, q, c)
      && ClauseCount(s, c) == DecimalValue(s[p..q])
  {
    if FirstMatch(s, 0, c).Some? {
      var p := FirstMatch(s, 0, c).value;
      if p > 0 && IsDigit(s[p - 1]) {
        assert DigitEnd(s, p - 1) == DigitEnd(s, p);
        assert MatchAt(s, p - 1, c);
      }
    }
  }

  /** No character of `s` is a digit. */
  predicate NoDigits(s: string) {
    forall i :: 0 <= i < |s| ==> !IsDigit(s[i])
  }

  /** A run of digits from `p` that a non-digit ends at `e`. */
  lemma DigitEndRun(s: string, p: nat, e: nat)
    requires p <= e < |s|
    requires forall i :: p <= i < e ==> IsDigit(s[i])
    requires !IsDigit(s[e])
    ensures DigitEnd(s, p) == e
  {
  }

  /** In `s = u + (x + d + y) + v`, digits `d` between texts `x` and `y` that
      hold none: within `x`, `d` and `y` the pattern matches exactly on the
      digits of `d`, and there exactly when the clause follows `d`; a match
      there reads all of `d`. */
  lemma PieceMatches(s: string, u: string, x: string, d: string, y: string, v: string, c: Clause)
    requires s == u + (x + d + y) + v
    requires AllDigits(d) && |d| > 0 && NoDigits(x) && NoDigits(y) && |y| > 0
    ensures var q := |u| + |x| + |d|;
      && DigitEnd(s, |u| + |x|) == q
      && s[|u| + |x|..q] == d
      && forall p :: |u| <= p < q + |y| ==> (MatchAt(s, p, c) <==> (|u| + |x| <= p < q && ClauseAt(s, q, c)))
  {
    var r, q := |u| + |x|, |u| + |x| + |d|;
    assert s[q] == y[0];
    forall p | |u| <= p < q + |y|
      ensures MatchAt(s, p, c) <==> (r <= p < q && ClauseAt(s, q, c))
    {
      if p < r {
        assert s[p] == x[p - |u|];
      } else if p < q {
        forall i | p <= i < q ensures IsDigit(s[i]) {
          assert s[i] == d[i - r];
        }
        DigitEndRun(s, p, q);
      } else {
        assert s[p] == y[p - q];
      }
    }
    forall i | r <= i < q ensures IsDigit(s[i]) {
      assert s[i] == d[i - r];
    }
    DigitEndRun(s, r, q);
    assert s[r..q] == d;
  }

  /** The clause follows at `q` when `s` goes on there with a space, the
      unit word, an optional `s` and the sign in parentheses. */
  lemma ClauseFollows(s: string, q: nat, c: Clause, plural: string, rest: string)
    requires plural == "" || plural == "s"
    requires q <= |s| && s[q..] == " " + c.word + plural + "(" + [c.sign] + ")" + rest
    ensures ClauseAt(s, q, c)
  {
    if plural == "" {
      var pat := " " + c.word + "(" + [c.sign] + ")";
      assert s[q..][..|pat|] == pat;
    } else {
      var pat := " " + c.word + "s(" + [c.sign] + ")";
      assert s[q..][..|pat|] == pat;
    }
  }

  /** The unit word of the clause comes right after its space. */
  lemma ClauseFirstLetter(s: string, q: nat, c: Clause)
    requires q <= |s| && |c.word| > 0
    ensures ClauseAt(s, q, c) ==> q + 1 < |s| && s[q + 1] == c.word[0]
  {
    if ClauseAt(s, q, c) {
      var pat := if StartsWith(s[q..], " " + c.word + "(" + [c.sign] + ")")
        then " " + c.word + "(" + [c.sign] + ")" else " " + c.word + "s(" + [c.sign] + ")";
      assert StartsWith(s[q..], pat);
      assert s[q..][..|pat|][1] == pat[1];
    }
  }

  /** A piece whose text after the digits does not start with the clause's
      unit word holds no match of the pattern. */
  lemma PieceNoMatch(s: string, u: string, x: string, d: string, y: string, v: string, c: Clause)
    requires s == u + (x + d + y) + v
    requires AllDigits(d) && |d| > 0 && NoDigits(x) && NoDigits(y)
    requires |y| >= 2 && |c.word| > 0 && y[1] != c.word[0]
    ensures forall p :: |u| <= p < |u| + |x| + |d| + |y| ==> !MatchAt(s, p, c)
  {
    PieceMatches(s, u, x, d, y, v, c);
    var q := |u| + |x| + |d|;
    ClauseFirstLetter(s, q, c);
    assert s[q + 1] == y[1];
  }

  /** A piece whose digits the clause follows: the pattern first matches at
      its digits and reads them. */
  lemma PieceMatch(s: string, u: string, x: string, d: string, y: string, v: string, c: Clause, plural: string)
    requires s == u + (x + d + y) + v
    requires AllDigits(d) && |d| > 0 && NoDigits(x) && NoDigits(y)
    requires plural == "" || plural == "s"
    requires y == " " + c.word + plural + "(" + [c.sign] + ")"
    ensures var r := |u| + |x|;
      && MatchAt(s, r, c)
      && DigitEnd(s, r) == r + |d|
      && s[r..r + |d|] == d
      && forall p :: |u| <= p < r ==> !MatchAt(s, p, c)
  {
    PieceMatches(s, u, x, d, y, v, c);
    var q := |u| + |x| + |d|;
    assert s[q..] == y + v;
    ClauseFollows(s, q, c, plural, v);
  }

  /** Positions where the pattern does not match can be skipped. */
  lemma {:induction false} FirstMatchSkip(s: string, from: nat, to: nat, c: Clause)
    requires from <= to <= |s|
    requires forall p :: from <= p < to ==> !MatchAt(s, p, c)
    ensures FirstMatch(s, from, c) == FirstMatch(s, to, c)
    decreases |s| - from
  {
    if from < to {
      FirstMatchSkip(s, from + 1, to, c);
    }
  }

  /** When the pattern first matches at `r`, the count is the digits there. */
  lemma ClauseCountFirst(s: string, r: nat, c: Clause, d: string)
    requires r < |s| && MatchAt(s, r, c)
    requires forall p :: 0 <= p < r ==> !MatchAt(s, p, c)
    requires AllDigits(d) && DigitEnd(s, r) == r + |d| && s[r..r + |d|] == d
    ensures ClauseCount(s, c) == DecimalValue(d)
  {
    FirstMatchSkip(s, 0, r, c);
  }

  /** A line where the pattern matches nowhere counts 0. */
  lemma ClauseCountNone(s: string, c: Clause)
    requires forall p :: 0 <= p < |s| ==> !MatchAt(s, p, c)
    ensures ClauseCount(s, c) == 0
  {
    FirstMatchSkip(s, 0, |s|, c);
  }

  /** Two ways to group three pieces of text. */
  lemma Regroup(a: string, b: string, c: string)
    ensures a + b + c == a + (b + c)
  {
  }

  /** The empty text is a unit of concatenation. */
  lemma AppendEmpty(a: string)
    ensures a + "" == a && "" + a == a
  {
  }

  /** A text occurs where it stands. */
  lemma OccursBetween(a: string, t: string, b: string)
    ensures OccursAt(a + t + b, t, |a|)
  {
    assert (a + t + b)[|a|..|a| + |t|] == t;
  }

  /** An occurrence makes `strings.Contains` true. */
  lemma ContainsAt(s: string, t: string, k: int)
    requires OccursAt(s, t, k)
    ensures Contains(s, t)
  {
  }

  /** A `--shortstat` summary line: it holds `files changed` or `file changed`. */
  predicate IsStatLine(line: string) {
    Contains(line, "files changed") || Contains(line, "file changed")
  }

  /** Go's `a < b` on strings: byte-wise lexicographic order.  UTF-8 keeps the
      order of code points, so comparing characters gives the same answer. */
  predicate LexLess(a: string, b: string)
    decreases |a|
  {
    if |a| == 0 then |b| > 0
    else if |b| == 0 then false
    else if a[0] != b[0] then a[0] < b[0]
    else LexLess(a[1..], b[1..])
  }

  lemma {:induction false} LexLessIrreflexive(a: string)
    ensures !LexLess(a, a)
    decreases |a|
  {
    if |a| > 0 {
      LexLessIrreflexive(a[1..]);
    }
  }

  lemma {:induction false} LexLessTransitive(a: string, b: string, c: string)
    requires LexLess(a, b) && LexLess(b, c)
    ensures LexLess(a, c)
    decreases |a|
  {
    if |a| > 0 && a[0] == b[0] && b[0] == c[0] {
      LexLessTransitive(a[1..], b[1..], c[1..]);
    }
  }

  /** Of two different strings, one is less than the other. */
  lemma {:induction false} LexLessTotal(a: string, b: string)
    requires a != b
    ensures LexLess(a, b) || LexLess(b, a)
    decreases |a|
  {
    if |a| > 0 && |b| > 0 && a[0] == b[0] {
      assert a == [a[0]] + a[1..] && b == [b[0]] + b[1..];
      LexLessTotal(a[1..], b[1..]);
    }
  }

  /** A common prefix does not decide the order. */
  lemma {:induction false} LexLessCommonPrefix(p: string, a: string, b: string)
    ensures LexLess(p + a, p + b) <==> LexLess(a, b)
    decreases |p|
  {
    if |p| > 0 {
      assert (p + a)[1..] == p[1..] + a;
      assert (p + b)[1..] == p[1..] + b;
      LexLessCommonPrefix(p[1..], a, b);
    } else {
      assert p + a == a && p + b == b;
    }
  }

  /** Two different prefixes of the same length decide the order alone. */
  lemma {:induction false} LexLessSameLength(p: string, q: string, a: string, b: string)
    requires |p| == |q| && p != q
    ensures LexLess(p + a, q + b) <==> LexLess(p, q)
    decreases |p|
  {
    assert (p + a)[0] == p[0] && (q + b)[0] == q[0];
    if p[0] == q[0] {
      assert (p + a)[1..] == p[1..] + a;
      assert (q + b)[1..] == q[1..] + b;
      assert p == [p[0]] + p[1..] && q == [q[0]] + q[1..];
      LexLessSameLength(p[1..], q[1..], a, b);
    }
  }

  function Pow10(n: nat): (r: nat)
    ensures r >= 1
  {
    if n == 0 then 1 else 10 * Pow10(n - 1)
  }

  /** Exactly `n` decimal digits of `x`, the lowest last. */
  function FixedDigits(x: nat, n: nat): (s: string)
    ensures |s| == n
  {
    if n == 0 then [] else FixedDigits(x / 10, n - 1) + [DigitChar(x % 10)]
  }

  lemma {:induction false} FixedDigitsZero(n: nat)
    ensures FixedDigits(0, n) == seq(n, _ => '0')
  {
    if n > 0 {
      FixedDigitsZero(n - 1);
    }
  }

  /** A number with at most `n` digits is padded to exactly `n` digits. */
  lemma {:induction false} PaddedFixed(x: nat, n: nat)
    requires 1 <= n && x < Pow10(n)
    ensures Padded(x, n) == FixedDigits(x, n)
  {
    if x < 10 {
      FixedDigitsZero(n - 1);
      assert x / 10 == 0 && x % 10 == x;
    } else {
      assert n >= 2;
      assert x / 10 < Pow10(n - 1);
      PaddedFixed(x / 10, n - 1);
    }
  }

  /** On numbers of `n` digits, string order of the digits is numeric order. */
  lemma {:induction false} FixedDigitsOrder(x: nat, y: nat, n: nat)
    requires x < Pow10(n) && y < Pow10(n)
    ensures LexLess(FixedDigits(x, n), FixedDigits(y, n)) <==> x < y
  {
    if n == 0 {
      assert x == 0 && y == 0;
    } else {
      var px, py := FixedDigits(x / 10, n - 1), FixedDigits(y / 10, n - 1);
      var cx, cy := [DigitChar(x % 10)], [DigitChar(y % 10)];
      assert x / 10 < Pow10(n - 1) && y / 10 < Pow10(n - 1);
      FixedDigitsOrder(x / 10, y / 10, n - 1);
      if x / 10 == y / 10 {
        LexLessCommonPrefix(px, cx, cy);
        assert LexLess(cx, cy) <==> x % 10 < y % 10;
      } else {
        FixedDigitsInjective(x / 10, y / 10, n - 1);
        LexLessSameLength(px, py, cx, cy);
      }
    }
  }

  lemma {:induction false} FixedDigitsInjective(x: nat, y: nat, n: nat)
    requires x < Pow10(n) && y < Pow10(n) && x != y
    ensures FixedDigits(x, n) != FixedDigits(y, n)
  {
    assert n > 0;
    var sx, sy := FixedDigits(x, n), FixedDigits(y, n);
    if x % 10 != y % 10 {
      assert sx[n - 1] != sy[n - 1];
    } else {
      assert x / 10 != y / 10;
      assert x / 10 < Pow10(n - 1) && y / 10 < Pow10(n - 1);
      FixedDigitsInjective(x / 10, y / 10, n - 1);
      assert sx[..n - 1] == FixedDigits(x / 10, n - 1);
      assert sy[..n - 1] == FixedDigits(y / 10, n - 1);
    }
  }
}
