/**
 * The survey-cleaning pipeline of clean_surveys.py: a reduction that finds the
 * most recent year of each question, a semi-join that keeps only the rows of
 * that year, an augmentation that appends the year to the question field, and
 * a category filter. Each file is the sequence of lines `readlines()` returns;
 * each stage is a method that loops over the lines and returns the lines it
 * writes, specified by a function over the input lines.
 */
module CleanSurveys {
  import opened Text
  import opened Seqs
  import opened Files

  /** The column indices and accepted category that `main` passes to the stages. */
  const YearColumn: nat := 1
  const QuestionColumn: nat := 6
  const CategoryColumn: nat := 17
  const AcceptedCategories: seq<string> := ["Overall"]

  function Max(a: nat, b: nat): nat
  {
    if a < b then b else a
  }

  // ---------------------------------------------------------------------------
  // Fields of a line
  // ---------------------------------------------------------------------------

  /** `line.split(",")[col]` exists; otherwise Python raises IndexError. */
  predicate HasField(line: string, col: nat)
  {
    col < |Split(line)|
  }

  predicate AllHaveField(lines: seq<string>, col: nat)
  {
    forall i :: 0 <= i < |lines| ==> HasField(lines[i], col)
  }

  function Field(line: string, col: nat): string
    requires HasField(line, col)
  {
    Split(line)[col]
  }

  /** What a stage copies verbatim: the first line, when `header` is set. */
  function HeaderOf(lines: seq<string>, header: bool): seq<string>
  {
    if header && |lines| > 0 then lines[..1] else []
  }

  /** What a stage's loop sees: the lines `readlines()` returns after the header. */
  function Body(lines: seq<string>, header: bool): seq<string>
  {
    if header && |lines| > 0 then lines[1..] else lines
  }

  lemma BodyHasFields(lines: seq<string>, header: bool, col: nat)
    requires AllHaveField(lines, col)
    ensures AllHaveField(Body(lines, header), col)
  {
    var b := Body(lines, header);
    assert forall i :: 0 <= i < |b| ==> b[i] == lines[i + |lines| - |b|];
  }

  // ---------------------------------------------------------------------------
  // most_recent_years
  // ---------------------------------------------------------------------------

  /** `yrs[q] = max(yrs[q], y)`: a question without an entry yet takes y (the
      defaultdict's 0 compares below every string in Python 2). */
  function NoteYear(yrs: map<string, string>, q: string, y: string): map<string, string>
  {
    yrs[q := if q in yrs then LexMax(yrs[q], y) else y]
  }

  /** The dictionary after the loop has seen every line of `lines`. */
  function RecentYears(lines: seq<string>, yearCol: nat, qCol: nat): map<string, string>
    requires AllHaveField(lines, Max(yearCol, qCol))
  {
    if lines == [] then map[]
    else
      var last := lines[|lines| - 1];
      assert forall i :: 0 <= i < |lines| - 1 ==> lines[..|lines| - 1][i] == lines[i];
      NoteYear(RecentYears(lines[..|lines| - 1], yearCol, qCol), Field(last, qCol), Field(last, yearCol))
  }

  /**
   * yrs maps every question of `lines` to the greatest (in Python's string
   * order) year that any line of that question carries, and holds nothing else.
   */
  ghost predicate IsMostRecent(yrs: map<string, string>, lines: seq<string>, yearCol: nat, qCol: nat)
    requires AllHaveField(lines, Max(yearCol, qCol))
  {
    && (forall i :: 0 <= i < |lines| ==>
          Field(lines[i], qCol) in yrs && !LexLess(yrs[Field(lines[i], qCol)], Field(lines[i], yearCol)))
    && (forall q :: q in yrs ==>
          exists i :: 0 <= i < |lines| && Field(lines[i], qCol) == q && Field(lines[i], yearCol) == yrs[q])
  }

  lemma {:induction false} RecentYearsIsMostRecent(lines: seq<string>, yearCol: nat, qCol: nat)
    requires AllHaveField(lines, Max(yearCol, qCol))
    ensures IsMostRecent(RecentYears(lines, yearCol, qCol), lines, yearCol, qCol)
  {
    if lines != [] {
      var n := |lines| - 1;
      var prev := lines[..n];
      assert forall i :: 0 <= i < n ==> prev[i] == lines[i];
      RecentYearsIsMostRecent(prev, yearCol, qCol);
      var before := RecentYears(prev, yearCol, qCol);
      var q, y := Field(lines[n], qCol), Field(lines[n], yearCol);
      var yrs := RecentYears(lines, yearCol, qCol);
      assert yrs == NoteYear(before, q, y);
      forall i | 0 <= i < |lines|
        ensures Field(lines[i], qCol) in yrs && !LexLess(yrs[Field(lines[i], qCol)], Field(lines[i], yearCol))
      {
        if i == n {
          LexIrreflexive(y);
        } else if Field(lines[i], qCol) == q {
          assert Field(prev[i], qCol) in before;
          LexAtLeastTransitive(yrs[q], before[q], Field(prev[i], yearCol));
        } else {
          assert Field(prev[i], qCol) in before;
        }
      }
      forall k | k in yrs
        ensures exists i :: 0 <= i < |lines| && Field(lines[i], qCol) == k && Field(lines[i], yearCol) == yrs[k]
      {
        if k == q && yrs[k] == y {
          assert Field(lines[n], qCol) == k && Field(lines[n], yearCol) == yrs[k];
        } else {
          assert k in before && yrs[k] == before[k];
          var i :| 0 <= i < n && Field(prev[i], qCol) == k && Field(prev[i], yearCol) == before[k];
          assert prev[i] == lines[i];
        }
      }
    }
  }

  /** IsMostRecent pins the dictionary down: at most one map satisfies it. */
  lemma MostRecentUnique(a: map<string, string>, b: map<string, string>, lines: seq<string>, yearCol: nat, qCol: nat)
    requires AllHaveField(lines, Max(yearCol, qCol))
    requires IsMostRecent(a, lines, yearCol, qCol) && IsMostRecent(b, lines, yearCol, qCol)
    ensures a == b
  {
    forall k | k in a ensures k in b && a[k] == b[k] {
      var i :| 0 <= i < |lines| && Field(lines[i], qCol) == k && Field(lines[i], yearCol) == a[k];
      assert k in b;
      var j :| 0 <= j < |lines| && Field(lines[j], qCol) == k && Field(lines[j], yearCol) == b[k];
      if a[k] != b[k] {
        LexTotal(a[k], b[k]);
      }
    }
    forall k | k in b ensures k in a {
      var j :| 0 <= j < |lines| && Field(lines[j], qCol) == k && Field(lines[j], yearCol) == b[k];
    }
  }

  /**
   * most_recent_years (lines 13-38). The `header` flag has no effect: line 26
   * names `f.readline` without calling it, so the header line is folded into
   * the dictionary like any other line.
   */
  method MostRecentYears(lines: seq<string>, yearCol: nat, qCol: nat, header: bool) returns (yrs: map<string, string>)
    requires AllHaveField(lines, Max(yearCol, qCol))
    ensures IsMostRecent(yrs, lines, yearCol, qCol)
    ensures yrs == RecentYears(lines, yearCol, qCol)
  {
    yrs := map[];
    for i := 0 to |lines|
      invariant yrs == RecentYears(lines[..i], yearCol, qCol)
    {
      var parts := Split(lines[i]);
      var q := parts[qCol];
      var y := parts[yearCol];
      yrs := yrs[q := if q in yrs then LexMax(yrs[q], y) else y];
      assert lines[..i + 1][..i] == lines[..i];
    }
    assert lines[..|lines|] == lines;
    RecentYearsIsMostRecent(lines, yearCol, qCol);
  }

  /** The header line's own question is a key of the dictionary, holding at
      least the header's "year" text. */
  lemma HeaderIsFoldedIn(lines: seq<string>, yearCol: nat, qCol: nat)
    requires |lines| > 0 && AllHaveField(lines, Max(yearCol, qCol))
    ensures Field(lines[0], qCol) in RecentYears(lines, yearCol, qCol)
    ensures !LexLess(RecentYears(lines, yearCol, qCol)[Field(lines[0], qCol)], Field(lines[0], yearCol))
  {
    RecentYearsIsMostRecent(lines, yearCol, qCol);
  }

  /** most_recent_years as its docstring and its `header` flag intend: the
      header line is skipped and only data lines are folded in. */
  method MostRecentDataYears(lines: seq<string>, yearCol: nat, qCol: nat, header: bool) returns (yrs: map<string, string>)
    requires AllHaveField(Body(lines, header), Max(yearCol, qCol))
    ensures IsMostRecent(yrs, Body(lines, header), yearCol, qCol)
    ensures yrs == RecentYears(Body(lines, header), yearCol, qCol)
  {
    var rest := lines;
    if header && |lines| > 0 {
      rest := lines[1..];
    }
    yrs := MostRecentYears(rest, yearCol, qCol, false);
  }

  // ---------------------------------------------------------------------------
  // clean_file
  // ---------------------------------------------------------------------------

  /** The test at line 61: the line's col2 field is a key of dict mapping to
      its col1 field (a missing key reads the defaultdict's 0, never equal). */
  function MatchesEntry(dict: map<string, string>, col1: nat, col2: nat): string -> bool
  {
    line => HasField(line, Max(col1, col2)) && Field(line, col2) in dict && dict[Field(line, col2)] == Field(line, col1)
  }

  /** What clean_file writes. */
  function CleanedLines(lines: seq<string>, dict: map<string, string>, col1: nat, col2: nat, header: bool): seq<string>
  {
    HeaderOf(lines, header) + Filter(Body(lines, header), MatchesEntry(dict, col1, col2))
  }

  /** clean_file (lines 40-65): the header verbatim, then the lines that match
      their dictionary entry, unchanged and in order. */
  method CleanFile(lines: seq<string>, dict: map<string, string>, col1: nat, col2: nat, header: bool)
    returns (written: seq<string>)
    requires AllHaveField(Body(lines, header), Max(col1, col2))
    ensures written == CleanedLines(lines, dict, col1, col2, header)
  {
    written := [];
    var rest := lines;
    if header && |lines| > 0 {
      written := [lines[0]];
      rest := lines[1..];
    }
    for i := 0 to |rest|
      invariant written == HeaderOf(lines, header) + Filter(rest[..i], MatchesEntry(dict, col1, col2))
    {
      var parts := Split(rest[i]);
      if parts[col2] in dict && dict[parts[col2]] == parts[col1] {
        written := written + [rest[i]];
      }
      assert rest[..i + 1][..i] == rest[..i];
    }
    assert rest[..|rest|] == rest;
  }

  /** The line carries the greatest year of all lines of its question. */
  predicate HasGreatestYear(line: string, lines: seq<string>, yearCol: nat, qCol: nat)
    requires HasField(line, Max(yearCol, qCol)) && AllHaveField(lines, Max(yearCol, qCol))
  {
    forall i :: 0 <= i < |lines| && Field(lines[i], qCol) == Field(line, qCol) ==>
      !LexLess(Field(line, yearCol), Field(lines[i], yearCol))
  }

  function GreatestIn(lines: seq<string>, yearCol: nat, qCol: nat): string -> bool
  {
    line => HasField(line, Max(yearCol, qCol)) && AllHaveField(lines, Max(yearCol, qCol)) &&
      HasGreatestYear(line, lines, yearCol, qCol)
  }

  lemma {:induction false} FilterSameTest(s: seq<string>, p: string -> bool, q: string -> bool)
    requires forall i :: 0 <= i < |s| ==> p(s[i]) == q(s[i])
    ensures Filter(s, p) == Filter(s, q)
  {
    if s != [] {
      assert forall i :: 0 <= i < |s| - 1 ==> s[..|s| - 1][i] == s[i];
      FilterSameTest(s[..|s| - 1], p, q);
    }
  }

  /** Filtering lines drawn from a file against the dictionary built from
      the whole file keeps exactly those carrying the greatest year of their
      question. */
  lemma MatchesIsGreatestOn(lines: seq<string>, body: seq<string>, yearCol: nat, qCol: nat)
    requires AllHaveField(lines, Max(yearCol, qCol))
    requires forall i :: 0 <= i < |body| ==> body[i] in lines
    ensures Filter(body, MatchesEntry(RecentYears(lines, yearCol, qCol), yearCol, qCol))
         == Filter(body, GreatestIn(lines, yearCol, qCol))
  {
    var yrs := RecentYears(lines, yearCol, qCol);
    RecentYearsIsMostRecent(lines, yearCol, qCol);
    forall i | 0 <= i < |body|
      ensures MatchesEntry(yrs, yearCol, qCol)(body[i]) == GreatestIn(lines, yearCol, qCol)(body[i])
    {
      var l := body[i];
      var j :| 0 <= j < |lines| && lines[j] == l;
      var q, y := Field(l, qCol), Field(l, yearCol);
      assert q in yrs && !LexLess(yrs[q], y);
      if yrs[q] == y {
        forall k | 0 <= k < |lines| && Field(lines[k], qCol) == q
          ensures !LexLess(y, Field(lines[k], yearCol))
        {
        }
      } else {
        var k :| 0 <= k < |lines| && Field(lines[k], qCol) == q && Field(lines[k], yearCol) == yrs[q];
        LexTotal(yrs[q], y);
        assert !HasGreatestYear(l, lines, yearCol, qCol);
      }
    }
    FilterSameTest(body, MatchesEntry(yrs, yearCol, qCol), GreatestIn(lines, yearCol, qCol));
  }

  /**
   * The semi-join of lines 149-151: filtering a file against the dictionary
   * that most_recent_years built from the same file keeps exactly the data
   * lines that carry the greatest year of their question (compared against
   * every line, the header included), unchanged and in order.
   */
  lemma SemiJoinKeepsGreatest(lines: seq<string>, yearCol: nat, qCol: nat, header: bool)
    requires AllHaveField(lines, Max(yearCol, qCol))
    ensures CleanedLines(lines, RecentYears(lines, yearCol, qCol), yearCol, qCol, header)
         == HeaderOf(lines, header) + Filter(Body(lines, header), GreatestIn(lines, yearCol, qCol))
  {
    var body := Body(lines, header);
    forall i | 0 <= i < |body| ensures body[i] in lines {
      assert body[i] == lines[i + |lines| - |body|];
    }
    MatchesIsGreatestOn(lines, body, yearCol, qCol);
  }

  /** main's first two stages, line by line: every kept data line carries the
      greatest year of its question, and every data line that attains its
      question's entry in the dictionary is kept. */
  lemma CleanKeepsGreatestPerQuestion(lines: seq<string>, yearCol: nat, qCol: nat, header: bool)
    requires AllHaveField(lines, Max(yearCol, qCol))
    ensures AllHaveField(Body(lines, header), Max(yearCol, qCol))
    ensures var yrs := RecentYears(lines, yearCol, qCol);
      var body := Body(lines, header);
      var kept := Filter(body, MatchesEntry(yrs, yearCol, qCol));
      && (forall l :: l in kept ==> l in body && HasField(l, Max(yearCol, qCol)) && HasGreatestYear(l, lines, yearCol, qCol))
      && (forall i :: 0 <= i < |body| && Field(body[i], qCol) in yrs && Field(body[i], yearCol) == yrs[Field(body[i], qCol)]
            ==> body[i] in kept)
  {
    var yrs := RecentYears(lines, yearCol, qCol);
    var body := Body(lines, header);
    BodyHasFields(lines, header, Max(yearCol, qCol));
    var m := MatchesEntry(yrs, yearCol, qCol);
    var g := GreatestIn(lines, yearCol, qCol);
    forall i | 0 <= i < |body| ensures body[i] in lines {
      assert body[i] == lines[i + |lines| - |body|];
    }
    MatchesIsGreatestOn(lines, body, yearCol, qCol);
    FilterMembers(body, g);
    forall l | l in Filter(body, m)
      ensures l in body && HasField(l, Max(yearCol, qCol)) && HasGreatestYear(l, lines, yearCol, qCol)
    {
      assert l in Filter(body, g);
    }
    FilterMembers(body, m);
    forall i | 0 <= i < |body| && Field(body[i], qCol) in yrs && Field(body[i], yearCol) == yrs[Field(body[i], qCol)]
      ensures body[i] in Filter(body, m)
    {
      assert m(body[i]);
    }
  }

  // ---------------------------------------------------------------------------
  // append_year_to_different_column
  // ---------------------------------------------------------------------------

  /** `parts[q_col] += " (%s)" % parts[y_col]` (line 89). */
  function WithYear(parts: seq<string>, yCol: nat, qCol: nat): seq<string>
    requires yCol < |parts| && qCol < |parts|
  {
    parts[qCol := parts[qCol] + " (" + parts[yCol] + ")"]
  }

  /** The line written for one data line at lines 88-96. */
  function AugmentedLine(line: string, yCol: nat, qCol: nat): string
    requires HasField(line, Max(yCol, qCol))
  {
    Join(WithYear(Split(line), yCol, qCol))
  }

  /** The augmented lines of all data lines, in order. */
  function AugmentAll(lines: seq<string>, yCol: nat, qCol: nat): seq<string>
    requires AllHaveField(lines, Max(yCol, qCol))
  {
    if lines == [] then []
    else
      assert forall i :: 0 <= i < |lines| - 1 ==> lines[..|lines| - 1][i] == lines[i];
      AugmentAll(lines[..|lines| - 1], yCol, qCol) + [AugmentedLine(lines[|lines| - 1], yCol, qCol)]
  }

  /** What append_year_to_different_column writes. */
  function AugmentedLines(lines: seq<string>, yCol: nat, qCol: nat, header: bool): seq<string>
    requires AllHaveField(Body(lines, header), Max(yCol, qCol))
  {
    HeaderOf(lines, header) + AugmentAll(Body(lines, header), yCol, qCol)
  }

  /** Lines 90-94: append every part and a comma, then drop the last character
      (`[:-1]` leaves an empty string empty). */
  method JoinFields(parts: seq<string>) returns (line: string)
    ensures line == Join(parts)
  {
    line := "";
    for k := 0 to |parts|
      invariant line == if k == 0 then "" else Join(parts[..k]) + ","
    {
      if k > 0 {
        JoinSnoc(parts[..k], parts[k]);
        assert parts[..k + 1] == parts[..k] + [parts[k]];
      } else {
        assert parts[..1] == [parts[0]];
      }
      line := line + parts[k];
      line := line + ",";
    }
    if |line| > 0 {
      line := line[..|line| - 1];
    }
    assert parts[..|parts|] == parts;
  }

  /** append_year_to_different_column (lines 67-99). */
  method AppendYearToDifferentColumn(lines: seq<string>, yCol: nat, qCol: nat, header: bool)
    returns (written: seq<string>)
    requires AllHaveField(Body(lines, header), Max(yCol, qCol))
    ensures written == AugmentedLines(lines, yCol, qCol, header)
  {
    written := [];
    var rest := lines;
    if header && |lines| > 0 {
      written := [lines[0]];
      rest := lines[1..];
    }
    for i := 0 to |rest|
      invariant written == HeaderOf(lines, header) + AugmentAll(rest[..i], yCol, qCol)
    {
      var parts := Split(rest[i]);
      parts := parts[qCol := parts[qCol] + " (" + parts[yCol] + ")"];
      var newLine := JoinFields(parts);
      written := written + [newLine];
      assert rest[..i + 1][..i] == rest[..i];
    }
    assert rest[..|rest|] == rest;
  }

  /** One output line per data line, in order; the header copied verbatim. */
  lemma {:induction false} AugmentAllPointwise(lines: seq<string>, yCol: nat, qCol: nat)
    requires AllHaveField(lines, Max(yCol, qCol))
    ensures |AugmentAll(lines, yCol, qCol)| == |lines|
    ensures forall i :: 0 <= i < |lines| ==> AugmentAll(lines, yCol, qCol)[i] == AugmentedLine(lines[i], yCol, qCol)
  {
    if lines != [] {
      var prev := lines[..|lines| - 1];
      assert forall i :: 0 <= i < |prev| ==> prev[i] == lines[i];
      AugmentAllPointwise(prev, yCol, qCol);
    }
  }

  lemma AugmentedLinesShape(lines: seq<string>, yCol: nat, qCol: nat, header: bool)
    requires AllHaveField(Body(lines, header), Max(yCol, qCol))
    ensures var out := AugmentedLines(lines, yCol, qCol, header);
      && |out| == |lines|
      && (header && |lines| > 0 ==> out[0] == lines[0])
      && forall i :: |HeaderOf(lines, header)| <= i < |lines| ==>
           HasField(lines[i], Max(yCol, qCol)) && out[i] == AugmentedLine(lines[i], yCol, qCol)
  {
    var body := Body(lines, header);
    AugmentAllPointwise(body, yCol, qCol);
    var h := |HeaderOf(lines, header)|;
    assert forall i :: h <= i < |lines| ==> lines[i] == body[i - h];
  }

  /**
   * Re-splitting an augmented line gives back the same number of fields, all
   * unchanged except the question field, which gains " (year)": the year is a
   * comma-free field, so no comma is added. The input line itself is the
   * comma-join of its own fields.
   */
  lemma AugmentedLineFields(line: string, yCol: nat, qCol: nat)
    requires HasField(line, Max(yCol, qCol))
    ensures line == Join(Split(line))
    ensures Split(AugmentedLine(line, yCol, qCol)) == WithYear(Split(line), yCol, qCol)
    ensures |Split(AugmentedLine(line, yCol, qCol))| == |Split(line)|
    ensures forall c :: 0 <= c < |Split(line)| && c != qCol ==> Split(AugmentedLine(line, yCol, qCol))[c] == Split(line)[c]
    ensures Split(AugmentedLine(line, yCol, qCol))[qCol] == Field(line, qCol) + " (" + Field(line, yCol) + ")"
  {
    JoinOfSplit(line);
    var parts := Split(line);
    SplitFieldsCommaFree(line);
    var parts' := WithYear(parts, yCol, qCol);
    assert CommaFree(parts[qCol]) && CommaFree(parts[yCol]);
    assert CommaFree(parts'[qCol]);
    assert AllCommaFree(parts');
    SplitOfJoin(parts');
  }

  /** Recovers the line an augmented line came from: strips " (year)" from the
      question field, the year being read from the year field. */
  function WithoutYear(line: string, yCol: nat, qCol: nat): Option<string>
  {
    var parts := Split(line);
    if yCol < |parts| && qCol < |parts| then
      var suffix := " (" + parts[yCol] + ")";
      var f := parts[qCol];
      if |suffix| <= |f| && f[|f| - |suffix|..] == suffix then
        Some(Join(parts[qCol := f[..|f| - |suffix|]]))
      else None
    else None
  }

  /** Augmentation can be undone when the year and question columns differ. */
  lemma AugmentedLineInverse(line: string, yCol: nat, qCol: nat)
    requires HasField(line, Max(yCol, qCol)) && yCol != qCol
    ensures WithoutYear(AugmentedLine(line, yCol, qCol), yCol, qCol) == Some(line)
  {
    AugmentedLineFields(line, yCol, qCol);
    var parts := Split(line);
    var a := AugmentedLine(line, yCol, qCol);
    var parts' := Split(a);
    var suffix := " (" + parts'[yCol] + ")";
    assert parts'[yCol] == parts[yCol];
    var f := parts'[qCol];
    assert f == parts[qCol] + suffix;
    assert f[|f| - |suffix|..] == suffix;
    assert f[..|f| - |suffix|] == parts[qCol];
    assert parts'[qCol := f[..|f| - |suffix|]] == parts;
  }

  /** Distinct lines stay distinct after augmentation, whether or not the
      year and question columns differ. */
  lemma AugmentedLineInjective(a: string, b: string, yCol: nat, qCol: nat)
    requires HasField(a, Max(yCol, qCol)) && HasField(b, Max(yCol, qCol))
    requires AugmentedLine(a, yCol, qCol) == AugmentedLine(b, yCol, qCol)
    ensures a == b
  {
    AugmentedLineFields(a, yCol, qCol);
    AugmentedLineFields(b, yCol, qCol);
    var pa, pb := Split(a), Split(b);
    var fa, fb := pa[qCol], pb[qCol];
    var sa, sb := fa + " (" + pa[yCol] + ")", fb + " (" + pb[yCol] + ")";
    assert sa == sb;
    if yCol != qCol {
      assert pa[yCol] == pb[yCol];
    } else {
      assert |sa| == 2 * |fa| + 3 && |sb| == 2 * |fb| + 3;
    }
    assert |fa| == |fb|;
    assert fa == sa[..|fa|] && fb == sb[..|fb|];
    forall c | 0 <= c < |pa| ensures pa[c] == pb[c] {
      if c == qCol {
        assert fa == fb;
      }
    }
    assert pa == pb;
  }

  /** When a field follows both columns, a line and its augmented line end
      in the same last field: `line == Join(init) + "," + last` while the
      augmented line is `Join(WithYear(init, ..)) + "," + last`. */
  lemma AugmentedLineLastField(line: string, yCol: nat, qCol: nat)
    requires HasField(line, Max(yCol, qCol) + 1)
    ensures var parts := Split(line);
      var init := parts[..|parts| - 1];
      && yCol < |init| && qCol < |init|
      && line == Join(init) + ("," + parts[|parts| - 1])
      && AugmentedLine(line, yCol, qCol) == Join(WithYear(init, yCol, qCol)) + ("," + parts[|parts| - 1])
  {
    var parts := Split(line);
    var n := |parts|;
    var init, last := parts[..n - 1], parts[n - 1];
    assert parts == init + [last];
    assert WithYear(parts, yCol, qCol) == WithYear(init, yCol, qCol) + [last];
    JoinOfSplit(line);
    JoinSnoc(init, last);
    JoinSnoc(WithYear(init, yCol, qCol), last);
  }

  /** When neither column is the last field, the trailing "\n" stays at the
      end of the line and no newline appears inside it. */
  lemma AugmentedLineKeepsLineEnd(line: string, yCol: nat, qCol: nat)
    requires HasField(line, Max(yCol, qCol) + 1)
    ensures IsLineText(line) ==> IsLineText(AugmentedLine(line, yCol, qCol))
    ensures Terminated(line) ==> Terminated(AugmentedLine(line, yCol, qCol))
    ensures Terminated(AugmentedLine(line, yCol, qCol)) ==> Terminated(line)
  {
    AugmentedLineLastField(line, yCol, qCol);
    var parts := Split(line);
    var init := parts[..|parts| - 1];
    var init' := WithYear(init, yCol, qCol);
    var w := "," + parts[|parts| - 1];
    var a := AugmentedLine(line, yCol, qCol);
    assert a[|a| - 1] == w[|w| - 1] == line[|line| - 1];
    if IsLineText(line) {
      assert line[..|line| - 1] == Join(init) + w[..|w| - 1];
      JoinOmits(init, '\n');
      assert '\n' !in init[qCol] && '\n' !in init[yCol];
      assert '\n' !in init'[qCol];
      JoinOmits(init', '\n');
      assert a[..|a| - 1] == Join(init') + w[..|w| - 1];
    }
  }

  // ---------------------------------------------------------------------------
  // filter_csv
  // ---------------------------------------------------------------------------

  /** A Python value that line 131 looks up among strings: a string, or the
      bound method `s.lower` of a string, which is never called. */
  datatype Value = Str(s: string) | LowerMethod(of: string)

  function Strs(ss: seq<string>): seq<Value>
  {
    seq(|ss|, i requires 0 <= i < |ss| => Str(ss[i]))
  }

  /** The test at line 125: `parts[col] in accepted`. */
  function FieldIn(col: nat, accepted: seq<string>): string -> bool
  {
    line => HasField(line, col) && Field(line, col) in accepted
  }

  /** The test at line 131: `parts[col].lower in accepted`, with accepted
      already lower-cased at line 128. */
  function LowerMethodIn(col: nat, accepted: seq<Value>): string -> bool
  {
    line => HasField(line, col) && LowerMethod(Field(line, col)) in accepted
  }

  function FilterTest(col: nat, accepted: seq<string>, caseSensitive: bool): string -> bool
  {
    if caseSensitive then FieldIn(col, accepted) else LowerMethodIn(col, Strs(LowerAll(accepted)))
  }

  /** What filter_csv writes. */
  function FilteredLines(lines: seq<string>, col: nat, accepted: seq<string>, header: bool, caseSensitive: bool): seq<string>
  {
    HeaderOf(lines, header) + Filter(Body(lines, header), FilterTest(col, accepted, caseSensitive))
  }

  /** The loop at lines 123-126: keep the lines whose col field is accepted. */
  method KeepAccepted(rest: seq<string>, col: nat, accepted: seq<string>) returns (kept: seq<string>)
    requires AllHaveField(rest, col)
    ensures kept == Filter(rest, FieldIn(col, accepted))
  {
    kept := [];
    ghost var test := FieldIn(col, accepted);
    for i := 0 to |rest|
      invariant kept == Filter(rest[..i], test)
    {
      var parts := Split(rest[i]);
      if parts[col] in accepted {
        kept := kept + [rest[i]];
      }
      assert rest[..i + 1] == rest[..i] + [rest[i]];
      FilterSnoc(rest[..i], rest[i], test);
    }
    assert rest[..|rest|] == rest;
  }

  /** The loop at lines 129-132: keep the lines whose bound method
      `parts[col].lower` occurs among the values; no line is kept when the
      values are all strings. */
  method KeepLowerMethodMatches(rest: seq<string>, col: nat, values: seq<Value>) returns (kept: seq<string>)
    requires AllHaveField(rest, col)
    ensures kept == Filter(rest, LowerMethodIn(col, values))
    ensures (forall j :: 0 <= j < |values| ==> values[j].Str?) ==> kept == []
  {
    kept := [];
    ghost var test := LowerMethodIn(col, values);
    for i := 0 to |rest|
      invariant kept == Filter(rest[..i], test)
      invariant (forall j :: 0 <= j < |values| ==> values[j].Str?) ==> kept == []
    {
      var parts := Split(rest[i]);
      if LowerMethod(parts[col]) in values {
        kept := kept + [rest[i]];
      }
      assert rest[..i + 1] == rest[..i] + [rest[i]];
      FilterSnoc(rest[..i], rest[i], test);
    }
    assert rest[..|rest|] == rest;
  }

  /**
   * filter_csv (lines 101-135). Case-sensitive: the header, then exactly the
   * lines whose col field is accepted, unchanged and in order. Otherwise, as
   * written, a bound method never equals a string, so only the header is kept.
   */
  method FilterCsv(lines: seq<string>, col: nat, accepted: seq<string>, header: bool, caseSensitive: bool)
    returns (written: seq<string>)
    requires AllHaveField(Body(lines, header), col)
    ensures written == FilteredLines(lines, col, accepted, header, caseSensitive)
    ensures !caseSensitive ==> written == HeaderOf(lines, header)
  {
    written := [];
    var rest := lines;
    if header && |lines| > 0 {
      written := [lines[0]];
      rest := lines[1..];
    }
    if caseSensitive {
      var kept := KeepAccepted(rest, col, accepted);
      written := written + kept;
    } else {
      var lowered := Strs(LowerAll(accepted));
      var kept := KeepLowerMethodMatches(rest, col, lowered);
      written := written + kept;
    }
  }

  /** A bound method is never equal to a string. */
  lemma NoMethodAmongStrings(x: string, ss: seq<string>)
    ensures LowerMethod(x) !in Strs(ss)
  {
    var vs := Strs(ss);
    assert forall j :: 0 <= j < |vs| ==> vs[j].Str?;
  }

  /** Running filter_csv on its own output changes nothing. */
  lemma FilteredLinesIdempotent(lines: seq<string>, col: nat, accepted: seq<string>, header: bool, caseSensitive: bool)
    ensures var once := FilteredLines(lines, col, accepted, header, caseSensitive);
      FilteredLines(once, col, accepted, header, caseSensitive) == once
  {
    var p := FilterTest(col, accepted, caseSensitive);
    var kept := Filter(Body(lines, header), p);
    var once := FilteredLines(lines, col, accepted, header, caseSensitive);
    FilterIdempotent(Body(lines, header), p);
    if header && |lines| > 0 {
      assert once[..1] == lines[..1] && once[1..] == kept;
    } else if header {
      assert Filter(lines, p) == [];
      assert once == [];
    }
    assert HeaderOf(once, header) == HeaderOf(lines, header);
    assert Body(once, header) == kept;
  }

  /** The evidently intended case-insensitive test: the lower-cased field is
      among the lower-cased accepted strings. */
  function FoldedIn(col: nat, lowered: seq<string>): string -> bool
  {
    line => HasField(line, col) && Lower(Field(line, col)) in lowered
  }

  /** The loop of filter_csv's case-insensitive branch as intended: it calls
      `.lower()` on the field. */
  method KeepFolded(rest: seq<string>, col: nat, lowered: seq<string>) returns (kept: seq<string>)
    requires AllHaveField(rest, col)
    ensures kept == Filter(rest, FoldedIn(col, lowered))
  {
    kept := [];
    ghost var test := FoldedIn(col, lowered);
    for i := 0 to |rest|
      invariant kept == Filter(rest[..i], test)
    {
      var parts := Split(rest[i]);
      if Lower(parts[col]) in lowered {
        kept := kept + [rest[i]];
      }
      assert rest[..i + 1] == rest[..i] + [rest[i]];
      FilterSnoc(rest[..i], rest[i], test);
    }
    assert rest[..|rest|] == rest;
  }

  /** filter_csv with `case_sensitive=False` as intended. */
  method FilterCsvIgnoringCase(lines: seq<string>, col: nat, accepted: seq<string>, header: bool)
    returns (written: seq<string>)
    requires AllHaveField(Body(lines, header), col)
    ensures written == HeaderOf(lines, header) + Filter(Body(lines, header), FoldedIn(col, LowerAll(accepted)))
  {
    written := [];
    var rest := lines;
    if header && |lines| > 0 {
      written := [lines[0]];
      rest := lines[1..];
    }
    var lowered := LowerAll(accepted);
    var kept := KeepFolded(rest, col, lowered);
    written := written + kept;
  }

  /** The intended test keeps a line exactly when its field equals an accepted
      string up to the case of ASCII letters ("overall" as well as "Overall"). */
  lemma FoldedInIgnoresCase(line: string, col: nat, accepted: seq<string>)
    requires HasField(line, col)
    ensures FoldedIn(col, LowerAll(accepted))(line) <==>
      exists j :: 0 <= j < |accepted| && EqualIgnoringCase(Field(line, col), accepted[j])
  {
    LowerInLowerAll(Field(line, col), accepted);
  }

  // ---------------------------------------------------------------------------
  // Facts the pipeline needs about each stage's output
  // ---------------------------------------------------------------------------

  /** Lines a filter keeps carry every field the input lines carry. */
  lemma KeptHaveField(s: seq<string>, p: string -> bool, col: nat)
    requires AllHaveField(s, col)
    ensures AllHaveField(Filter(s, p), col)
  {
    var t := Filter(s, p);
    FilterMembers(s, p);
    forall i | 0 <= i < |t| ensures HasField(t[i], col) {
      var x := t[i];
      assert x in Filter(s, p);
      var k :| 0 <= k < |s| && s[k] == x;
    }
  }

  /** A stage that copies the header and keeps some data lines writes proper lines. */
  lemma HeaderAndKeptAreLines(lines: seq<string>, p: string -> bool)
    requires LineSeq(lines)
    ensures LineSeq(HeaderOf(lines, true) + Filter(Body(lines, true), p))
  {
    if lines != [] {
      var body := lines[1..];
      assert LineSeq(body) by {
        assert forall i :: 0 <= i < |body| ==> body[i] == lines[i + 1];
      }
      LineSeqFilter(body, p);
      var kept := Filter(body, p);
      FilterMembers(body, p);
      if kept != [] {
        assert kept[0] in Filter(body, p);
        assert |lines| > 1;
      }
      LineSeqCons(lines[0], kept);
      assert lines[..1] == [lines[0]];
    }
  }

  /** Augmenting proper lines whose year and question are not the last field
      gives proper lines. */
  lemma {:induction false} AugmentAllAreLines(lines: seq<string>, yCol: nat, qCol: nat)
    requires LineSeq(lines) && AllHaveField(lines, Max(yCol, qCol) + 1)
    ensures AllHaveField(lines, Max(yCol, qCol))
    ensures LineSeq(AugmentAll(lines, yCol, qCol))
  {
    AugmentAllPointwise(lines, yCol, qCol);
    var out := AugmentAll(lines, yCol, qCol);
    forall i | 0 <= i < |out| ensures IsLineText(out[i]) && (i < |out| - 1 ==> Terminated(out[i])) {
      AugmentedLineKeepsLineEnd(lines[i], yCol, qCol);
    }
  }

  lemma AugmentedLinesAreLines(lines: seq<string>, yCol: nat, qCol: nat)
    requires LineSeq(lines) && AllHaveField(Body(lines, true), Max(yCol, qCol) + 1)
    ensures AllHaveField(Body(lines, true), Max(yCol, qCol))
    ensures LineSeq(AugmentedLines(lines, yCol, qCol, true))
  {
    var body := Body(lines, true);
    assert LineSeq(body) by {
      assert forall i :: 0 <= i < |body| ==> body[i] == lines[i + |lines| - |body|];
    }
    AugmentAllAreLines(body, yCol, qCol);
    if lines != [] {
      AugmentAllPointwise(body, yCol, qCol);
      LineSeqCons(lines[0], AugmentAll(body, yCol, qCol));
      assert lines[..1] == [lines[0]];
    }
  }

  /** Augmentation keeps every field a line has. */
  lemma AugmentAllHasField(lines: seq<string>, yCol: nat, qCol: nat, col: nat)
    requires AllHaveField(lines, Max(yCol, qCol)) && AllHaveField(lines, col)
    ensures AllHaveField(AugmentAll(lines, yCol, qCol), col)
  {
    AugmentAllPointwise(lines, yCol, qCol);
    forall i | 0 <= i < |lines| ensures HasField(AugmentAll(lines, yCol, qCol)[i], col) {
      AugmentedLineFields(lines[i], yCol, qCol);
    }
  }

  /** The corrected case-insensitive filter on a column other than the
      question column commutes with augmentation: that column is left
      unchanged. */
  lemma {:induction false} FilterAugmentCommute(lines: seq<string>, yCol: nat, qCol: nat, col: nat, lowered: seq<string>)
    requires AllHaveField(lines, Max(yCol, qCol)) && AllHaveField(lines, col) && col != qCol
    ensures AllHaveField(Filter(lines, FoldedIn(col, lowered)), Max(yCol, qCol))
    ensures Filter(AugmentAll(lines, yCol, qCol), FoldedIn(col, lowered))
         == AugmentAll(Filter(lines, FoldedIn(col, lowered)), yCol, qCol)
  {
    var test := FoldedIn(col, lowered);
    KeptHaveField(lines, test, Max(yCol, qCol));
    if lines != [] {
      var n := |lines| - 1;
      var prev, x := lines[..n], lines[n];
      assert forall i :: 0 <= i < n ==> prev[i] == lines[i];
      FilterAugmentCommute(prev, yCol, qCol, col, lowered);
      AugmentedLineFields(x, yCol, qCol);
      var a := AugmentedLine(x, yCol, qCol);
      assert HasField(a, col) && Field(a, col) == Field(x, col);
      assert test(a) == test(x);
      FilterSnoc(AugmentAll(prev, yCol, qCol), a, test);
      assert AugmentAll(lines, yCol, qCol) == AugmentAll(prev, yCol, qCol) + [a];
      var kept := Filter(prev, test);
      KeptHaveField(prev, test, Max(yCol, qCol));
      if test(x) {
        assert Filter(lines, test) == kept + [x];
        assert (kept + [x])[..|kept|] == kept;
        assert AugmentAll(kept + [x], yCol, qCol) == AugmentAll(kept, yCol, qCol) + [a];
      } else {
        assert Filter(lines, test) == kept;
      }
    }
  }

  // ---------------------------------------------------------------------------
  // main (lines 137-158): the four stages chained through files
  // ---------------------------------------------------------------------------

  /** The crash-free condition of `main`: every field that a stage splits out exists. */
  predicate PipelineDefined(input: seq<string>)
  {
    && AllHaveField(input, Max(YearColumn, QuestionColumn))
    && var temp1 := Reread(CleanedLines(input, RecentYears(input, YearColumn, QuestionColumn), YearColumn, QuestionColumn, true));
       && AllHaveField(Body(temp1, true), Max(YearColumn, QuestionColumn))
       && AllHaveField(Body(Reread(AugmentedLines(temp1, YearColumn, QuestionColumn, true)), true), CategoryColumn)
  }

  /** Lines 149-155, each temporary file written and read back. */
  function Pipeline(input: seq<string>): seq<string>
    requires PipelineDefined(input)
  {
    var years := RecentYears(input, YearColumn, QuestionColumn);
    var temp1 := Reread(CleanedLines(input, years, YearColumn, QuestionColumn, true));
    var temp2 := Reread(AugmentedLines(temp1, YearColumn, QuestionColumn, true));
    FilteredLines(temp2, CategoryColumn, AcceptedCategories, true, false)
  }

  /** `main` after argument handling: the stages run one after the other. */
  method Run(input: seq<string>) returns (output: seq<string>)
    requires PipelineDefined(input)
    ensures output == Pipeline(input)
  {
    var years := MostRecentYears(input, YearColumn, QuestionColumn, true);
    BodyHasFields(input, true, Max(YearColumn, QuestionColumn));
    var written := CleanFile(input, years, YearColumn, QuestionColumn, true);
    var temp1 := ReadLines(Concat(written));
    written := AppendYearToDifferentColumn(temp1, YearColumn, QuestionColumn, true);
    var temp2 := ReadLines(Concat(written));
    output := FilterCsv(temp2, CategoryColumn, AcceptedCategories, true, false);
  }

  /** A file as `main` expects it: lines as `readlines()` returns them, the
      header holding the year and question columns and every data line
      holding every column up to the category. */
  predicate SurveyFile(input: seq<string>)
  {
    && LineSeq(input)
    && (|input| > 0 ==> HasField(input[0], Max(YearColumn, QuestionColumn)))
    && AllHaveField(Body(input, true), CategoryColumn)
  }

  lemma SurveyFileHasFields(input: seq<string>)
    requires SurveyFile(input)
    ensures AllHaveField(input, Max(YearColumn, QuestionColumn))
    ensures AllHaveField(Body(input, true), Max(YearColumn, QuestionColumn) + 1)
  {
    var body := Body(input, true);
    assert forall i :: 1 <= i < |input| ==> input[i] == body[i - 1];
  }

  /** On a well-formed survey file, no stage of `main` raises an index error:
      the first three stages keep the needed columns and every temporary
      file reads back as written. */
  lemma SurveyFileRunsMain(input: seq<string>)
    requires SurveyFile(input)
    ensures PipelineDefined(input)
  {
    var y, q := YearColumn, QuestionColumn;
    SurveyFileHasFields(input);
    var body := Body(input, true);
    var years := RecentYears(input, y, q);
    var test := MatchesEntry(years, y, q);
    var cleaned := CleanedLines(input, years, y, q, true);
    HeaderAndKeptAreLines(input, test);
    RereadLines(cleaned);
    var kept := Filter(body, test);
    KeptHaveField(body, test, Max(y, q) + 1);
    KeptHaveField(body, test, CategoryColumn);
    assert Body(cleaned, true) == kept;
    AugmentedLinesAreLines(cleaned, y, q);
    var augmented := AugmentedLines(cleaned, y, q, true);
    RereadLines(augmented);
    AugmentAllHasField(kept, y, q, CategoryColumn);
    assert Body(augmented, true) == AugmentAll(kept, y, q);
  }

  /**
   * As written, whenever `main` runs without an index error on lines that
   * `readlines()` can return, it produces only the header line of its input:
   * the header is the first line of every temporary file, and the
   * case-insensitive category filter of line 155 keeps no data line.
   */
  lemma PipelineKeepsOnlyHeader(input: seq<string>)
    requires LineSeq(input) && PipelineDefined(input)
    ensures Pipeline(input) == HeaderOf(input, true)
  {
    var y, q := YearColumn, QuestionColumn;
    var years := RecentYears(input, y, q);
    var temp1 := Reread(CleanedLines(input, years, y, q, true));
    var temp2 := Reread(AugmentedLines(temp1, y, q, true));
    if input == [] {
      assert CleanedLines(input, years, y, q, true) == [];
      assert temp1 == [] && AugmentedLines(temp1, y, q, true) == [];
      assert temp2 == [];
    } else {
      var h := input[0];
      var kept := Filter(input[1..], MatchesEntry(years, y, q));
      assert input[..1] == [h];
      assert CleanedLines(input, years, y, q, true) == [h] + kept;
      if |input| == 1 {
        assert input[1..] == [];
      }
      RereadKeepsFirst(h, kept);
      assert temp1 == [h] + Reread(kept);
      assert temp1[..1] == [h] && temp1[1..] == Reread(kept);
      var augmented := AugmentAll(Reread(kept), y, q);
      assert AugmentedLines(temp1, y, q, true) == [h] + augmented;
      if !Terminated(h) {
        assert kept == [] && Reread(kept) == [];
      }
      RereadKeepsFirst(h, augmented);
      assert temp2 == [h] + Reread(augmented);
      assert HeaderOf(temp2, true) == [h] && Body(temp2, true) == Reread(augmented);
    }
    var final := Body(temp2, true);
    forall i | 0 <= i < |final| ensures !FilterTest(CategoryColumn, AcceptedCategories, false)(final[i]) {
      if HasField(final[i], CategoryColumn) {
        NoMethodAmongStrings(Field(final[i], CategoryColumn), LowerAll(AcceptedCategories));
      }
    }
    FilterDropsAll(final, FilterTest(CategoryColumn, AcceptedCategories, false));
  }

  /** The data lines the corrected `main` writes, before augmentation: those
      carrying their question's greatest year whose category is "Overall" up
      to case. */
  function RecentOverall(data: seq<string>): string -> bool
  {
    line => GreatestIn(data, YearColumn, QuestionColumn)(line)
      && FoldedIn(CategoryColumn, LowerAll(AcceptedCategories))(line)
  }

  /** Stage 2's filter and the corrected stage 4's filter, which augmentation
      separates in `main`, select in one pass the lines passing both tests. */
  lemma RecentOverallInOnePass(data: seq<string>)
    ensures Filter(Filter(data, GreatestIn(data, YearColumn, QuestionColumn)),
                   FoldedIn(CategoryColumn, LowerAll(AcceptedCategories)))
         == Filter(data, RecentOverall(data))
  {
    FilterFilter(data, GreatestIn(data, YearColumn, QuestionColumn),
                 FoldedIn(CategoryColumn, LowerAll(AcceptedCategories)), RecentOverall(data));
  }

  /** The crash-free condition with both corrections: the header is no longer split. */
  predicate CorrectedPipelineDefined(input: seq<string>)
  {
    && AllHaveField(Body(input, true), Max(YearColumn, QuestionColumn))
    && var temp1 := Reread(CleanedLines(input, RecentYears(Body(input, true), YearColumn, QuestionColumn), YearColumn, QuestionColumn, true));
       && AllHaveField(Body(temp1, true), Max(YearColumn, QuestionColumn))
       && AllHaveField(Body(Reread(AugmentedLines(temp1, YearColumn, QuestionColumn, true)), true), CategoryColumn)
  }

  /** `main` with the header skipped by most_recent_years and the category
      compared ignoring case. */
  function CorrectedPipeline(input: seq<string>): seq<string>
    requires CorrectedPipelineDefined(input)
  {
    var years := RecentYears(Body(input, true), YearColumn, QuestionColumn);
    var temp1 := Reread(CleanedLines(input, years, YearColumn, QuestionColumn, true));
    var temp2 := Reread(AugmentedLines(temp1, YearColumn, QuestionColumn, true));
    HeaderOf(temp2, true) + Filter(Body(temp2, true), FoldedIn(CategoryColumn, LowerAll(AcceptedCategories)))
  }

  /** Cleaning data lines against the most recent years among those same
      lines keeps the lines that carry the greatest year of their question. */
  lemma MatchesRecentIsGreatest(data: seq<string>, yearCol: nat, qCol: nat)
    requires AllHaveField(data, Max(yearCol, qCol))
    ensures Filter(data, MatchesEntry(RecentYears(data, yearCol, qCol), yearCol, qCol))
         == Filter(data, GreatestIn(data, yearCol, qCol))
  {
    MatchesIsGreatestOn(data, data, yearCol, qCol);
  }

  /** The corrected first stage on any file of proper lines whose data lines
      reach the category column (the header is never split): the temporary
      file reads back as the header and the data lines that carry the
      greatest year of their question. */
  lemma CorrectedStageOne(input: seq<string>)
    requires LineSeq(input) && AllHaveField(Body(input, true), CategoryColumn)
    ensures var data := Body(input, true);
      var recent := Filter(data, GreatestIn(data, YearColumn, QuestionColumn));
      && AllHaveField(data, Max(YearColumn, QuestionColumn))
      && AllHaveField(recent, Max(YearColumn, QuestionColumn) + 1)
      && AllHaveField(recent, CategoryColumn)
      && Reread(CleanedLines(input, RecentYears(data, YearColumn, QuestionColumn), YearColumn, QuestionColumn, true))
         == HeaderOf(input, true) + recent
      && LineSeq(HeaderOf(input, true) + recent)
  {
    var y, q := YearColumn, QuestionColumn;
    var data := Body(input, true);
    assert AllHaveField(data, Max(y, q)) && AllHaveField(data, Max(y, q) + 1);
    var years := RecentYears(data, y, q);
    var test := MatchesEntry(years, y, q);
    MatchesRecentIsGreatest(data, y, q);
    HeaderAndKeptAreLines(input, test);
    RereadLines(CleanedLines(input, years, y, q, true));
    KeptHaveField(data, test, Max(y, q) + 1);
    KeptHaveField(data, test, CategoryColumn);
  }

  /** Augmenting a file of proper lines and reading it back gives its header
      and its augmented data lines. */
  lemma AugmentedReread(lines: seq<string>, yCol: nat, qCol: nat)
    requires LineSeq(lines) && AllHaveField(Body(lines, true), Max(yCol, qCol) + 1)
    ensures AllHaveField(Body(lines, true), Max(yCol, qCol))
    ensures Reread(AugmentedLines(lines, yCol, qCol, true))
         == HeaderOf(lines, true) + AugmentAll(Body(lines, true), yCol, qCol)
  {
    AugmentedLinesAreLines(lines, yCol, qCol);
    RereadLines(AugmentedLines(lines, yCol, qCol, true));
  }

  /**
   * With both corrections, `main` writes the header, then, in input order,
   * every data line that carries the greatest year of its question among the
   * data lines and whose category is "Overall" up to case, each with
   * " (year)" appended to its question field. The header may be any line:
   * the corrected stages never split it.
   */
  lemma CorrectedPipelineResult(input: seq<string>)
    requires LineSeq(input) && AllHaveField(Body(input, true), CategoryColumn)
    ensures CorrectedPipelineDefined(input)
    ensures var data := Body(input, true);
      var recent := Filter(data, GreatestIn(data, YearColumn, QuestionColumn));
      var kept := Filter(recent, FoldedIn(CategoryColumn, LowerAll(AcceptedCategories)));
      && kept == Filter(data, RecentOverall(data))
      && AllHaveField(kept, Max(YearColumn, QuestionColumn))
      && CorrectedPipeline(input) == HeaderOf(input, true) + AugmentAll(kept, YearColumn, QuestionColumn)
  {
    var y, q := YearColumn, QuestionColumn;
    CorrectedStageOne(input);
    var data := Body(input, true);
    var recent := Filter(data, GreatestIn(data, y, q));
    var temp1 := HeaderOf(input, true) + recent;
    assert HeaderOf(temp1, true) == HeaderOf(input, true) && Body(temp1, true) == recent;
    AugmentedReread(temp1, y, q);
    var temp2 := HeaderOf(input, true) + AugmentAll(recent, y, q);
    AugmentAllHasField(recent, y, q, CategoryColumn);
    AugmentAllPointwise(recent, y, q);
    assert Body(temp2, true) == AugmentAll(recent, y, q);
    assert HeaderOf(temp2, true) == HeaderOf(input, true);
    FilterAugmentCommute(recent, y, q, CategoryColumn, LowerAll(AcceptedCategories));
    RecentOverallInOnePass(data);
  }

  // ---------------------------------------------------------------------------
  // Where the code departs from its documentation
  // ---------------------------------------------------------------------------

  /** As written, the dictionary is not the most-recent-year map of the data
      lines whenever the header's question text is not a data question: the
      header contributes a key that no data line has. */
  lemma HeaderKeyIsExtra(lines: seq<string>, yearCol: nat, qCol: nat)
    requires |lines| > 0 && AllHaveField(lines, Max(yearCol, qCol))
    requires forall i :: 1 <= i < |lines| ==> Field(lines[i], qCol) != Field(lines[0], qCol)
    ensures AllHaveField(Body(lines, true), Max(yearCol, qCol))
    ensures !IsMostRecent(RecentYears(lines, yearCol, qCol), Body(lines, true), yearCol, qCol)
  {
    BodyHasFields(lines, true, Max(yearCol, qCol));
    HeaderIsFoldedIn(lines, yearCol, qCol);
    var body := Body(lines, true);
    var key := Field(lines[0], qCol);
    forall i | 0 <= i < |body| ensures Field(body[i], qCol) != key {
      assert body[i] == lines[i + 1];
    }
  }

  /** A header and a data line given by their fields, with different
      questions: the header's question is a key that no data line asks. */
  lemma TwoLineHeaderFold(hs: seq<string>, ds: seq<string>)
    requires |hs| > QuestionColumn && |ds| > QuestionColumn
    requires AllCommaFree(hs) && AllCommaFree(ds) && hs[QuestionColumn] != ds[QuestionColumn]
    ensures AllHaveField([Join(hs), Join(ds)], Max(YearColumn, QuestionColumn))
    ensures hs[QuestionColumn] in RecentYears([Join(hs), Join(ds)], YearColumn, QuestionColumn)
    ensures !IsMostRecent(RecentYears([Join(hs), Join(ds)], YearColumn, QuestionColumn), [Join(ds)], YearColumn, QuestionColumn)
  {
    SplitOfJoin(hs);
    SplitOfJoin(ds);
    var lines := [Join(hs), Join(ds)];
    HeaderKeyIsExtra(lines, YearColumn, QuestionColumn);
    HeaderIsFoldedIn(lines, YearColumn, QuestionColumn);
    assert Body(lines, true) == [Join(ds)];
  }

  /** A two-line survey file: its header's "Question" column becomes a key of
      the dictionary that main builds at line 149, although no survey asked it. */
  lemma HeaderFoldExample()
    ensures var h := Join(["x", "YearStart", "x", "x", "x", "x", "Question", "x\n"]);
      var d := Join(["x", "2016", "x", "x", "x", "x", "Obesity", "x\n"]);
      && AllHaveField([h, d], Max(YearColumn, QuestionColumn))
      && "Question" in RecentYears([h, d], YearColumn, QuestionColumn)
      && !IsMostRecent(RecentYears([h, d], YearColumn, QuestionColumn), [d], YearColumn, QuestionColumn)
  {
    var hs := ["x", "YearStart", "x", "x", "x", "x", "Question", "x\n"];
    var ds := ["x", "2016", "x", "x", "x", "x", "Obesity", "x\n"];
    assert AllCommaFree(hs) && AllCommaFree(ds);
    assert hs[QuestionColumn] == "Question" != "Obesity" == ds[QuestionColumn];
    TwoLineHeaderFold(hs, ds);
  }

  /** As written, a data line whose category is exactly "Overall" is dropped
      by line 155's filter, which its docstring says copies it; the corrected
      filter keeps it. */
  lemma IgnoringCaseDropsOverall(header: string, line: string)
    requires HasField(line, CategoryColumn) && Field(line, CategoryColumn) == "Overall"
    ensures FilteredLines([header, line], CategoryColumn, AcceptedCategories, true, false) == [header]
    ensures HeaderOf([header, line], true) + Filter(Body([header, line], true), FoldedIn(CategoryColumn, LowerAll(AcceptedCategories)))
         == [header, line]
  {
    var lines := [header, line];
    assert HeaderOf(lines, true) == [header] && Body(lines, true) == [line];
    NoMethodAmongStrings(Field(line, CategoryColumn), LowerAll(AcceptedCategories));
    FilterSnoc([], line, FilterTest(CategoryColumn, AcceptedCategories, false));
    FoldedInIgnoresCase(line, CategoryColumn, AcceptedCategories);
    assert EqualIgnoringCase(Field(line, CategoryColumn), AcceptedCategories[0]);
    FilterSnoc([], line, FoldedIn(CategoryColumn, LowerAll(AcceptedCategories)));
    assert [] + [line] == [line];
  }
}
