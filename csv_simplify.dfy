/**
 * The simplifier of data/process-csv.js: the quote-aware row splitter
 * `parseCSVLine` and the row loop of `processCombinedFile`, which skips blank
 * and header lines, projects four columns of every 9-column degree row and
 * keeps only the first row seen for each student name.
 *
 * The splitter and the row loop are methods with loops, each proved equal to a
 * specification function; the properties of the simplifier are lemmas about
 * those functions.
 */
module CsvSimplify {
  import opened Wrappers

  // ---------------------------------------------------------------------------
  // Records and constants

  /** The projected record: columns 0, 1, 4 and 5 of a degree row. */
  datatype SimplifiedRecord = SimplifiedRecord(
    studentName: string,
    firstSemester: string,
    majorName: string,
    degreeDate: string)

  /** A row needs at least the nine columns of the collector's degree layout. */
  const MinFields := 9

  /** Header lines of the combined file start with this quoted column name. */
  const HeaderPrefix := "\"studentName\""

  // ---------------------------------------------------------------------------
  // The splitter as a specification: a fold of single-character steps

  /** The loop variables of the splitter: the fields pushed so far, the field
      being built and whether the scan is between quotes. */
  datatype Scanner = Scanner(fields: seq<string>, field: string, inQuotes: bool)

  const Start := Scanner([], "", false)

  /** One iteration of the character loop: a quote flips the state and is
      dropped, a comma outside quotes ends the field, anything else is kept. */
  function Step(st: Scanner, c: char): Scanner {
    if c == '"' then st.(inQuotes := !st.inQuotes)
    else if c == ',' && !st.inQuotes then Scanner(st.fields + [st.field], "", st.inQuotes)
    else st.(field := st.field + [c])
  }

  function Run(st: Scanner, s: string): Scanner
    decreases |s|
  {
    if s == [] then st else Run(Step(st, s[0]), s[1..])
  }

  /** The fields of a line once the last field has been pushed. */
  function SplitFields(line: string): seq<string> {
    var st := Run(Start, line);
    st.fields + [st.field]
  }

  /** Drops one leading and one trailing quote character, if present. */
  function StripQuotes(f: string): (r: string)
    ensures |r| <= |f|
    ensures '"' !in f ==> r == f
    ensures |f| >= 2 && f[0] == '"' && f[|f| - 1] == '"' ==> r == f[1..|f| - 1]
    ensures |f| >= 1 && f[0] != '"' && f[|f| - 1] != '"' ==> r == f
  {
    var a := if |f| > 0 && f[0] == '"' then f[1..] else f;
    if |a| > 0 && a[|a| - 1] == '"' then a[..|a| - 1] else a
  }

  function CleanFields(fs: seq<string>): (r: seq<string>)
    ensures |r| == |fs|
  {
    seq(|fs|, i requires 0 <= i < |fs| => StripQuotes(fs[i]))
  }

  /** What the splitter returns for a line; `None` is its `null`. */
  function LineRecord(line: string): Option<SimplifiedRecord> {
    if line == [] || ',' !in line then None
    else
      var fs := CleanFields(SplitFields(line));
      if |fs| >= MinFields then Some(SimplifiedRecord(fs[0], fs[1], fs[4], fs[5])) else None
  }

  // ---------------------------------------------------------------------------
  // The splitter

  /** The character loop of the splitter, proved to compute `LineRecord`. */
  method ParseLine(line: string) returns (row: Option<SimplifiedRecord>)
    ensures row == LineRecord(line)
  {
    if line == [] || ',' !in line {
      return None;
    }
    var fields: seq<string> := [];
    var field: string := "";
    var inQuotes := false;
    for i := 0 to |line|
      invariant Run(Scanner(fields, field, inQuotes), line[i..]) == Run(Start, line)
    {
      assert line[i..][1..] == line[i + 1..];
      var c := line[i];
      if c == '"' {
        inQuotes := !inQuotes;
      } else if c == ',' && !inQuotes {
        fields := fields + [field];
        field := "";
      } else {
        field := field + [c];
      }
    }
    assert line[|line|..] == [];
    fields := fields + [field];
    var clean := CleanFields(fields);
    if |clean| >= MinFields {
      row := Some(SimplifiedRecord(clean[0], clean[1], clean[4], clean[5]));
    } else {
      row := None;
    }
  }

  // ---------------------------------------------------------------------------
  // Independent descriptions of a line: quotes, separators and kept characters

  function QuoteCount(s: string): nat {
    if s == [] then 0
    else QuoteCount(s[..|s| - 1]) + (if s[|s| - 1] == '"' then 1 else 0)
  }

  /** Commas preceded by an even number of quote characters: the separators. */
  function UnquotedCommas(s: string): nat {
    if s == [] then 0
    else
      var p := s[..|s| - 1];
      UnquotedCommas(p) + (if s[|s| - 1] == ',' && QuoteCount(p) % 2 == 0 then 1 else 0)
  }

  /** The line without its quote characters and without its separators. */
  function Kept(s: string): string {
    if s == [] then []
    else
      var p, c := s[..|s| - 1], s[|s| - 1];
      Kept(p) + (if c == '"' || (c == ',' && QuoteCount(p) % 2 == 0) then [] else [c])
  }

  /** Field `k` of the line: its kept characters that have exactly `k`
      separators before them.  A comma between quotes is kept, so it belongs to
      the field around it. */
  function FieldOf(s: string, k: nat): string {
    if s == [] then []
    else
      var p, c := s[..|s| - 1], s[|s| - 1];
      FieldOf(p, k)
      + (if c == '"' || (c == ',' && QuoteCount(p) % 2 == 0) || UnquotedCommas(p) != k then [] else [c])
  }

  function Concat(fs: seq<string>): string {
    if fs == [] then [] else Concat(fs[..|fs| - 1]) + fs[|fs| - 1]
  }

  // ---------------------------------------------------------------------------
  // Properties of the splitter

  lemma {:induction false} RunAppend(st: Scanner, a: string, b: string)
    ensures Run(st, a + b) == Run(Run(st, a), b)
    decreases |a|
  {
    if a == [] {
      assert a + b == b;
    } else {
      assert (a + b)[1..] == a[1..] + b;
      RunAppend(Step(st, a[0]), a[1..], b);
    }
  }

  lemma RunSnoc(st: Scanner, s: string, c: char)
    ensures Run(st, s + [c]) == Step(Run(st, s), c)
  {
    RunAppend(st, s, [c]);
    assert [c][1..] == [];
  }

  /** After any prefix the scanner is inside quotes exactly when it has seen an
      odd number of quotes, it has pushed one field per separator, and its
      fields hold every character that is neither a quote nor a separator. */
  lemma {:induction false} ScanInvariant(s: string)
    ensures Run(Start, s).inQuotes <==> QuoteCount(s) % 2 == 1
    ensures |Run(Start, s).fields| == UnquotedCommas(s)
    ensures Concat(Run(Start, s).fields) + Run(Start, s).field == Kept(s)
    decreases |s|
  {
    if s != [] {
      var p, c := s[..|s| - 1], s[|s| - 1];
      ScanInvariant(p);
      assert s == p + [c];
      RunSnoc(Start, p, c);
      var st := Run(Start, p);
      if c == ',' && !st.inQuotes {
        var fs := st.fields + [st.field];
        assert fs[..|fs| - 1] == st.fields;
      }
    }
  }

  /** A line has no characters after its last separator's field. */
  lemma {:induction false} FieldOfBeyond(s: string, k: nat)
    requires k > UnquotedCommas(s)
    ensures FieldOf(s, k) == []
    decreases |s|
  {
    if s != [] {
      FieldOfBeyond(s[..|s| - 1], k);
    }
  }

  /** After any prefix, each pushed field and the field being built are the
      fields `FieldOf` describes. */
  lemma {:induction false} ScanFields(s: string)
    ensures var st := Run(Start, s);
      forall k :: 0 <= k < |st.fields| ==> st.fields[k] == FieldOf(s, k)
    ensures Run(Start, s).field == FieldOf(s, UnquotedCommas(s))
    decreases |s|
  {
    if s != [] {
      var p, c := s[..|s| - 1], s[|s| - 1];
      ScanFields(p);
      ScanInvariant(p);
      assert s == p + [c];
      RunSnoc(Start, p, c);
      var st := Run(Start, p);
      var n := UnquotedCommas(p);
      if c == '"' {
      } else if c == ',' && !st.inQuotes {
        FieldOfBeyond(p, n + 1);
        var fs := st.fields + [st.field];
        forall k | 0 <= k < |fs|
          ensures fs[k] == FieldOf(s, k)
        {
          if k < |st.fields| {
            assert fs[k] == st.fields[k];
          }
        }
      } else {
        forall k | 0 <= k < |st.fields|
          ensures st.fields[k] == FieldOf(s, k)
        {
          assert FieldOf(s, k) == FieldOf(p, k) + [];
        }
      }
    }
  }

  /** The number of fields is one more than the number of separators, field
      `k` is exactly `FieldOf(line, k)`, so a comma between quotes stays in its
      field, and the fields together hold exactly the line's kept characters. */
  lemma FieldCount(line: string)
    ensures |SplitFields(line)| == 1 + UnquotedCommas(line)
    ensures forall k :: 0 <= k < |SplitFields(line)| ==> SplitFields(line)[k] == FieldOf(line, k)
    ensures Concat(SplitFields(line)) == Kept(line)
  {
    ScanInvariant(line);
    ScanFields(line);
    var st := Run(Start, line);
    var fs := st.fields + [st.field];
    assert fs[..|fs| - 1] == st.fields;
  }

  ghost predicate QuoteFree(st: Scanner) {
    '"' !in st.field && forall f :: f in st.fields ==> '"' !in f
  }

  lemma {:induction false} RunQuoteFree(st: Scanner, s: string)
    requires QuoteFree(st)
    ensures QuoteFree(Run(st, s))
    decreases |s|
  {
    if s != [] {
      RunQuoteFree(Step(st, s[0]), s[1..]);
    }
  }

  /** No field contains a quote character, so stripping quotes changes nothing. */
  lemma SplitFieldsQuoteFree(line: string)
    ensures forall f :: f in SplitFields(line) ==> '"' !in f
    ensures CleanFields(SplitFields(line)) == SplitFields(line)
  {
    RunQuoteFree(Start, line);
  }

  lemma {:induction false} CommaPresent(s: string)
    requires UnquotedCommas(s) > 0
    ensures ',' in s
    decreases |s|
  {
    var p := s[..|s| - 1];
    if UnquotedCommas(p) > 0 {
      CommaPresent(p);
    }
  }

  /** A line yields a record exactly when it has at least eight separators,
      and the record holds fields 0, 1, 4 and 5. */
  lemma LineRecordSpec(line: string)
    ensures LineRecord(line).Some? <==> UnquotedCommas(line) >= MinFields - 1
    ensures LineRecord(line).Some? ==>
      var fs := SplitFields(line);
      LineRecord(line).value == SimplifiedRecord(fs[0], fs[1], fs[4], fs[5])
  {
    FieldCount(line);
    SplitFieldsQuoteFree(line);
    if UnquotedCommas(line) >= MinFields - 1 {
      CommaPresent(line);
    }
  }

  // ---------------------------------------------------------------------------
  // Round trip with the collector's quoted row format

  function Quote(f: string): string {
    ['"'] + f + ['"']
  }

  /** Every field wrapped in quotes, joined with commas. */
  function JoinQuoted(fs: seq<string>): string
    requires |fs| >= 1
  {
    if |fs| == 1 then Quote(fs[0])
    else JoinQuoted(fs[..|fs| - 1]) + [','] + Quote(fs[|fs| - 1])
  }

  lemma {:induction false} RunInsideQuotes(st: Scanner, f: string)
    requires st.inQuotes && '"' !in f
    ensures Run(st, f) == st.(field := st.field + f)
    decreases |f|
  {
    if f == [] {
      assert st.field + f == st.field;
    } else {
      RunInsideQuotes(Step(st, f[0]), f[1..]);
      assert st.field + [f[0]] + f[1..] == st.field + f;
    }
  }

  lemma RunQuoted(st: Scanner, f: string)
    requires !st.inQuotes && '"' !in f
    ensures Run(st, Quote(f)) == st.(field := st.field + f)
  {
    RunAppend(st, ['"'] + f, ['"']);
    RunAppend(st, ['"'], f);
    assert ['"'][1..] == [];
    RunInsideQuotes(st.(inQuotes := true), f);
    assert ['"'][1..] == [];
  }

  lemma {:induction false} RunJoinQuoted(fs: seq<string>)
    requires |fs| >= 1
    requires forall f :: f in fs ==> '"' !in f
    ensures Run(Start, JoinQuoted(fs)) == Scanner(fs[..|fs| - 1], fs[|fs| - 1], false)
    decreases |fs|
  {
    if |fs| == 1 {
      RunQuoted(Start, fs[0]);
      assert Start.field + fs[0] == fs[0];
    } else {
      var init, last := fs[..|fs| - 1], fs[|fs| - 1];
      assert forall f :: f in init ==> f in fs;
      RunJoinQuoted(init);
      RunAppend(Start, JoinQuoted(init) + [','], Quote(last));
      RunAppend(Start, JoinQuoted(init), [',']);
      var st := Scanner(init[..|init| - 1], init[|init| - 1], false);
      assert [','][1..] == [];
      assert init[..|init| - 1] + [init[|init| - 1]] == init;
      assert Run(st, [',']) == Scanner(init, "", false);
      RunQuoted(Scanner(init, "", false), last);
      assert "" + last == last;
    }
  }

  /** Splitting a row of quoted, quote-free fields gives the fields back,
      commas inside them included. */
  lemma RoundTrip(fs: seq<string>)
    requires |fs| >= 1
    requires forall f :: f in fs ==> '"' !in f
    ensures SplitFields(JoinQuoted(fs)) == fs
  {
    RunJoinQuoted(fs);
    LastSplit(fs);
  }

  lemma LastSplit<T>(s: seq<T>)
    requires |s| >= 1
    ensures s[..|s| - 1] + [s[|s| - 1]] == s
  {
  }

  lemma RoundTripRecord(fs: seq<string>)
    requires |fs| >= MinFields
    requires forall f :: f in fs ==> '"' !in f
    ensures LineRecord(JoinQuoted(fs)) == Some(SimplifiedRecord(fs[0], fs[1], fs[4], fs[5]))
  {
    RoundTrip(fs);
    FieldCount(JoinQuoted(fs));
    LineRecordSpec(JoinQuoted(fs));
  }

  // ---------------------------------------------------------------------------
  // Line trimming (JavaScript's String.prototype.trim)

  /** ECMAScript white space and line terminators. */
  predicate IsWhitespace(c: char) {
    c == '\t' || c == '\n' || c == '\U{000B}' || c == '\U{000C}' || c == '\r' || c == ' '
    || c == '\U{00A0}' || c == '\U{1680}' || ('\U{2000}' <= c <= '\U{200A}')
    || c == '\U{2028}' || c == '\U{2029}' || c == '\U{202F}' || c == '\U{205F}'
    || c == '\U{3000}' || c == '\U{FEFF}'
  }

  function TrimStart(s: string): string
    decreases |s|
  {
    if s != [] && IsWhitespace(s[0]) then TrimStart(s[1..]) else s
  }

  function TrimEnd(s: string): string
    decreases |s|
  {
    if s != [] && IsWhitespace(s[|s| - 1]) then TrimEnd(s[..|s| - 1]) else s
  }

  /** The line without leading and trailing white space. */
  function Trim(s: string): string {
    TrimEnd(TrimStart(s))
  }

  /** Trimming the start drops a run of white space and stops at the first
      character that is not white space. */
  lemma {:induction false} TrimStartSpec(s: string)
    ensures |TrimStart(s)| <= |s| && TrimStart(s) == s[|s| - |TrimStart(s)|..]
    ensures forall i :: 0 <= i < |s| - |TrimStart(s)| ==> IsWhitespace(s[i])
    ensures TrimStart(s) != [] ==> !IsWhitespace(TrimStart(s)[0])
    decreases |s|
  {
    if s != [] && IsWhitespace(s[0]) {
      TrimStartSpec(s[1..]);
      var r := TrimStart(s[1..]);
      assert s[1..][|s| - 1 - |r|..] == s[|s| - |r|..];
      forall i | 1 <= i < |s| - |r|
        ensures IsWhitespace(s[i])
      {
        assert s[i] == s[1..][i - 1];
      }
    }
  }

  /** Trimming the end drops a run of white space and stops at the last
      character that is not white space. */
  lemma {:induction false} TrimEndSpec(s: string)
    ensures |TrimEnd(s)| <= |s| && TrimEnd(s) == s[..|TrimEnd(s)|]
    ensures forall i :: |TrimEnd(s)| <= i < |s| ==> IsWhitespace(s[i])
    ensures TrimEnd(s) != [] ==> !IsWhitespace(TrimEnd(s)[|TrimEnd(s)| - 1])
    decreases |s|
  {
    if s != [] && IsWhitespace(s[|s| - 1]) {
      TrimEndSpec(s[..|s| - 1]);
      var r := TrimEnd(s[..|s| - 1]);
      assert s[..|s| - 1][..|r|] == s[..|r|];
      forall i | |r| <= i < |s| - 1
        ensures IsWhitespace(s[i])
      {
        assert s[i] == s[..|s| - 1][i];
      }
    }
  }

  /** The trimmed line is a slice of the line with only white space around it,
      neither starts nor ends with white space, and is empty exactly when the
      line is blank. */
  lemma TrimSpec(s: string)
    ensures var r := Trim(s);
      exists a :: (0 <= a <= |s| - |r| && r <= s[a..]
        && (forall i :: 0 <= i < a ==> IsWhitespace(s[i]))
        && (forall i :: a + |r| <= i < |s| ==> IsWhitespace(s[i])))
    ensures var r := Trim(s);
      r != [] ==> !IsWhitespace(r[0]) && !IsWhitespace(r[|r| - 1])
    ensures Trim(s) == [] <==> forall i :: 0 <= i < |s| ==> IsWhitespace(s[i])
  {
    var t := TrimStart(s);
    TrimStartSpec(s);
    TrimEndSpec(t);
    TrimSlice(s, t, TrimEnd(t));
  }

  lemma TrimSlice(s: string, t: string, r: string)
    requires |t| <= |s| && t == s[|s| - |t|..]
    requires forall i :: 0 <= i < |s| - |t| ==> IsWhitespace(s[i])
    requires t != [] ==> !IsWhitespace(t[0])
    requires |r| <= |t| && r == t[..|r|]
    requires forall i :: |r| <= i < |t| ==> IsWhitespace(t[i])
    requires r != [] ==> !IsWhitespace(r[|r| - 1])
    ensures exists a :: (0 <= a <= |s| - |r| && r <= s[a..]
      && (forall i :: 0 <= i < a ==> IsWhitespace(s[i]))
      && (forall i :: a + |r| <= i < |s| ==> IsWhitespace(s[i])))
    ensures r != [] ==> !IsWhitespace(r[0]) && !IsWhitespace(r[|r| - 1])
    ensures r == [] <==> forall i :: 0 <= i < |s| ==> IsWhitespace(s[i])
  {
    var a := |s| - |t|;
    if r != [] {
      assert r[0] == t[0];
    }
    forall i | a + |r| <= i < |s|
      ensures IsWhitespace(s[i])
    {
      assert s[i] == t[i - a];
    }
    assert r <= s[a..];
    if r != [] {
      assert s[a] == r[0];
    }
  }

  // ---------------------------------------------------------------------------
  // The row loop as a specification

  /** The record a line of the combined file contributes, if any: blank lines
      and header lines contribute nothing, other lines what the splitter says. */
  function Row(line: string): Option<SimplifiedRecord> {
    var t := Trim(line);
    if t == [] || HeaderPrefix <= t then None else LineRecord(t)
  }

  /** `f` applied to every element, in order. */
  function Map<A, B>(f: A -> B, s: seq<A>): seq<B> {
    seq(|s|, i requires 0 <= i < |s| => f(s[i]))
  }

  /** What every line of the file yields, in line order. */
  function LineRows(lines: seq<string>): seq<Option<SimplifiedRecord>> {
    Map(Row, lines)
  }

  function Names(rs: seq<SimplifiedRecord>): set<string> {
    set r | r in rs :: r.studentName
  }

  /** The records the row loop has pushed after the given line results: a row
      is pushed when its name is not among the names pushed before. */
  function Pushed(rows: seq<Option<SimplifiedRecord>>): seq<SimplifiedRecord> {
    if rows == [] then []
    else
      var done := Pushed(rows[..|rows| - 1]);
      match rows[|rows| - 1]
      case Some(r) => if r.studentName in Names(done) then done else done + [r]
      case None => done
  }

  /** The output of the simplifier for the lines of a combined file. */
  function Simplified(lines: seq<string>): seq<SimplifiedRecord> {
    Pushed(LineRows(lines))
  }

  /** The rows the splitter accepts, in order, duplicates included. */
  function Accepted(rows: seq<Option<SimplifiedRecord>>): seq<SimplifiedRecord> {
    if rows == [] then []
    else
      Accepted(rows[..|rows| - 1])
      + match rows[|rows| - 1] case Some(r) => [r] case None => []
  }

  /** Reference definition of the deduplication: each row whose name no
      earlier row has. */
  function FirstOccurrences(rs: seq<SimplifiedRecord>): seq<SimplifiedRecord> {
    if rs == [] then []
    else
      var p := rs[..|rs| - 1];
      FirstOccurrences(p) + (if rs[|rs| - 1].studentName in Names(p) then [] else [rs[|rs| - 1]])
  }

  function NonBlank(lines: seq<string>): nat {
    if lines == [] then 0
    else NonBlank(lines[..|lines| - 1]) + (if Trim(lines[|lines| - 1]) == [] then 0 else 1)
  }

  // ---------------------------------------------------------------------------
  // The row loop

  /** The loop of `processCombinedFile` over the lines of the combined file,
      with its set of names already processed. */
  method SimplifyLines(lines: seq<string>) returns (records: seq<SimplifiedRecord>)
    ensures records == Simplified(lines)
  {
    ghost var rows := LineRows(lines);
    records := [];
    var seen: set<string> := {};
    for i := 0 to |lines|
      invariant records == Pushed(rows[..i])
      invariant seen == Names(records)
    {
      PushedStep(rows, i);
      assert rows[i] == Row(lines[i]);
      var line := Trim(lines[i]);
      if line == [] {
        continue;
      }
      if HeaderPrefix <= line {
        continue;
      }
      var row := ParseLine(line);
      if row.None? {
        continue;
      }
      var name := row.value.studentName;
      if name in seen {
        continue;
      }
      NamesSnoc(records, row.value);
      seen := seen + {name};
      records := records + [row.value];
    }
    assert rows[..|lines|] == rows;
  }

  // ---------------------------------------------------------------------------
  // Properties of the row loop

  lemma PushedStep(rows: seq<Option<SimplifiedRecord>>, i: int)
    requires 0 <= i < |rows|
    ensures var done := Pushed(rows[..i]);
      Pushed(rows[..i + 1]) == match rows[i]
        case Some(r) => (if r.studentName in Names(done) then done else done + [r])
        case None => done
  {
    assert rows[..i + 1][..i] == rows[..i];
  }

  lemma NamesSnoc(rs: seq<SimplifiedRecord>, r: SimplifiedRecord)
    ensures Names(rs + [r]) == Names(rs) + {r.studentName}
  {
    assert forall x :: x in rs + [r] <==> x in rs || x == r;
  }

  lemma {:induction false} FirstOccurrencesNames(rs: seq<SimplifiedRecord>)
    ensures Names(FirstOccurrences(rs)) == Names(rs)
    decreases |rs|
  {
    if rs != [] {
      var p, r := rs[..|rs| - 1], rs[|rs| - 1];
      FirstOccurrencesNames(p);
      assert rs == p + [r];
      NamesSnoc(p, r);
      NamesSnoc(FirstOccurrences(p), r);
      assert FirstOccurrences(p) + [] == FirstOccurrences(p);
    }
  }

  /** The seen-set holds only names of pushed rows, and a rejected line adds
      nothing to it: the rows pushed are the first occurrence of every name
      among the rows the splitter accepts. */
  lemma {:induction false} PushedDedup(rows: seq<Option<SimplifiedRecord>>)
    ensures Pushed(rows) == FirstOccurrences(Accepted(rows))
    decreases |rows|
  {
    if rows != [] {
      var p := rows[..|rows| - 1];
      PushedDedup(p);
      FirstOccurrencesNames(Accepted(p));
      match rows[|rows| - 1]
      case Some(r) =>
        var rs := Accepted(rows);
        assert rs == Accepted(p) + [r];
        assert rs[..|rs| - 1] == Accepted(p);
      case None =>
        assert Pushed(rows) == Pushed(p);
        assert Accepted(rows) == Accepted(p) + [] == Accepted(p);
    }
  }

  /** No two records share a student name. */
  lemma {:induction false} FirstOccurrencesUnique(rs: seq<SimplifiedRecord>)
    ensures var out := FirstOccurrences(rs);
      forall i, j :: 0 <= i < j < |out| ==> out[i].studentName != out[j].studentName
    decreases |rs|
  {
    if rs != [] {
      var p, r := rs[..|rs| - 1], rs[|rs| - 1];
      FirstOccurrencesUnique(p);
      FirstOccurrencesNames(p);
      var prev := FirstOccurrences(p);
      if r.studentName !in Names(p) {
        assert forall i :: 0 <= i < |prev| ==> prev[i] in prev;
      } else {
        assert prev + [] == prev;
      }
    }
  }

  ghost predicate IsFirst(rs: seq<SimplifiedRecord>, k: int)
    requires 0 <= k < |rs|
  {
    forall j :: 0 <= j < k ==> rs[j].studentName != rs[k].studentName
  }

  /** The row a kept record comes from: the first one that carries its name. */
  lemma {:induction false} FirstSource(rs: seq<SimplifiedRecord>, i: nat) returns (k: nat)
    requires i < |FirstOccurrences(rs)|
    ensures k < |rs| && rs[k] == FirstOccurrences(rs)[i] && IsFirst(rs, k)
    decreases |rs|
  {
    var p, r := rs[..|rs| - 1], rs[|rs| - 1];
    var prev := FirstOccurrences(p);
    var out := FirstOccurrences(rs);
    assert out == prev + (if r.studentName in Names(p) then [] else [r]);
    if i < |prev| {
      assert out[i] == prev[i];
      k := FirstSource(p, i);
      assert rs[k] == p[k];
      assert IsFirst(rs, k) by {
        forall j | 0 <= j < k
          ensures rs[j].studentName != rs[k].studentName
        {
          assert rs[j] == p[j];
        }
      }
    } else {
      assert out[i] == r && r.studentName !in Names(p);
      k := |rs| - 1;
      forall j | 0 <= j < k
        ensures rs[j].studentName != r.studentName
      {
        assert rs[j] == p[j] && p[j] in p;
      }
    }
  }

  /** `a` is `b` with some elements left out, order kept. */
  predicate IsSubsequence<T(==)>(a: seq<T>, b: seq<T>)
    decreases |b|
  {
    if a == [] then true
    else if b == [] then false
    else
      (a[|a| - 1] == b[|b| - 1] && IsSubsequence(a[..|a| - 1], b[..|b| - 1]))
      || IsSubsequence(a, b[..|b| - 1])
  }

  /** Records keep the order of the rows they come from. */
  lemma {:induction false} FirstOccurrencesOrder(rs: seq<SimplifiedRecord>)
    ensures IsSubsequence(FirstOccurrences(rs), rs)
    decreases |rs|
  {
    if rs != [] {
      var p := rs[..|rs| - 1];
      FirstOccurrencesOrder(p);
      var prev := FirstOccurrences(p);
      var out := FirstOccurrences(rs);
      if rs[|rs| - 1].studentName in Names(p) {
        assert out == prev + [] == prev;
        if out != [] {
          assert IsSubsequence(out, rs[..|rs| - 1]);
        }
      } else {
        assert out[..|out| - 1] == prev;
      }
    }
  }

  lemma {:induction false} SubsequenceLength<T>(a: seq<T>, b: seq<T>)
    requires IsSubsequence(a, b)
    ensures |a| <= |b|
    decreases |b|
  {
    if a != [] {
      if a[|a| - 1] == b[|b| - 1] && IsSubsequence(a[..|a| - 1], b[..|b| - 1]) {
        SubsequenceLength(a[..|a| - 1], b[..|b| - 1]);
      } else {
        SubsequenceLength(a, b[..|b| - 1]);
      }
    }
  }

  lemma MapPrefix<A, B>(f: A -> B, s: seq<A>, n: nat)
    requires n <= |s|
    ensures Map(f, s[..n]) == Map(f, s)[..n]
  {
  }

  lemma MapSuffix<A, B>(f: A -> B, s: seq<A>, n: nat)
    requires n <= |s|
    ensures Map(f, s[n..]) == Map(f, s)[n..]
  {
  }

  lemma MapAppend<A, B>(f: A -> B, a: seq<A>, b: seq<A>)
    ensures Map(f, a + b) == Map(f, a) + Map(f, b)
  {
    var lhs, rhs := Map(f, a + b), Map(f, a) + Map(f, b);
    forall i | 0 <= i < |lhs|
      ensures lhs[i] == rhs[i]
    {
      if i < |a| {
        assert (a + b)[i] == a[i];
      } else {
        assert (a + b)[i] == b[i - |a|];
      }
    }
  }

  lemma {:induction false} AcceptedBound(lines: seq<string>)
    ensures |Accepted(LineRows(lines))| <= NonBlank(lines)
    decreases |lines|
  {
    if lines != [] {
      var p := lines[..|lines| - 1];
      var rows := LineRows(lines);
      AcceptedBound(p);
      MapPrefix(Row, lines, |lines| - 1);
      assert rows[..|rows| - 1] == LineRows(p);
      assert rows[|rows| - 1] == Row(lines[|lines| - 1]);
    }
  }

  /** Every name the splitter accepts appears in the output, and no other. */
  lemma PushedNames(rows: seq<Option<SimplifiedRecord>>)
    ensures Names(Pushed(rows)) == Names(Accepted(rows))
  {
    PushedDedup(rows);
    FirstOccurrencesNames(Accepted(rows));
  }

  /** No two output records share a student name. */
  lemma PushedUnique(rows: seq<Option<SimplifiedRecord>>)
    ensures forall i, j :: 0 <= i < j < |Pushed(rows)| ==>
      Pushed(rows)[i].studentName != Pushed(rows)[j].studentName
  {
    PushedDedup(rows);
    FirstOccurrencesUnique(Accepted(rows));
  }

  /** Every output record is the first accepted row with its name. */
  lemma PushedFirstWins(rows: seq<Option<SimplifiedRecord>>)
    ensures var rs := Accepted(rows);
      forall i :: 0 <= i < |Pushed(rows)| ==>
        exists k :: 0 <= k < |rs| && rs[k] == Pushed(rows)[i] && IsFirst(rs, k)
  {
    var rs := Accepted(rows);
    PushedDedup(rows);
    forall i | 0 <= i < |Pushed(rows)|
      ensures exists k :: 0 <= k < |rs| && rs[k] == Pushed(rows)[i] && IsFirst(rs, k)
    {
      var k := FirstSource(rs, i);
      assert rs[k] == Pushed(rows)[i];
    }
  }

  /** Output records follow the order of the rows they come from. */
  lemma PushedOrder(rows: seq<Option<SimplifiedRecord>>)
    ensures IsSubsequence(Pushed(rows), Accepted(rows))
    ensures |Pushed(rows)| <= |Accepted(rows)|
  {
    var rs := Accepted(rows);
    PushedDedup(rows);
    FirstOccurrencesOrder(rs);
    SubsequenceLength(FirstOccurrences(rs), rs);
  }

  /** There are no more output records than non-blank lines. */
  lemma SimplifiedBound(lines: seq<string>)
    ensures |Simplified(lines)| <= NonBlank(lines)
  {
    PushedOrder(LineRows(lines));
    AcceptedBound(lines);
  }

  lemma {:induction false} AcceptedAppend(a: seq<Option<SimplifiedRecord>>, b: seq<Option<SimplifiedRecord>>)
    ensures Accepted(a + b) == Accepted(a) + Accepted(b)
    decreases |b|
  {
    if b == [] {
      assert a + b == a;
    } else {
      var ab := a + b;
      assert ab[..|ab| - 1] == a + b[..|b| - 1];
      assert ab[|ab| - 1] == b[|b| - 1];
      AcceptedAppend(a, b[..|b| - 1]);
    }
  }

  lemma LineRowsDrop(lines: seq<string>, k: int)
    requires 0 <= k < |lines|
    ensures LineRows(lines[..k] + lines[k + 1..]) == LineRows(lines)[..k] + LineRows(lines)[k + 1..]
  {
    MapAppend(Row, lines[..k], lines[k + 1..]);
    MapPrefix(Row, lines, k);
    MapSuffix(Row, lines, k + 1);
  }

  lemma SplitAt<T>(s: seq<T>, k: int)
    requires 0 <= k < |s|
    ensures s == (s[..k] + [s[k]]) + s[k + 1..]
  {
  }

  lemma AcceptedDrop(rows: seq<Option<SimplifiedRecord>>, k: int)
    requires 0 <= k < |rows| && rows[k].None?
    ensures Accepted(rows) == Accepted(rows[..k] + rows[k + 1..])
  {
    var a, b := rows[..k], rows[k + 1..];
    SplitAt(rows, k);
    AcceptedAppend(a + [rows[k]], b);
    AcceptedAppend(a, [rows[k]]);
    AcceptedAppend(a, b);
    assert Accepted([rows[k]]) == Accepted([]) + [];
    assert Accepted(a) + [] == Accepted(a);
  }

  /** A line the splitter rejects leaves no trace: in particular it does not
      mark its name as seen. */
  lemma RejectedLineIgnored(lines: seq<string>, k: int)
    requires 0 <= k < |lines| && Row(lines[k]).None?
    ensures Simplified(lines) == Simplified(lines[..k] + lines[k + 1..])
  {
    var rows := LineRows(lines);
    LineRowsDrop(lines, k);
    AcceptedDrop(rows, k);
    PushedDedup(rows);
    PushedDedup(rows[..k] + rows[k + 1..]);
  }

  /** A line contributes a row exactly when, once trimmed, it is not a header
      and has at least eight separators. */
  lemma RowSpec(line: string)
    ensures var t := Trim(line);
      Row(line).Some? <==> !(HeaderPrefix <= t) && UnquotedCommas(t) >= MinFields - 1
  {
    LineRecordSpec(Trim(line));
  }
}
