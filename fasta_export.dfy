/**
 * The FASTA file of a sample's RNA-virus hits (scripts/resultsNEW.py, lines
 * 73-84): the two columns `QuerySeq` and `FullQueryLength` are written as a
 * tab-separated file with a header line, read back line by line, and every
 * line after the header becomes one FASTA entry.
 */
module FastaExport {
  import opened PyStrings
  import opened Collections
  import opened HitTable

  /** The header of `_pre_fasta.tsv`: the two column names. */
  const HeaderText: string := "QuerySeq\tFullQueryLength"

  /** The header line of `_pre_fasta.tsv`. */
  const HeaderLine: string := HeaderText + "\n"

  /** One data line of `_pre_fasta.tsv` (line 76). */
  function RowLine(r: Row): string {
    r.querySeq + "\t" + IntToString(r.fullQueryLength) + "\n"
  }

  /** The text of `_pre_fasta.tsv`: the header line, then one line per row. */
  function PreFastaText(rows: seq<Row>): string {
    HeaderLine + ConcatMap(rows, RowLine)
  }

  /** `readlines()`: the text cut after every line feed, each line keeping its own. */
  function ReadLines(text: string): seq<string>
    decreases |text|
  {
    if text == [] then []
    else if '\n' !in text then [text]
    else
      var i := FirstIndex(text, '\n');
      [text[..i + 1]] + ReadLines(text[i + 1..])
  }

  /** Lines 83-84 for one line. */
  function FastaEntry(line: string): string {
    ">" + ReplaceAll(Strip(line), "\t", "\n") + "\n"
  }

  /** What lines 82-84 write for the lines read: an entry for every line but the first. */
  function FastaText(lines: seq<string>): string {
    if lines == [] then [] else ConcatMap(lines[1..], FastaEntry)
  }

  /** The loop of lines 82-84. */
  method WriteFasta(lines: seq<string>) returns (out: string)
    ensures out == FastaText(lines)
  {
    out := "";
    if |lines| == 0 {
      return;
    }
    var i := 1;
    while i < |lines|
      invariant 1 <= i <= |lines|
      invariant out == ConcatMap(lines[1..i], FastaEntry)
    {
      var line := Strip(lines[i]);
      line := ReplaceAll(line, "\t", "\n");
      assert lines[1..i + 1][..i - 1] == lines[1..i];
      out := out + (">" + line + "\n");
      i := i + 1;
    }
    assert lines[1..i] == lines[1..];
  }

  /** A line ending in a line feed and holding no other is read back as one line. */
  lemma ReadLinesFirst(line: string, rest: string)
    requires '\n' !in line
    ensures ReadLines(line + "\n" + rest) == [line + "\n"] + ReadLines(rest)
  {
    var text := line + "\n" + rest;
    assert text[|line|] == '\n';
    assert '\n' in text;
    var i := FirstIndex(text, '\n');
    assert text[..|line|] == line;
    assert i == |line|;
    assert text[..i + 1] == line + "\n" && text[i + 1..] == rest;
  }

  /** The data line of a row whose query id has no line feed: the id, a tab, the length and a line feed. */
  lemma RowLineSplit(r: Row)
    requires '\n' !in r.querySeq
    ensures RowLine(r) == (r.querySeq + "\t" + IntToString(r.fullQueryLength)) + "\n"
    ensures '\n' !in r.querySeq + "\t" + IntToString(r.fullQueryLength)
  {
    IntToStringChars(r.fullQueryLength);
  }

  /** `str()` of an integer holds only digits and a leading minus sign, and ends in a digit. */
  lemma IntToStringChars(n: int)
    ensures var s := IntToString(n);
      s != [] && IsDigit(s[|s| - 1]) && (forall i :: 0 <= i < |s| ==> IsDigit(s[i]) || s[i] == '-')
  {
  }

  /** A line as `readlines()` returns it: ending in its only line feed. */
  predicate IsLine(l: string) {
    l != [] && l[|l| - 1] == '\n' && '\n' !in l[..|l| - 1]
  }

  /** Text made of whole lines is read back as those lines. */
  lemma {:induction false} ReadLinesConcat<T>(xs: seq<T>, f: T -> string)
    requires forall i :: 0 <= i < |xs| ==> IsLine(f(xs[i]))
    ensures ReadLines(ConcatMap(xs, f)) == Map(xs, f)
  {
    if xs != [] {
      var rest := xs[1..];
      var l := f(xs[0]);
      var body := l[..|l| - 1];
      assert l == body + "\n";
      ConcatMapCons(xs, f);
      MapCons(xs, f);
      ReadLinesFirst(body, ConcatMap(rest, f));
      assert forall i :: 0 <= i < |rest| ==> rest[i] == xs[i + 1];
      ReadLinesConcat(rest, f);
    }
  }

  /**
   * Reading `_pre_fasta.tsv` back gives the header line and then one line
   * per row, in row order, provided no query id holds a line feed.
   */
  lemma ReadBackRows(rows: seq<Row>)
    requires forall i :: 0 <= i < |rows| ==> '\n' !in rows[i].querySeq
    ensures ReadLines(ConcatMap(rows, RowLine)) == Map(rows, RowLine)
  {
    forall i | 0 <= i < |rows| ensures IsLine(RowLine(rows[i])) {
      var r := rows[i];
      RowLineSplit(r);
      var x := r.querySeq + "\t" + IntToString(r.fullQueryLength);
      assert (x + "\n")[..|x|] == x;
    }
    ReadLinesConcat(rows, RowLine);
  }

  lemma ReadBack(rows: seq<Row>)
    requires forall i :: 0 <= i < |rows| ==> '\n' !in rows[i].querySeq
    ensures ReadLines(PreFastaText(rows)) == [HeaderLine] + Map(rows, RowLine)
  {
    assert '\n' !in HeaderText;
    ReadLinesFirst(HeaderText, ConcatMap(rows, RowLine));
    ReadBackRows(rows);
  }

  /** A query id that survives `strip()` and the tab replacement intact: non-empty, no leading whitespace, no tab, no line feed. */
  predicate PlainId(q: string) {
    q != [] && !IsSpace(q[0]) && '\t' !in q && '\n' !in q
  }

  /** The entry a row should give: `>id`, then the length, each on its own line. */
  function FastaRecord(r: Row): string {
    ">" + r.querySeq + "\n" + IntToString(r.fullQueryLength) + "\n"
  }

  /** `strip()` removes exactly the line feed of a data line. */
  lemma StripRowLine(r: Row)
    requires PlainId(r.querySeq)
    ensures Strip(RowLine(r)) == r.querySeq + "\t" + IntToString(r.fullQueryLength)
  {
    var x := r.querySeq + "\t" + IntToString(r.fullQueryLength);
    var s := x + "\n";
    IntToStringChars(r.fullQueryLength);
    assert s[0] == r.querySeq[0];
    assert LeadingSpaces(s) == 0;
    assert s[0..] == s;
    assert s[..|s| - 1] == x;
    assert TrailingSpaces(x) == 0;
    assert TrailingSpaces(s) == 1;
  }

  /** The tab between the two columns becomes the line break between header and sequence line. */
  lemma ReplaceRowTab(q: string, n: string)
    requires '\t' !in q && '\t' !in n
    ensures ReplaceAll(q + "\t" + n, "\t", "\n") == q + "\n" + n
  {
    var tab := ReplaceAll("\t", "\t", "\n");
    assert tab == "\n" by {
      assert "\t"[..1] == "\t" && "\t"[1..] == [];
    }
    calc {
      ReplaceAll((q + "\t") + n, "\t", "\n");
      { ReplaceCharConcat(q + "\t", n, '\t', "\n"); }
      ReplaceAll(q + "\t", "\t", "\n") + ReplaceAll(n, "\t", "\n");
      { ReplaceCharConcat(q, "\t", '\t', "\n"); }
      (ReplaceAll(q, "\t", "\n") + tab) + ReplaceAll(n, "\t", "\n");
      { ReplaceCharAbsent(q, '\t', "\n"); ReplaceCharAbsent(n, '\t', "\n"); }
      (q + "\n") + n;
    }
  }

  /** Lines 83-84 turn the data line of a row with a plain id into `>id`, line feed, length, line feed. */
  lemma EntryOfRow(r: Row)
    requires PlainId(r.querySeq)
    ensures FastaEntry(RowLine(r)) == FastaRecord(r)
  {
    StripRowLine(r);
    IntToStringChars(r.fullQueryLength);
    ReplaceRowTab(r.querySeq, IntToString(r.fullQueryLength));
  }

  /**
   * With an empty query id, `strip()` also removes the tab, and the entry
   * is a single line `>length`: the two-lines-per-row layout needs a
   * non-empty id.
   */
  lemma EntryOfEmptyId(r: Row)
    requires r.querySeq == ""
    ensures FastaEntry(RowLine(r)) == ">" + IntToString(r.fullQueryLength) + "\n"
  {
    var n := IntToString(r.fullQueryLength);
    IntToStringChars(r.fullQueryLength);
    var s := RowLine(r);
    assert s == "\t" + (n + "\n");
    assert s[1..] == n + "\n";
    assert LeadingSpaces(s[1..]) == 0;
    assert LeadingSpaces(s) == 1;
    var t := s[1..];
    assert t[..|t| - 1] == n;
    assert TrailingSpaces(n) == 0;
    assert TrailingSpaces(t) == 1;
    ReplaceCharAbsent(n, '\t', "\n");
  }

  lemma {:induction false} CountFastaLines(rows: seq<Row>)
    requires forall i :: 0 <= i < |rows| ==> PlainId(rows[i].querySeq)
    ensures CountChar(ConcatMap(rows, FastaRecord), '\n') == 2 * |rows|
  {
    if rows != [] {
      var front, r := rows[..|rows| - 1], rows[|rows| - 1];
      CountFastaLines(front);
      var n := IntToString(r.fullQueryLength);
      IntToStringChars(r.fullQueryLength);
      assert '\n' !in n;
      CountCharConcat(ConcatMap(front, FastaRecord), FastaRecord(r), '\n');
      CountCharConcat(">" + r.querySeq + "\n" + n, "\n", '\n');
      CountCharConcat(">" + r.querySeq + "\n", n, '\n');
      CountCharConcat(">" + r.querySeq, "\n", '\n');
      CountCharConcat(">", r.querySeq, '\n');
      CountCharPositive(r.querySeq, '\n');
      CountCharPositive(n, '\n');
    }
  }

  /**
   * The FASTA file of a sample: when every query id is plain, the header line
   * is skipped and each row gives `>id` and its length on two lines, in row
   * order, so the file has two lines per row.
   */
  lemma FastaOfRows(rows: seq<Row>)
    requires forall i :: 0 <= i < |rows| ==> PlainId(rows[i].querySeq)
    ensures FastaText(ReadLines(PreFastaText(rows))) == ConcatMap(rows, FastaRecord)
    ensures CountChar(FastaText(ReadLines(PreFastaText(rows))), '\n') == 2 * |rows|
  {
    ReadBack(rows);
    assert ([HeaderLine] + Map(rows, RowLine))[1..] == Map(rows, RowLine);
    forall i | 0 <= i < |rows| ensures FastaEntry(RowLine(rows[i])) == FastaRecord(rows[i]) {
      EntryOfRow(rows[i]);
    }
    ConcatMapOfMap(rows, RowLine, FastaEntry, FastaRecord);
    CountFastaLines(rows);
  }
}
