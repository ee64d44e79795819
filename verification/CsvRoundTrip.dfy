/**
 When a printed table is read back: exactly when the second pass understands every line that the
 first pass hands on.
 */
module CsvRoundTrip {
  import opened Basics
  import opened Text
  import opened Csv

  /** No quote in any cell, except that the last cell may end in one. */
  predicate Readable(cells: seq<Text>) {
    forall i :: 0 <= i < |cells| ==> ReadableAt(cells[i], i == |cells| - 1)
  }

  predicate ReadableAt(cell: Text, last: bool) {
    Q !in cell || (last && Q !in cell[..|cell| - 1])
  }

  // ---------------------------------------------------------------- the second pass on one cell

  lemma {:induction false} CellsInside(t: Text, s: Text, cur: Text)
    requires Q !in t
    ensures Cells(t + s, true, cur) == Cells(s, true, cur + t)
    decreases |t|
  {
    if t == [] {
      assert t + s == s && cur + t == cur;
    } else {
      CellsInside(t[1..], s, cur + [t[0]]);
      assert (t + s)[1..] == t[1..] + s;
      assert cur + [t[0]] + t[1..] == cur + t by { assert [t[0]] + t[1..] == t; }
    }
  }

  lemma OpenCell(w: Text)
    ensures Cells([Q] + w, false, []) == Cells(w, true, [])
  {
    assert ([Q] + w)[1..] == w;
  }

  /** A cell free of quotes is read back, whatever follows it. */
  lemma CleanCell(cell: Text, s: Text)
    requires Q !in cell && (s == [] || s[0] != Q)
    ensures Cells([Q] + cell + [Q] + s, false, []) == Cells(s, false, cell)
  {
    var w := [Q] + s;
    assert Cells(w, true, cell) == Cells(s, false, cell) by { assert w[1..] == s; }
    hide Cells;
    CellsInside(cell, w, []);
    OpenCell(cell + w);
    assert [Q] + cell + [Q] + s == [Q] + (cell + w) && [] + cell == cell;
  }

  /** A last cell may end in a quote: with the closing one it reads as a doubled quote. */
  lemma EndingQuote(t: Text)
    requires Q !in t
    ensures Cells([Q] + (t + [Q]) + [Q], false, []) == [t + [Q]]
  {
    var w := [Q, Q];
    assert Cells(w, true, t) == [t + [Q]];
    hide Cells;
    CellsInside(t, w, []);
    OpenCell(t + w);
    assert [Q] + (t + [Q]) + [Q] == [Q] + (t + w) && [] + t == t;
  }

  lemma {:induction false} FirstExtends(line: Text, inQuotes: bool, cur: Text)
    ensures var x := Cells(line, inQuotes, cur)[0];
            |cur| <= |x| && x[..|cur|] == cur
    decreases |line|
  {
    if line != [] {
      if line[0] == Q {
        if inQuotes && |line| > 1 && line[1] == Q {
          FirstExtends(line[2..], inQuotes, cur + [Q]);
        } else {
          FirstExtends(line[1..], !inQuotes, cur);
        }
      } else if line[0] != COMMA || inQuotes {
        FirstExtends(line[1..], inQuotes, cur + [line[0]]);
      }
    }
  }

  function LeadingQuotes(s: Text): (k: nat)
    ensures k <= |s| && (forall i :: 0 <= i < k ==> s[i] == Q) && (k < |s| ==> s[k] != Q)
  {
    if s == [] || s[0] != Q then 0 else 1 + LeadingQuotes(s[1..])
  }

  /** The next unit read is kept, unless it is a separator. */
  lemma NextUnit(w: Text, inQuotes: bool, cur: Text)
    requires w != [] && w[0] != Q
    ensures var x := Cells(w, inQuotes, cur)[0];
            if w[0] == COMMA && !inQuotes then x == cur
            else |x| > |cur| && x[..|cur|] == cur && x[|cur|] == w[0]
  {
    if w[0] != COMMA || inQuotes {
      FirstExtends(w[1..], inQuotes, cur + [w[0]]);
      var x := Cells(w, inQuotes, cur)[0];
      assert x[..|cur| + 1] == cur + [w[0]];
      assert x[..|cur|] == x[..|cur| + 1][..|cur|];
      assert x[|cur|] == x[..|cur| + 1][|cur|];
    }
  }

  /** A run of `k` quotes inside a cell yields `k / 2` quotes, then no quote. */
  ghost predicate RunRead(w: Text, cur: Text, x: Text) {
    var k := LeadingQuotes(w);
    var n := |cur| + k / 2;
    && |x| >= n && x[..|cur|] == cur && (forall i :: |cur| <= i < n ==> x[i] == Q)
    && (|x| > n ==> x[n] != Q)
    && (|x| == n ==> k == |w| || k % 2 == 1)
  }

  lemma {:induction false} RunOfQuotes(w: Text, cur: Text)
    ensures RunRead(w, cur, Cells(w, true, cur)[0])
    decreases |w|
  {
    var k := LeadingQuotes(w);
    if w != [] {
      if k == 0 {
        NextUnit(w, true, cur);
      } else if k == 1 {
        if |w| > 1 { NextUnit(w[1..], false, cur); }
      } else {
        RunOfQuotes(w[2..], cur + [Q]);
        assert LeadingQuotes(w) == 1 + LeadingQuotes(w[1..]) && w[1..][1..] == w[2..];
        RunStep(w, cur, Cells(w, true, cur)[0]);
      }
    }
  }

  lemma RunStep(w: Text, cur: Text, x: Text)
    requires LeadingQuotes(w) >= 2 && LeadingQuotes(w) == 2 + LeadingQuotes(w[2..])
    requires RunRead(w[2..], cur + [Q], x)
    ensures RunRead(w, cur, x)
  {
    hide LeadingQuotes;
    assert x[..|cur|] == x[..|cur| + 1][..|cur|];
    assert x[|cur|] == x[..|cur| + 1][|cur|];
  }

  lemma {:induction false} LeadingAppend(a: Text, s: Text)
    requires s == [] || s[0] != Q
    ensures LeadingQuotes(a + [Q] + s) == if LeadingQuotes(a) == |a| then |a| + 1 else LeadingQuotes(a)
    decreases |a|
  {
    if a == [] {
      assert (a + [Q] + s)[1..] == s;
    } else {
      LeadingAppend(a[1..], s);
      assert (a + [Q] + s)[1..] == a[1..] + [Q] + s;
    }
  }

  lemma FirstQuote(cell: Text) returns (p: nat)
    requires Q in cell
    ensures p < |cell| && cell[p] == Q && Q !in cell[..p]
  {
    p := 0;
    while cell[p] != Q
      invariant p < |cell| && Q !in cell[..p] && Q in cell[p..]
      decreases |cell| - p
    {
      assert cell[p..] == [cell[p]] + cell[p + 1..];
      assert cell[..p + 1] == cell[..p] + [cell[p]];
      p := p + 1;
    }
  }

  lemma ReadUpTo(cell: Text, s: Text, p: nat)
    requires p < |cell| && Q !in cell[..p]
    ensures Cells([Q] + cell + [Q] + s, false, []) == Cells(cell[p..] + [Q] + s, true, cell[..p])
  {
    hide Cells;
    var w := cell[p..] + [Q] + s;
    OpenCell(cell[..p] + w);
    CellsInside(cell[..p], w, []);
    assert [Q] + cell + [Q] + s == [Q] + (cell[..p] + w) by { assert cell == cell[..p] + cell[p..]; }
    assert [] + cell[..p] == cell[..p];
  }

  /** Every other cell with a quote is misread. */
  lemma BadCell(cell: Text, s: Text)
    requires (s == [] || s[0] == COMMA) && !ReadableAt(cell, s == [])
    ensures Strip(Cells([Q] + cell + [Q] + s, false, [])[0]) != cell
  {
    var x := Cells([Q] + cell + [Q] + s, false, [])[0];
    hide Cells, RunRead, LeadingQuotes, Strip;
    var p := FirstQuote(cell);
    var w := cell[p..] + [Q] + s;
    ReadUpTo(cell, s, p);
    RunOfQuotes(w, cell[..p]);
    LeadingAppend(cell[p..], s);
    BadRun(cell, s, p, x);
  }

  lemma BadRun(cell: Text, s: Text, p: nat, x: Text)
    requires (s == [] || s[0] == COMMA) && !ReadableAt(cell, s == [])
    requires p < |cell| && cell[p] == Q && Q !in cell[..p]
    requires var w := cell[p..] + [Q] + s;
             && RunRead(w, cell[..p], x)
             && LeadingQuotes(w) == if LeadingQuotes(cell[p..]) == |cell| - p then |cell| - p + 1
                else LeadingQuotes(cell[p..])
    ensures Strip(x) != cell
  {
    var w := cell[p..] + [Q] + s;
    var r, n := LeadingQuotes(cell[p..]), p + LeadingQuotes(w) / 2;
    assert forall i :: p <= i < p + r ==> cell[i] == cell[p..][i - p];
    hide LeadingQuotes;
    if n >= p + r {
      assert r == 1 && n == |cell| && p == |cell| - 1;
      assert s != [];
    }
    if p > 0 { assert x[0] == x[..p][0] == cell[0]; }
    NotStripped(cell, p, r, n, x);
  }

  /** What is read differs from the cell at the end of the first run of quotes. */
  lemma NotStripped(cell: Text, p: nat, r: nat, n: nat, x: Text)
    requires r >= 1 && p + r <= |cell| && (forall i :: p <= i < p + r ==> cell[i] == Q)
    requires p <= n <= p + r && |x| >= n && (|x| > n ==> x[n] != Q) && (n == p + r ==> |x| > n && n == |cell|)
    requires p > 0 ==> |x| > 0 && x[0] != Q
    ensures Strip(x) != cell
  {
    if p == 0 && |x| > n && Strip(x) != x {
      assert n >= 1 && Strip(x)[n - 1] == x[n] && cell[n - 1] == Q;
    }
  }

  // ---------------------------------------------------------------- one line

  lemma StripClean(cell: Text)
    requires Q !in cell || Q !in cell[..|cell| - 1]
    ensures Strip(cell) == cell
  {
    if |cell| >= 2 { assert cell[0] == cell[..|cell| - 1][0]; }
  }

  lemma {:induction false} CellsOutside(t: Text, s: Text, cur: Text)
    requires Q !in t && COMMA !in t
    ensures Cells(t + s, false, cur) == Cells(s, false, cur + t)
    decreases |t|
  {
    if t == [] {
      assert t + s == s && cur + t == cur;
    } else {
      CellsOutside(t[1..], s, cur + [t[0]]);
      assert (t + s)[1..] == t[1..] + s;
      assert cur + [t[0]] + t[1..] == cur + t by { assert [t[0]] + t[1..] == t; }
    }
  }

  /** The rest of a line after its first field. */
  function AfterFirst(line: seq<Shown>): Text
    requires line != []
  {
    if |line| == 1 then [] else [COMMA] + Bare(line[1..])
  }

  lemma BareSplits(line: seq<Shown>)
    requires line != []
    ensures Bare(line) == BareField(line[0]) + AfterFirst(line)
    ensures AfterFirst(line) == [] || AfterFirst(line)[0] == COMMA
  {}

  /** A first field free of quotes, between quotes or bare, is read as it is. */
  lemma CleanField(c: Shown, s: Text)
    requires Q !in c.cell && (c.quoted || Plain(c.cell)) && (s == [] || s[0] == COMMA)
    ensures Cells(BareField(c) + s, false, []) == Cells(s, false, c.cell)
  {
    hide Cells;
    if c.quoted {
      CleanCell(c.cell, s);
    } else {
      CellsOutside(c.cell, s, []);
      assert [] + c.cell == c.cell;
    }
  }

  lemma FieldEnds(cell: Text)
    ensures Cells([], false, cell) == [cell]
  {}

  lemma NextField(cell: Text, rest: Text)
    ensures Cells([COMMA] + rest, false, cell) == [cell] + Cells(rest, false, [])
  {
    assert ([COMMA] + rest)[1..] == rest;
  }

  lemma CleanFirst(line: seq<Shown>)
    requires Printable(line) && Q !in line[0].cell
    ensures |line| == 1 ==> ParseLine(Bare(line)) == [line[0].cell]
    ensures |line| > 1 ==> ParseLine(Bare(line)) == [line[0].cell] + ParseLine(Bare(line[1..]))
  {
    hide Cells, BareField, Bare;
    var cell := line[0].cell;
    StripClean(cell);
    BareSplits(line);
    CleanField(line[0], AfterFirst(line));
    if |line| == 1 {
      FieldEnds(cell);
    } else {
      NextField(cell, Bare(line[1..]));
    }
  }

  lemma {:induction false} LineRight(line: seq<Shown>)
    requires Printable(line) && Readable(CellsOf(line))
    ensures ParseLine(Bare(line)) == CellsOf(line)
    decreases |line|
  {
    hide Cells, Bare, ParseLine;
    var cells := CellsOf(line);
    if |line| > 1 {
      assert CellsOf(line[1..]) == cells[1..] && Readable(cells[1..]);
      LineRight(line[1..]);
      assert ReadableAt(cells[0], false);
      CleanFirst(line);
    } else {
      assert ReadableAt(cells[0], true) && cells == [line[0].cell] && line == [line[0]];
      if Q !in cells[0] { CleanFirst(line); } else { LastQuote(line[0]); }
    }
  }

  lemma LastQuote(c: Shown)
    requires c.quoted && Q in c.cell && ReadableAt(c.cell, true)
    ensures ParseLine(Bare([c])) == [c.cell]
  {
    var t := c.cell[..|c.cell| - 1];
    StripClean(c.cell);
    EndingQuote(t);
    assert c.cell == t + [Q];
  }

  /** A line that is not readable is misread in one of its own cells. */
  lemma {:induction false} LineWrong(line: seq<Shown>) returns (j: nat)
    requires Printable(line) && !Readable(CellsOf(line))
    ensures j < |line| && j < |ParseLine(Bare(line))| && ParseLine(Bare(line))[j] != line[j].cell
    decreases |line|
  {
    hide Cells, Bare;
    var cells := CellsOf(line);
    if ReadableAt(cells[0], |cells| == 1) {
      assert CellsOf(line[1..]) == cells[1..] && !Readable(cells[1..]);
      CleanFirst(line);
      var i := LineWrong(line[1..]);
      j := i + 1;
    } else {
      BareSplits(line);
      BadCell(cells[0], AfterFirst(line));
      j := 0;
    }
  }

  // ---------------------------------------------------------------- the records of a file

  lemma {:induction false} RecordsAt(headers: seq<Text>, lines: seq<Text>, i: nat)
    requires i < |lines|
    ensures |Records(headers, lines)| == |lines|
    ensures Records(headers, lines)[i] == Record(headers, ParseLine(lines[i]), |headers|)
  {
    if |lines| > 1 { RecordsAt(headers, lines[1..], if i > 0 then i - 1 else 0); }
  }

  lemma {:induction false} BaresAt(lines: seq<seq<Shown>>, i: nat)
    requires AllPrintable(lines) && i < |lines|
    ensures |Bares(lines)| == |lines| && Bares(lines)[i] == Bare(lines[i])
  {
    if |lines| > 1 { BaresAt(lines[1..], if i > 0 then i - 1 else 0); }
  }

  lemma {:induction false} KeptAll(lines: seq<Text>)
    requires forall i :: 0 <= i < |lines| ==> NonBlank(lines[i])
    ensures Kept(lines) == lines
  {
    hide NonBlank;
    if lines != [] { KeptAll(lines[1..]); }
  }

  lemma {:induction false} KeptFewer(lines: seq<Text>)
    ensures |Kept(lines)| <= |lines|
    ensures (exists i :: 0 <= i < |lines| && !NonBlank(lines[i])) ==> |Kept(lines)| < |lines|
  {
    hide NonBlank;
    if lines != [] {
      KeptFewer(lines[1..]);
      if exists i :: 0 <= i < |lines| && !NonBlank(lines[i]) {
        var i :| 0 <= i < |lines| && !NonBlank(lines[i]);
        if i > 0 { assert lines[1..][i - 1] == lines[i]; }
      }
    }
  }

  /** A line that is blank when printed: a single blank cell without quotes. */
  predicate BlankLine(line: seq<Shown>) {
    |line| == 1 && !line[0].quoted && !NonBlank(line[0].cell)
  }

  lemma BlankExactly(line: seq<Shown>)
    requires Printable(line)
    ensures NonBlank(Bare(line)) <==> !BlankLine(line)
  {
    var b := Bare(line);
    if |line| > 1 {
      BareSplits(line);
      var k := |BareField(line[0])|;
      assert b[k] == COMMA;
    } else if line[0].quoted {
      assert b[0] == Q;
    }
  }

  // ---------------------------------------------------------------- the table

  /** What is read from a printed table, line by line. */
  lemma ParsePrinted(lines: seq<seq<Shown>>, ends: seq<Text>, bom: bool)
    requires |lines| == |ends| > 0 && Breaks(ends) && AllPrintable(lines)
    requires bom || PrintLines(lines, ends) == [] || PrintLines(lines, ends)[0] != BOM
    ensures var headers := ParseLine(Bare(lines[0]));
            Parse(Print(lines, ends, bom)) ==
              if Bare(lines[0]) == [] && ends[0] == [] then Table([], [])
              else Table(headers, Records(headers, Kept(Bares(lines[1..]))))
  {
    hide Split, ParseLine, Bare, Records, Kept, PrintLines;
    SplitPrinted(lines, ends);
    assert WithoutBom(Print(lines, ends, bom)) == PrintLines(lines, ends);
  }

  /** The keys of a record are the headers, less the one that cannot be assigned. */
  lemma {:induction false} RecordKeys(headers: seq<Text>, cells: seq<Text>, n: nat)
    requires n <= |headers|
    ensures Record(headers, cells, n).Keys == (set h | h in headers[..n]) - {Proto}
  {
    if n > 0 {
      RecordKeys(headers, cells, n - 1);
      assert headers[..n] == headers[..n - 1] + [headers[n - 1]];
    }
  }

  lemma {:induction false} RecordRight(headers: seq<Text>, row: map<Text, Text>, n: nat, h: Text)
    requires n <= |headers| && (forall k :: k in headers ==> k in row) && h in headers[..n] && h != Proto
    ensures var r := Record(headers, RowCells(headers, row), n);
            h in r && r[h] == row[h]
  {
    assert headers[..n] == headers[..n - 1] + [headers[n - 1]];
    if h != headers[n - 1] { RecordRight(headers, row, n - 1, h); }
  }

  lemma {:induction false} RecordAt(headers: seq<Text>, cells: seq<Text>, n: nat, j: nat)
    requires j < n <= |headers| && headers[j] != Proto && forall k :: j < k < n ==> headers[k] != headers[j]
    ensures var r := Record(headers, cells, n);
            headers[j] in r && r[headers[j]] == if j < |cells| then cells[j] else []
  {
    if j < n - 1 { RecordAt(headers, cells, n - 1, j); }
  }

  /** The first field is bare and starts with what is read as a byte order mark. */
  predicate LooksLikeBom(lines: seq<seq<Shown>>) {
    lines != [] && lines[0] != [] && var c := lines[0][0]; !c.quoted && c.cell != [] && c.cell[0] == BOM
  }

  predicate EmptyFile(lines: seq<seq<Shown>>, ends: seq<Text>) {
    |lines| == |ends| == 1 && ends[0] == [] && lines[0] == [Shown([], false)]
  }

  /**
   The printed table can be read: no cell holds a quote, the end of a line's last cell apart; no row
   is a blank line; a table with rows has no header that cannot be assigned; the file is not empty
   and does not start with what is taken for a byte order mark.
   */
  ghost predicate ReadableTable(lines: seq<seq<Shown>>, ends: seq<Text>, bom: bool, t: Table)
    requires Shows(lines, t) && |ends| == |lines|
  {
    && (forall i :: 0 <= i < |lines| ==> Readable(CellsOf(lines[i])))
    && (forall i :: 1 <= i < |lines| ==> !BlankLine(lines[i]))
    && (t.rows == [] || Proto !in t.headers)
    && !EmptyFile(lines, ends) && (bom || !LooksLikeBom(lines))
  }

  lemma RowRight(headers: seq<Text>, row: map<Text, Text>, line: seq<Shown>)
    requires row.Keys == (set h | h in headers) && Proto !in headers
    requires Printable(line) && CellsOf(line) == RowCells(headers, row) && Readable(CellsOf(line))
    ensures Record(headers, ParseLine(Bare(line)), |headers|) == row
  {
    hide Readable, Bare, ParseLine, Record, Printable;
    var cells := RowCells(headers, row);
    LineRight(line);
    RecordKeys(headers, cells, |headers|);
    assert headers[..|headers|] == headers;
    forall h | h in row
      ensures h in Record(headers, cells, |headers|) && Record(headers, cells, |headers|)[h] == row[h]
    {
      RecordRight(headers, row, |headers|, h);
    }
  }

  lemma StartOfFile(lines: seq<seq<Shown>>, ends: seq<Text>)
    requires |lines| == |ends| > 0 && Breaks(ends) && AllPrintable(lines)
    ensures PrintLines(lines, ends) != [] && PrintLines(lines, ends)[0] == BOM <==> LooksLikeBom(lines)
    ensures Bare(lines[0]) == [] && ends[0] == [] <==> EmptyFile(lines, ends)
  {
    var line := lines[0];
    var field := Field(line[0]);
    assert Printable(line) && (IsBreak(ends[0]) || ends[0] == []);
    if field != [] {
      assert PrintLine(line)[0] == field[0];
      assert PrintLines(lines, ends)[0] == field[0];
    } else {
      assert !line[0].quoted;
      if |line| > 1 {
        assert PrintLine(line)[0] == COMMA;
        assert PrintLines(lines, ends)[0] == COMMA;
      } else {
        assert PrintLine(line) == [];
        if ends[0] != [] {
          assert PrintLines(lines, ends)[0] == ends[0][0];
        }
      }
    }
    if Bare(line) == [] && ends[0] == [] {
      BareSplits(line);
      assert line == [Shown([], false)];
    }
  }

  /** A readable table is read back. */
  lemma ReadBack(lines: seq<seq<Shown>>, ends: seq<Text>, bom: bool, t: Table)
    requires Shows(lines, t) && |ends| == |lines| && Breaks(ends) && ReadableTable(lines, ends, bom, t)
    ensures Parse(Print(lines, ends, bom)) == t
  {
    hide Readable, Bare, ParseLine, Record, Records, Bares, Parse, Print, Breaks, Split, PrintLines, Printable,
      NonBlank;
    StartOfFile(lines, ends);
    ParsePrinted(lines, ends, bom);
    assert Readable(CellsOf(lines[0])) && Printable(lines[0]);
    LineRight(lines[0]);
    var rest := lines[1..];
    NoneBlank(lines);
    RecordsLength(t.headers, Bares(rest));
    BaresLength(rest);
    forall i | 0 <= i < |t.rows| ensures Records(t.headers, Bares(rest))[i] == t.rows[i] {
      assert rest[i] == lines[i + 1] && Readable(CellsOf(lines[i + 1])) && Printable(lines[i + 1]);
      BaresAt(rest, i);
      RecordsAt(t.headers, Bares(rest), i);
      RowRight(t.headers, t.rows[i], lines[i + 1]);
    }
  }

  lemma RecordsLength(headers: seq<Text>, lines: seq<Text>)
    ensures |Records(headers, lines)| == |lines|
  {
    if lines != [] { RecordsAt(headers, lines, 0); }
  }

  lemma BaresLength(lines: seq<seq<Shown>>)
    requires AllPrintable(lines)
    ensures |Bares(lines)| == |lines|
  {
    if lines != [] { BaresAt(lines, 0); }
  }

  lemma NoneBlank(lines: seq<seq<Shown>>)
    requires lines != [] && AllPrintable(lines) && forall i :: 1 <= i < |lines| ==> !BlankLine(lines[i])
    ensures Kept(Bares(lines[1..])) == Bares(lines[1..])
  {
    hide Bare, NonBlank, BlankLine, Printable, Bares;
    var rest := lines[1..];
    BaresLength(rest);
    forall i | 0 <= i < |rest| ensures NonBlank(Bares(rest)[i]) {
      BaresAt(rest, i);
      assert Printable(rest[i]) && rest[i] == lines[i + 1];
      BlankExactly(rest[i]);
    }
    KeptAll(Bares(rest));
  }

  lemma SomeBlank(lines: seq<seq<Shown>>, i: nat)
    requires AllPrintable(lines) && 1 <= i < |lines| && BlankLine(lines[i])
    ensures |Kept(Bares(lines[1..]))| < |lines| - 1
  {
    hide Bare, NonBlank, BlankLine, Printable, Bares, Kept;
    var rest := lines[1..];
    BaresLength(rest);
    BaresAt(rest, i - 1);
    assert Printable(rest[i - 1]) && rest[i - 1] == lines[i];
    BlankExactly(rest[i - 1]);
    KeptFewer(Bares(rest));
  }

  /** A row that is not readable, or a header that cannot be assigned, is lost. */
  lemma RowWrong(headers: seq<Text>, row: map<Text, Text>, line: seq<Shown>)
    requires row.Keys == (set h | h in headers) && Distinct(headers)
    requires Printable(line) && CellsOf(line) == RowCells(headers, row)
    requires Proto in headers || !Readable(CellsOf(line))
    ensures Record(headers, ParseLine(Bare(line)), |headers|) != row
  {
    hide Readable, Bare, ParseLine, Record, Plain;
    var read := ParseLine(Bare(line));
    if Proto in headers {
      RecordKeys(headers, read, |headers|);
      assert Proto in row.Keys && Proto !in Record(headers, read, |headers|).Keys;
    } else {
      var j := LineWrong(line);
      RecordAt(headers, read, |headers|, j);
      assert headers[j] in row.Keys;
      assert CellsOf(line)[j] == RowCells(headers, row)[j];
    }
  }

  lemma NotReadBack(lines: seq<seq<Shown>>, ends: seq<Text>, bom: bool, t: Table)
    requires Shows(lines, t) && |ends| == |lines| && Breaks(ends) && Distinct(t.headers)
    requires !ReadableTable(lines, ends, bom, t)
    ensures Parse(Print(lines, ends, bom)) != t
  {
    hide Readable, Bare, ParseLine, Records, Bares, Parse, Print, Breaks, PrintLines, Printable, BlankLine, Kept,
      Distinct;
    if !bom && LooksLikeBom(lines) {
      MistakenBom(lines, ends);
    } else {
      StartOfFile(lines, ends);
      ParsePrinted(lines, ends, bom);
      if !EmptyFile(lines, ends) {
        assert Printable(lines[0]);
        if !Readable(CellsOf(lines[0])) {
          var j := LineWrong(lines[0]);
        } else {
          LineRight(lines[0]);
          RowsWrong(lines, t);
        }
      }
    }
  }

  lemma RowsWrong(lines: seq<seq<Shown>>, t: Table)
    requires Shows(lines, t) && Distinct(t.headers) && Readable(CellsOf(lines[0]))
    requires (exists i :: 0 <= i < |lines| && !Readable(CellsOf(lines[i]))) || (t.rows != [] && Proto in t.headers)
             || exists i :: 1 <= i < |lines| && BlankLine(lines[i])
    ensures Records(t.headers, Kept(Bares(lines[1..]))) != t.rows
  {
    hide Readable, Bare, ParseLine, Record, Records, Bares, Distinct, Printable, BlankLine, Kept, NonBlank;
    var rest := lines[1..];
    RecordsLength(t.headers, Kept(Bares(rest)));
    if exists i :: 1 <= i < |lines| && BlankLine(lines[i]) {
      var i :| 1 <= i < |lines| && BlankLine(lines[i]);
      SomeBlank(lines, i);
    } else {
      NoneBlank(lines);
      var i := BadRow(lines, t);
      assert rest[i] == lines[i + 1] && Printable(lines[i + 1]);
      BaresLength(rest);
      BaresAt(rest, i);
      RecordsAt(t.headers, Bares(rest), i);
      RowWrong(t.headers, t.rows[i], lines[i + 1]);
    }
  }

  lemma BadRow(lines: seq<seq<Shown>>, t: Table) returns (i: nat)
    requires Shows(lines, t) && Readable(CellsOf(lines[0]))
    requires (exists i :: 0 <= i < |lines| && !Readable(CellsOf(lines[i]))) || (t.rows != [] && Proto in t.headers)
    ensures i < |t.rows| && (Proto in t.headers || !Readable(CellsOf(lines[i + 1])))
  {
    hide Readable;
    if t.rows != [] && Proto in t.headers {
      i := 0;
    } else {
      var k :| 0 <= k < |lines| && !Readable(CellsOf(lines[k]));
      i := k - 1;
    }
  }

  /** A bare first header that starts like a byte order mark loses its first code unit. */
  lemma MistakenBom(lines: seq<seq<Shown>>, ends: seq<Text>)
    requires |lines| == |ends| && Breaks(ends) && AllPrintable(lines) && LooksLikeBom(lines)
    ensures Parse(Print(lines, ends, false)).headers != CellsOf(lines[0])
  {
    hide ParseLine, Records, Bares, Bare, Kept;
    var cell := lines[0][0].cell;
    assert Printable(lines[0]);
    var line := [Shown(cell[1..], false)] + lines[0][1..];
    var trimmed := [line] + lines[1..];
    assert Printable(line);
    assert AllPrintable(trimmed);
    assert line[1..] == lines[0][1..] && trimmed[1..] == lines[1..];
    TrimmedText(lines, ends, trimmed);
    ParsePrinted(trimmed, ends, true);
    assert Parse(Print(lines, ends, false)) == Parse(Print(trimmed, ends, true));
    CleanFirst(line);
    assert CellsOf(lines[0])[0] == cell && cell[1..] != cell;
  }

  lemma TrimmedText(lines: seq<seq<Shown>>, ends: seq<Text>, trimmed: seq<seq<Shown>>)
    requires |lines| == |ends| == |trimmed| && AllPrintable(lines) && AllPrintable(trimmed) && LooksLikeBom(lines)
    requires trimmed[1..] == lines[1..] && trimmed[0] == [Shown(lines[0][0].cell[1..], false)] + lines[0][1..]
    ensures WithoutBom(Print(lines, ends, false)) == WithoutBom(Print(trimmed, ends, true))
  {
    hide PrintLine, Plain;
    var a, b := lines[0], trimmed[0];
    assert Printable(a) && Printable(b) && a[0].cell == [BOM] + a[0].cell[1..];
    TrimmedLine(a, b);
    var rest := ends[0] + PrintLines(lines[1..], ends[1..]);
    TextSplits(lines, ends);
    TextSplits(trimmed, ends);
    assert PrintLine(a) + rest == [BOM] + (PrintLine(b) + rest);
  }

  lemma TextSplits(lines: seq<seq<Shown>>, ends: seq<Text>)
    requires |lines| == |ends| > 0 && AllPrintable(lines)
    ensures Printable(lines[0]) && AllPrintable(lines[1..])
    ensures PrintLines(lines, ends) == PrintLine(lines[0]) + (ends[0] + PrintLines(lines[1..], ends[1..]))
  {
    hide PrintLine, Plain;
  }

  lemma TrimmedLine(a: seq<Shown>, b: seq<Shown>)
    requires a != [] && b != [] && a[1..] == b[1..] && !a[0].quoted && !b[0].quoted && a[0].cell == [BOM] + b[0].cell
    ensures PrintLine(a) == [BOM] + PrintLine(b)
  {
    hide Doubled;
    assert |a| == |b|;
    if |a| > 1 {
      var rest := [COMMA] + PrintLine(a[1..]);
      assert PrintLine(a) == a[0].cell + rest && PrintLine(b) == b[0].cell + rest;
    }
  }

  /**
   A full table with distinct headers, printed with each field between quotes or, where section 2 of
   RFC 4180 allows it, bare, with any line breaks and an optional byte order mark, is read back
   exactly when the printed table can be read.
   */
  lemma RoundTripExactly(lines: seq<seq<Shown>>, ends: seq<Text>, bom: bool, t: Table)
    requires Shows(lines, t) && |ends| == |lines| && Breaks(ends) && Distinct(t.headers)
    ensures Parse(Print(lines, ends, bom)) == t <==> ReadableTable(lines, ends, bom, t)
  {
    hide *;
    if ReadableTable(lines, ends, bom, t) {
      ReadBack(lines, ends, bom, t);
    } else {
      NotReadBack(lines, ends, bom, t);
    }
  }

  /** With every field between quotes only quotes and the one header matter. */
  lemma AllQuotedExactly(lines: seq<seq<Shown>>, ends: seq<Text>, bom: bool, t: Table)
    requires Shows(lines, t) && |ends| == |lines| && Breaks(ends) && Distinct(t.headers)
    requires forall i, j :: 0 <= i < |lines| && 0 <= j < |lines[i]| ==> lines[i][j].quoted
    ensures Parse(Print(lines, ends, bom)) == t <==>
              (forall i :: 0 <= i < |lines| ==> Readable(CellsOf(lines[i]))) && (t.rows == [] || Proto !in t.headers)
  {
    hide Readable, Parse, Print, Breaks, Distinct;
    RoundTripExactly(lines, ends, bom, t);
    assert Printable(lines[0]) && lines[0][0].quoted;
    forall i | 0 <= i < |lines| ensures !BlankLine(lines[i]) {
      assert Printable(lines[i]) && lines[i][0].quoted;
    }
  }

  /**
   Rows of any width: under a header the record has the cell of the last column of that name, and the
   empty text where the row is too short.
   */
  lemma RaggedRow(lines: seq<seq<Shown>>, ends: seq<Text>, bom: bool, i: nat, j: nat)
    requires |lines| == |ends| > 0 && Breaks(ends) && AllPrintable(lines)
    requires (forall k :: 0 <= k < |lines| ==> Readable(CellsOf(lines[k]))) && !EmptyFile(lines, ends)
    requires (forall k :: 1 <= k < |lines| ==> !BlankLine(lines[k])) && (bom || !LooksLikeBom(lines))
    requires 1 <= i < |lines| && j < |lines[0]| && lines[0][j].cell != Proto
    requires forall k :: j < k < |lines[0]| ==> lines[0][k].cell != lines[0][j].cell
    ensures var t, h := Parse(Print(lines, ends, bom)), lines[0][j].cell;
            && t.headers == CellsOf(lines[0]) && |t.rows| == |lines| - 1 && h in t.rows[i - 1]
            && t.rows[i - 1][h] == if j < |lines[i]| then lines[i][j].cell else []
  {
    hide Readable, Bare, ParseLine, Record, Records, Bares, Parse, Print, Breaks, Split, PrintLines, Plain, NonBlank;
    var headers, rest := CellsOf(lines[0]), lines[1..];
    StartOfFile(lines, ends);
    ParsePrinted(lines, ends, bom);
    assert Printable(lines[0]) && Printable(lines[i]) && rest[i - 1] == lines[i];
    LineRight(lines[0]);
    LineRight(lines[i]);
    NoneBlank(lines);
    BaresLength(rest);
    RecordsLength(headers, Bares(rest));
    BaresAt(rest, i - 1);
    RecordsAt(headers, Bares(rest), i - 1);
    RecordAt(headers, CellsOf(lines[i]), |headers|, j);
  }

  /** Whatever the file, every record has the headers as its keys. */
  lemma RecordsFull(content: Text, i: nat)
    requires i < |Parse(content).rows|
    ensures Parse(content).rows[i].Keys == (set h | h in Parse(content).headers) - {Proto}
  {
    hide Split, ParseLine, Record, Records, Kept;
    var lines := Split(WithoutBom(content), false, []);
    var headers := Parse(content).headers;
    RecordsNonEmpty(headers, Kept(lines[1..]));
    RecordsAt(headers, Kept(lines[1..]), i);
    RecordKeys(headers, ParseLine(Kept(lines[1..])[i]), |headers|);
    assert headers[..|headers|] == headers;
  }

  lemma {:induction false} RecordsNonEmpty(headers: seq<Text>, lines: seq<Text>)
    ensures |Records(headers, lines)| == |lines|
  {
    if lines != [] { RecordsNonEmpty(headers, lines[1..]); }
  }

  /** A quote within a cell is lost although it is printed doubled: `a"b` is read as `ab`. */
  lemma QuoteLost(a: Text, b: Text)
    requires Q !in a && Q !in b && COMMA !in b && b != []
    ensures Parse(Field(Shown(a + [Q] + b, true))) == Table([a + b], [])
  {
    hide Parse, ParseLine, Field, Doubled;
    var c := Shown(a + [Q] + b, true);
    OneCell(c);
    LostBetween(a, b);
  }

  lemma OneCell(c: Shown)
    requires c.quoted
    ensures Parse(Field(c)) == Table(ParseLine([Q] + c.cell + [Q]), [])
  {
    hide Split, ParseLine, Doubled;
    var bare := [Q] + c.cell + [Q];
    SplitField(c, [], []);
    SplitEnd(bare);
    assert Field(c) + [] == Field(c) && [] + bare == bare && Field(c)[0] == Q;
  }

  lemma LostBetween(a: Text, b: Text)
    requires Q !in a && Q !in b && COMMA !in b && b != []
    ensures ParseLine([Q] + (a + [Q] + b) + [Q]) == [a + b]
  {
    assert Cells([Q], false, a + b) == [a + b];
    hide Cells;
    CleanCell(a, b + [Q]);
    CellsOutside(b, [Q], a);
    assert [Q] + (a + [Q] + b) + [Q] == [Q] + a + [Q] + (b + [Q]);
    StripClean(a + b);
  }

  /** A pair of quotes around what a cell holds is lost as well: `""a""` is read as `a`. */
  lemma OuterQuotesLost(a: Text)
    requires Q !in a
    ensures Parse(Field(Shown([Q, Q] + a + [Q, Q], true))) == Table([a], [])
  {
    hide Parse, ParseLine, Field, Doubled;
    var c := Shown([Q, Q] + a + [Q, Q], true);
    OneCell(c);
    TripleQuotes(a);
    assert [Q] + c.cell + [Q] == [Q] + ([Q, Q] + (a + [Q, Q, Q]));
  }

  lemma PairRead(rest: Text, cur: Text)
    ensures Cells([Q, Q] + rest, true, cur) == Cells(rest, true, cur + [Q])
  {
    assert ([Q, Q] + rest)[2..] == rest;
  }

  lemma TripleQuotes(a: Text)
    requires Q !in a
    ensures ParseLine([Q] + ([Q, Q] + (a + [Q, Q, Q]))) == [a]
  {
    var end: Text, whole := [Q, Q, Q], [Q] + a + [Q];
    assert Cells([Q], true, whole) == [whole] by { assert Cells([], false, whole) == [whole]; }
    hide Cells;
    OpenCell([Q, Q] + (a + end));
    PairRead(a + end, []);
    assert [] + [Q] == [Q] && end == [Q, Q] + [Q];
    CellsInside(a, end, [Q]);
    PairRead([Q], [Q] + a);
    assert Strip(whole) == a;
  }
}
