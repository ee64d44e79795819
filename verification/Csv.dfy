/**
 The two-pass reader for CSV files: rows are split first, then each row is split into cells. Both
 passes treat quotes, so a doubled quote is collapsed once and what remains is read again.
 */
module Csv {
  import opened Basics
  import opened Text

  const Q: CodeUnit := 34
  const COMMA: CodeUnit := 44
  const CR: CodeUnit := 13
  const LF: CodeUnit := 10
  const BOM: CodeUnit := 0xFEFF

  /** Assigning a string to this property of a plain object has no effect. */
  const Proto: Text := Ascii("__proto__")

  datatype Table = Table(headers: seq<Text>, rows: seq<map<Text, Text>>)

  // ---------------------------------------------------------------- the two passes as functions

  /** The first pass on the unread text, inside or outside quotes, with the row read so far. */
  function Split(text: Text, inQuotes: bool, cur: Text): seq<Text>
    decreases |text|
  {
    if text == [] then (if cur == [] then [] else [cur])
    else if text[0] == Q then
      if inQuotes && |text| > 1 && text[1] == Q then Split(text[2..], inQuotes, cur + [Q])
      else Split(text[1..], !inQuotes, cur + [Q])
    else if (text[0] == LF || text[0] == CR) && !inQuotes then
      [cur] + Split(if text[0] == CR && |text| > 1 && text[1] == LF then text[2..] else text[1..], inQuotes, [])
    else Split(text[1..], inQuotes, cur + [text[0]])
  }

  /** The second pass on one row, before the outer quotes of a cell are removed. */
  function Cells(line: Text, inQuotes: bool, cur: Text): (cells: seq<Text>)
    ensures cells != []
    decreases |line|
  {
    if line == [] then [cur]
    else if line[0] == Q then
      if inQuotes && |line| > 1 && line[1] == Q then Cells(line[2..], inQuotes, cur + [Q])
      else Cells(line[1..], !inQuotes, cur)
    else if line[0] == COMMA && !inQuotes then [cur] + Cells(line[1..], inQuotes, [])
    else Cells(line[1..], inQuotes, cur + [line[0]])
  }

  function Strip(cell: Text): Text {
    if |cell| >= 2 && cell[0] == Q && cell[|cell| - 1] == Q then cell[1..|cell| - 1] else cell
  }

  function StripAll(cells: seq<Text>): (r: seq<Text>)
    ensures |r| == |cells|
  {
    if cells == [] then [] else [Strip(cells[0])] + StripAll(cells[1..])
  }

  function ParseLine(line: Text): (cells: seq<Text>)
    ensures cells != []
  {
    StripAll(Cells(line, false, []))
  }

  function Kept(lines: seq<Text>): seq<Text> {
    if lines == [] then []
    else (if NonBlank(lines[0]) then [lines[0]] else []) + Kept(lines[1..])
  }

  function CellAt(cells: seq<Text>, j: nat): Text {
    if j < |cells| then cells[j] else []
  }

  /** The record the first `n` headers build from a row; a repeated header keeps the later cell. */
  function Record(headers: seq<Text>, cells: seq<Text>, n: nat): map<Text, Text>
    requires n <= |headers|
  {
    if n == 0 then map[]
    else
      var row := Record(headers, cells, n - 1);
      if headers[n - 1] == Proto then row else row[headers[n - 1] := CellAt(cells, n - 1)]
  }

  function Records(headers: seq<Text>, lines: seq<Text>): seq<map<Text, Text>> {
    if lines == [] then []
    else [Record(headers, ParseLine(lines[0]), |headers|)] + Records(headers, lines[1..])
  }

  function WithoutBom(content: Text): Text {
    if content != [] && content[0] == BOM then content[1..] else content
  }

  function Parse(content: Text): Table {
    var lines := Split(WithoutBom(content), false, []);
    if lines == [] then Table([], [])
    else
      var headers := ParseLine(lines[0]);
      Table(headers, Records(headers, Kept(lines[1..])))
  }

  // ---------------------------------------------------------------- the loops

  method SplitCsvRows(text: Text) returns (rows: seq<Text>)
    ensures rows == Split(text, false, [])
  {
    rows := [];
    var cur: Text, inQuotes, i := [], false, 0;
    while i < |text|
      invariant 0 <= i <= |text|
      invariant Split(text, false, []) == rows + Split(text[i..], inQuotes, cur)
    {
      var ch := text[i];
      assert text[i..][1..] == text[i + 1..]
        && (i + 1 < |text| ==> text[i..][2..] == text[i + 2..] && text[i..][1] == text[i + 1]);
      if ch == Q {
        if inQuotes && i + 1 < |text| && text[i + 1] == Q {
          cur := cur + [Q];
          i := i + 1;
        } else {
          inQuotes := !inQuotes;
          cur := cur + [ch];
        }
      } else if (ch == LF || ch == CR) && !inQuotes {
        rows := rows + [cur];
        if ch == CR && i + 1 < |text| && text[i + 1] == LF { i := i + 1; }
        cur := [];
      } else {
        cur := cur + [ch];
      }
      i := i + 1;
    }
    if cur != [] { rows := rows + [cur]; }
  }

  method ParseCsvLine(line: Text) returns (cells: seq<Text>)
    ensures cells == ParseLine(line)
  {
    var raw: seq<Text> := [];
    var cur: Text, inQuotes, i := [], false, 0;
    while i < |line|
      invariant 0 <= i <= |line|
      invariant Cells(line, false, []) == raw + Cells(line[i..], inQuotes, cur)
    {
      var ch := line[i];
      assert line[i..][1..] == line[i + 1..]
        && (i + 1 < |line| ==> line[i..][2..] == line[i + 2..] && line[i..][1] == line[i + 1]);
      if ch == Q {
        if inQuotes && i + 1 < |line| && line[i + 1] == Q {
          cur := cur + [Q];
          i := i + 1;
        } else {
          inQuotes := !inQuotes;
        }
      } else if ch == COMMA && !inQuotes {
        raw := raw + [cur];
        cur := [];
      } else {
        cur := cur + [ch];
      }
      i := i + 1;
    }
    raw := raw + [cur];
    cells := StripAll(raw);
  }

  method BuildRow(headers: seq<Text>, cells: seq<Text>) returns (row: map<Text, Text>)
    ensures row == Record(headers, cells, |headers|)
  {
    row := map[];
    var j := 0;
    while j < |headers|
      invariant 0 <= j <= |headers|
      invariant row == Record(headers, cells, j)
    {
      if headers[j] != Proto { row := row[headers[j] := CellAt(cells, j)]; }
      j := j + 1;
    }
  }

  lemma KeptRecord(headers: seq<Text>, line: Text, lines: seq<Text>)
    ensures Records(headers, [line] + lines) == [Record(headers, ParseLine(line), |headers|)] + Records(headers, lines)
  {
    assert ([line] + lines)[1..] == lines;
  }

  method ParseCsv(content: Text) returns (table: Table)
    ensures table == Parse(content)
  {
    hide Split, ParseLine, NonBlank, WithoutBom, Record;
    var lines := SplitCsvRows(WithoutBom(content));
    if |lines| == 0 { return Table([], []); }
    var headers := ParseCsvLine(lines[0]);
    var out: seq<map<Text, Text>> := [];
    var i := 1;
    while i < |lines|
      invariant 1 <= i <= |lines|
      invariant Records(headers, Kept(lines[1..])) == out + Records(headers, Kept(lines[i..]))
    {
      assert lines[i..][1..] == lines[i + 1..];
      if NonBlank(lines[i]) {
        assert Kept(lines[i..]) == [lines[i]] + Kept(lines[i + 1..]);
        KeptRecord(headers, lines[i], Kept(lines[i + 1..]));
        var cells := ParseCsvLine(lines[i]);
        var row := BuildRow(headers, cells);
        out := out + [row];
      } else {
        assert Kept(lines[i..]) == Kept(lines[i + 1..]);
      }
      i := i + 1;
    }
    table := Table(headers, out);
  }

  // ---------------------------------------------------------------- printing

  /** A cell to be printed, between quotes or bare. */
  datatype Shown = Shown(cell: Text, quoted: bool)

  /** What section 2 of RFC 4180 allows without quotes. */
  predicate Plain(cell: Text) {
    Q !in cell && COMMA !in cell && CR !in cell && LF !in cell
  }

  predicate Printable(line: seq<Shown>) {
    line != [] && forall j :: 0 <= j < |line| ==> line[j].quoted || Plain(line[j].cell)
  }

  /** A cell with its quotes doubled, as section 2 of RFC 4180 asks. */
  function Doubled(cell: Text): Text {
    if cell == [] then [] else (if cell[0] == Q then [Q, Q] else [cell[0]]) + Doubled(cell[1..])
  }

  function Field(c: Shown): Text {
    if c.quoted then [Q] + Doubled(c.cell) + [Q] else c.cell
  }

  /** The fields joined by commas. */
  function PrintLine(line: seq<Shown>): Text
    requires line != []
  {
    if |line| == 1 then Field(line[0]) else Field(line[0]) + [COMMA] + PrintLine(line[1..])
  }

  /** One or more line breaks, of any kind. */
  predicate IsBreak(s: Text) {
    s != [] && forall i :: 0 <= i < |s| ==> s[i] == CR || s[i] == LF
  }

  /** Each line ends in a break of its own; the last may end without one. */
  predicate Breaks(ends: seq<Text>) {
    forall i :: 0 <= i < |ends| ==> IsBreak(ends[i]) || (i == |ends| - 1 && ends[i] == [])
  }

  predicate AllPrintable(lines: seq<seq<Shown>>) {
    forall i :: 0 <= i < |lines| ==> Printable(lines[i])
  }

  function PrintLines(lines: seq<seq<Shown>>, ends: seq<Text>): Text
    requires |lines| == |ends| && AllPrintable(lines)
  {
    if lines == [] then [] else PrintLine(lines[0]) + (ends[0] + PrintLines(lines[1..], ends[1..]))
  }

  /** Every row has a cell for every header and no other. */
  predicate Full(t: Table) {
    forall i :: 0 <= i < |t.rows| ==> t.rows[i].Keys == set h | h in t.headers
  }

  function RowCells(headers: seq<Text>, row: map<Text, Text>): (cells: seq<Text>)
    requires forall h :: h in headers ==> h in row
    ensures |cells| == |headers|
    ensures forall j :: 0 <= j < |headers| ==> cells[j] == row[headers[j]]
  {
    seq(|headers|, j requires 0 <= j < |headers| => row[headers[j]])
  }

  function CellsOf(line: seq<Shown>): (cells: seq<Text>)
    ensures |cells| == |line| && forall j :: 0 <= j < |line| ==> cells[j] == line[j].cell
  {
    seq(|line|, j requires 0 <= j < |line| => line[j].cell)
  }

  /** `lines` show the table: the headers first, then the cells of each row, each quoted or bare. */
  ghost predicate Shows(lines: seq<seq<Shown>>, t: Table) {
    && Full(t) && t.headers != [] && |lines| == |t.rows| + 1 && AllPrintable(lines)
    && CellsOf(lines[0]) == t.headers
    && forall i :: 0 <= i < |t.rows| ==> CellsOf(lines[i + 1]) == RowCells(t.headers, t.rows[i])
  }

  function Print(lines: seq<seq<Shown>>, ends: seq<Text>, bom: bool): Text
    requires |lines| == |ends| && AllPrintable(lines)
  {
    (if bom then [BOM] else []) + PrintLines(lines, ends)
  }

  // ---------------------------------------------------------------- the first pass undoes the doubling

  function BareField(c: Shown): Text {
    if c.quoted then [Q] + c.cell + [Q] else c.cell
  }

  /** A line after the first pass: quotes inside fields no longer doubled. */
  function Bare(line: seq<Shown>): Text
    requires line != []
  {
    if |line| == 1 then BareField(line[0]) else BareField(line[0]) + [COMMA] + Bare(line[1..])
  }

  lemma {:induction false} SplitInside(cell: Text, s: Text, cur: Text)
    requires s == [] || s[0] != Q
    ensures Split(Doubled(cell) + [Q] + s, true, cur) == Split(s, false, cur + cell + [Q])
    decreases |cell|
  {
    hide Split;
    if cell == [] {
      SplitClose(s, cur);
      assert Doubled(cell) + [Q] + s == [Q] + s && cur + cell + [Q] == cur + [Q];
    } else {
      var rest := Doubled(cell[1..]) + [Q] + s;
      SplitInside(cell[1..], s, cur + [cell[0]]);
      assert cur + [cell[0]] + cell[1..] + [Q] == cur + cell + [Q] by { assert [cell[0]] + cell[1..] == cell; }
      SplitStep(cell[0], rest, cur);
      assert Doubled(cell) + [Q] + s == (if cell[0] == Q then [Q, Q] else [cell[0]]) + rest;
    }
  }

  lemma SplitClose(s: Text, cur: Text)
    requires s == [] || s[0] != Q
    ensures Split([Q] + s, true, cur) == Split(s, false, cur + [Q])
  {
    assert ([Q] + s)[1..] == s;
  }

  lemma SplitOutside(ch: CodeUnit, s: Text, cur: Text)
    requires ch != CR && ch != LF
    ensures Split([ch] + s, false, cur) == Split(s, ch == Q, cur + [ch])
  {
    assert ([ch] + s)[1..] == s;
  }

  lemma SplitStep(ch: CodeUnit, rest: Text, cur: Text)
    ensures Split((if ch == Q then [Q, Q] else [ch]) + rest, true, cur) == Split(rest, true, cur + [ch])
  {
    if ch == Q {
      assert ([Q, Q] + rest)[2..] == rest;
    } else {
      assert ([ch] + rest)[1..] == rest;
    }
  }

  lemma {:induction false} SplitPlain(cell: Text, s: Text, cur: Text)
    requires Plain(cell)
    ensures Split(cell + s, false, cur) == Split(s, false, cur + cell)
    decreases |cell|
  {
    hide Split;
    if cell == [] {
      assert cell + s == s && cur + cell == cur;
    } else {
      SplitOutside(cell[0], cell[1..] + s, cur);
      SplitPlain(cell[1..], s, cur + [cell[0]]);
      assert cell + s == [cell[0]] + (cell[1..] + s);
      assert cur + [cell[0]] + cell[1..] == cur + cell by { assert [cell[0]] + cell[1..] == cell; }
    }
  }

  lemma SplitField(c: Shown, s: Text, cur: Text)
    requires (s == [] || s[0] != Q) && (c.quoted || Plain(c.cell))
    ensures Split(Field(c) + s, false, cur) == Split(s, false, cur + BareField(c))
  {
    hide Split, Doubled;
    if c.quoted {
      SplitInside(c.cell, s, cur + [Q]);
      SplitOutside(Q, Doubled(c.cell) + [Q] + s, cur);
      assert Field(c) + s == [Q] + (Doubled(c.cell) + [Q] + s);
      assert cur + [Q] + c.cell + [Q] == cur + BareField(c);
    } else {
      SplitPlain(c.cell, s, cur);
    }
  }

  lemma {:induction false} SplitLine(line: seq<Shown>, s: Text, cur: Text)
    requires Printable(line) && (s == [] || s[0] != Q)
    ensures Split(PrintLine(line) + s, false, cur) == Split(s, false, cur + Bare(line))
    decreases |line|
  {
    hide Split, Field, BareField;
    if |line| == 1 {
      SplitField(line[0], s, cur);
    } else {
      var rest := PrintLine(line[1..]) + s;
      var first := BareField(line[0]);
      assert PrintLine(line) + s == Field(line[0]) + ([COMMA] + rest);
      SplitField(line[0], [COMMA] + rest, cur);
      SplitOutside(COMMA, rest, cur + first);
      SplitLine(line[1..], s, cur + first + [COMMA]);
      assert cur + first + [COMMA] + Bare(line[1..]) == cur + Bare(line);
    }
  }

  /** After a line, any number of breaks only adds blank lines, whatever follows. */
  lemma {:induction false} SplitBreaks(e: Text, s: Text, cur: Text)
    requires IsBreak(e)
    ensures var lines := Split(e + s, false, cur);
            lines != [] && lines[0] == cur && Kept(lines[1..]) == Kept(Split(s, false, []))
    decreases |e|
  {
    var t := e + s;
    assert |t| > 1 ==> t[1] == if |e| > 1 then e[1] else s[0];
    if |e| > 1 {
      var n := if e[0] == CR && e[1] == LF then 2 else 1;
      assert t[n..] == e[n..] + s;
      assert Split(t, false, cur) == [cur] + Split(e[n..] + s, false, []);
      if |e| > n {
        SplitBreaks(e[n..], s, []);
      } else {
        assert e[n..] + s == s;
      }
    } else if e[0] == CR && s != [] && s[0] == LF {
      assert t[2..] == s[1..];
      assert Split(t, false, cur) == [cur] + Split(s[1..], false, []);
      assert Split(s, false, []) == [[]] + Split(s[1..], false, []);
      assert ([[]] + Split(s[1..], false, []))[1..] == Split(s[1..], false, []);
    } else {
      assert t[1..] == s;
      assert Split(t, false, cur) == [cur] + Split(s, false, []);
    }
  }

  /** The lines of a file after the first pass. */
  function Bares(lines: seq<seq<Shown>>): seq<Text>
    requires AllPrintable(lines)
  {
    if lines == [] then [] else [Bare(lines[0])] + Bares(lines[1..])
  }

  /**
   The first pass on printed lines gives back each line with its quotes no longer doubled, blank
   lines apart; the first one also when it is blank, unless the file is empty.
   */
  lemma {:induction false} SplitPrinted(lines: seq<seq<Shown>>, ends: seq<Text>)
    requires |lines| == |ends| && Breaks(ends) && AllPrintable(lines)
    ensures var split := Split(PrintLines(lines, ends), false, []);
            && Kept(split) == Kept(Bares(lines))
            && (lines != [] && (Bare(lines[0]) != [] || ends[0] != []) ==>
                  split != [] && split[0] == Bare(lines[0]) && Kept(split[1..]) == Kept(Bares(lines[1..])))
            && (lines != [] && Bare(lines[0]) == [] && ends[0] == [] ==> split == [])
    decreases |lines|
  {
    if lines != [] {
      hide PrintLine, Bare, NonBlank, Split;
      var first, rest := Bare(lines[0]), PrintLines(lines[1..], ends[1..]);
      assert Breaks(ends[1..]) && AllPrintable(lines[1..]);
      SplitLine(lines[0], ends[0] + rest, []);
      assert [] + first == first;
      if ends[0] == [] {
        assert lines[1..] == [] && rest == [];
        assert ends[0] + rest == [];
        SplitEnd(first);
        BlankIsDropped();
      } else {
        SplitPrinted(lines[1..], ends[1..]);
        SplitBreaks(ends[0], rest, first);
        FirstKept(Split(PrintLines(lines, ends), false, []), Bares(lines));
      }
    }
  }

  lemma SplitEnd(cur: Text)
    ensures Split([], false, cur) == if cur == [] then [] else [cur]
  {}

  lemma BlankIsDropped()
    ensures !NonBlank([])
  {}

  lemma FirstKept(a: seq<Text>, b: seq<Text>)
    requires a != [] && b != [] && a[0] == b[0] && Kept(a[1..]) == Kept(b[1..])
    ensures Kept(a) == Kept(b)
  {
    hide NonBlank;
  }
}
