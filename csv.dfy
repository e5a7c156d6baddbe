/**
 * The CSV reader of oop/csv.c++: a parser configured with a delimiter and a
 * grouper (quote) character splits its input into lines, drops the empty
 * ones, and scans every other line character by character with an
 * "inside a group" flag. The text written by `export_file` is modelled as
 * a string, without the file it goes to.
 */
module CsvTables {
  import opened Outcomes

  type Row = seq<string>
  type Table = seq<Row>

  /** A `CSV` object: two characters fixed at construction. */
  datatype Csv = Csv(delimiter: char, grouper: char) {
    /** What the constructor guarantees. */
    predicate Valid() {
      delimiter != grouper
    }
  }

  /** The `CSV` constructor: refuses one character for both roles. */
  function NewCsv(delimiter: char, grouper: char): (r: Result<Csv>)
    ensures r.Ok? <==> delimiter != grouper
    ensures r.Ok? ==> r.value.Valid() && r.value.delimiter == delimiter && r.value.grouper == grouper
    ensures r.Err? ==> r.error == SameDelimiterAndGrouper(delimiter)
  {
    if delimiter == grouper then Err(SameDelimiterAndGrouper(delimiter))
    else Ok(Csv(delimiter, grouper))
  }

  // ----- Scanning one line -----

  /** The local state of the character loop: the cells pushed so far, the
      text of the open cell, and whether a group is open. */
  datatype Scan = Scan(row: Row, cell: string, inGroup: bool)

  const Start := Scan([], "", false)

  /** One iteration of the character loop. */
  function Step(c: Csv, st: Scan, ch: char): Scan {
    if ch == c.delimiter && !st.inGroup then Scan(st.row + [st.cell], "", st.inGroup)
    else if ch == c.grouper then Scan(st.row, st.cell, !st.inGroup)
    else Scan(st.row, st.cell + [ch], st.inGroup)
  }

  /** The character loop run over `s` from the state `st`. */
  function Run(c: Csv, st: Scan, s: string): Scan
    decreases |s|
  {
    if s == [] then st else Step(c, Run(c, st, s[..|s| - 1]), s[|s| - 1])
  }

  /** One line: an open group at the end is an error; a non-empty last cell
      is pushed, an empty one dropped. */
  function ParseLine(c: Csv, line: string): Result<Row> {
    var st := Run(c, Start, line);
    if st.inGroup then Err(UnclosedGroup(line))
    else Ok(if st.cell != [] then st.row + [st.cell] else st.row)
  }

  // ----- Lines -----

  /** The pieces `split_string(text, "\n")` has finished, and the piece it
      is still reading, after the characters of `s`. */
  function Pieces(s: string): (string, seq<string>)
    decreases |s|
  {
    if s == [] then ("", [])
    else
      var (current, done) := Pieces(s[..|s| - 1]);
      var ch := s[|s| - 1];
      if ch == '\n' then ("", done + [current]) else (current + [ch], done)
  }

  /** `split_string(text, "\n")`: the pieces between newlines, including an
      empty piece before a leading, after a trailing and between two
      adjacent newlines. */
  function Split(s: string): (lines: seq<string>)
    ensures |lines| >= 1
  {
    Pieces(s).1 + [Pieces(s).0]
  }

  /** A line the outer loop skips. */
  predicate Skipped(line: string) {
    line == [] || line == "\n"
  }

  /** The outer loop over `lines`: each line that is not skipped adds one
      row; the first line with an open group aborts the parse. */
  function ParseLines(c: Csv, lines: seq<string>): Result<Table>
    decreases |lines|
  {
    if lines == [] then Ok([])
    else
      match ParseLines(c, lines[..|lines| - 1])
      case Err(e) => Err(e)
      case Ok(table) =>
        var line := lines[|lines| - 1];
        if Skipped(line) then Ok(table)
        else
          match ParseLine(c, line)
          case Err(e) => Err(e)
          case Ok(row) => Ok(table + [row])
  }

  /** `CSV::parse`. */
  function ParseText(c: Csv, text: string): Result<Table> {
    if text == [] || text == "\n" then Ok([]) else ParseLines(c, Split(text))
  }

  /** Once a prefix of the lines fails, the whole parse fails the same way. */
  lemma {:induction false} ParseLinesAborts(c: Csv, lines: seq<string>, k: nat)
    requires k <= |lines| && ParseLines(c, lines[..k]).Err?
    ensures ParseLines(c, lines) == ParseLines(c, lines[..k])
    decreases |lines|
  {
    if k < |lines| {
      var init := lines[..|lines| - 1];
      assert init[..k] == lines[..k];
      ParseLinesAborts(c, init, k);
    } else {
      assert lines[..k] == lines;
    }
  }

  /** `CSV::parse` as written: the early return, the loop over the lines of
      `split_string`, and the character loop of every line. */
  method Parse(c: Csv, rawCsv: string) returns (r: Result<Table>)
    ensures r == ParseText(c, rawCsv)
  {
    if rawCsv == [] || rawCsv == "\n" {
      return Ok([]);
    }
    var lines := Split(rawCsv);
    var table: Table := [];
    var i := 0;
    while i < |lines|
      invariant 0 <= i <= |lines|
      invariant ParseLines(c, lines[..i]) == Ok(table)
    {
      var line := lines[i];
      assert lines[..i + 1][..i] == lines[..i];
      if !(line == [] || line == "\n") {
        var row: Row := [];
        var cell: string := "";
        var inGroup := false;
        var j := 0;
        while j < |line|
          invariant 0 <= j <= |line|
          invariant Scan(row, cell, inGroup) == Run(c, Start, line[..j])
        {
          var character := line[j];
          assert line[..j + 1][..j] == line[..j];
          if character == c.delimiter && !inGroup {
            row := row + [cell];
            cell := "";
          } else if character == c.grouper {
            inGroup := !inGroup;
          } else {
            cell := cell + [character];
          }
          j := j + 1;
        }
        assert line[..j] == line;
        if inGroup {
          ParseLinesAborts(c, lines, i + 1);
          return Err(UnclosedGroup(line));
        }
        if cell != [] {
          row := row + [cell];
        }
        table := table + [row];
      }
      i := i + 1;
    }
    assert lines[..i] == lines;
    r := Ok(table);
  }

  // ----- Export -----

  /** The text `export_file` writes for one row: every cell between two
      groupers and followed by a delimiter. */
  function ExportRow(c: Csv, row: Row): string
    decreases |row|
  {
    if row == [] then []
    else ExportRow(c, row[..|row| - 1]) + [c.grouper] + row[|row| - 1] + [c.grouper, c.delimiter]
  }

  /** The text `export_file` writes for a table: one line per row. */
  function ExportText(c: Csv, table: Table): string
    decreases |table|
  {
    if table == [] then []
    else ExportText(c, table[..|table| - 1]) + ExportRow(c, table[|table| - 1]) + "\n"
  }

  /** The loops of `export_file`, writing to a string instead of a file. */
  method Export(c: Csv, table: Table) returns (text: string)
    ensures text == ExportText(c, table)
  {
    text := "";
    var i := 0;
    while i < |table|
      invariant 0 <= i <= |table|
      invariant text == ExportText(c, table[..i])
    {
      var row := table[i];
      var line := "";
      var j := 0;
      while j < |row|
        invariant 0 <= j <= |row|
        invariant line == ExportRow(c, row[..j])
      {
        assert row[..j + 1][..j] == row[..j];
        line := line + [c.grouper] + row[j] + [c.grouper, c.delimiter];
        j := j + 1;
      }
      assert row[..j] == row;
      assert table[..i + 1][..i] == table[..i];
      text := text + line + "\n";
      i := i + 1;
    }
    assert table[..i] == table;
  }

  // ----- What a line becomes -----

  /** An odd number of groupers in `s`: the text after it is grouped. */
  predicate Open(c: Csv, s: string) {
    multiset(s)[c.grouper] % 2 == 1
  }

  /** Whether the last character of a non-empty `s` is consumed as a
      grouper or an ungrouped delimiter, and so never reaches a cell. */
  predicate Structural(c: Csv, s: string)
    requires s != []
  {
    var ch := s[|s| - 1];
    ch == c.grouper || (ch == c.delimiter && !Open(c, s[..|s| - 1]))
  }

  /** The characters of `s` that end up in some cell, in order. */
  function CellText(c: Csv, s: string): string
    decreases |s|
  {
    if s == [] then []
    else CellText(c, s[..|s| - 1]) + (if Structural(c, s) then [] else [s[|s| - 1]])
  }

  /** The number of ungrouped delimiters in `s`. */
  function Separators(c: Csv, s: string): nat
    decreases |s|
  {
    if s == [] then 0
    else
      var ch := s[|s| - 1];
      Separators(c, s[..|s| - 1]) + (if ch == c.delimiter && !Open(c, s[..|s| - 1]) then 1 else 0)
  }

  /** The cell text after the last ungrouped delimiter of `s`. */
  function TrailingCell(c: Csv, s: string): string
    decreases |s|
  {
    if s == [] then []
    else
      var ch := s[|s| - 1];
      if ch == c.delimiter && !Open(c, s[..|s| - 1]) then []
      else if ch == c.grouper then TrailingCell(c, s[..|s| - 1])
      else TrailingCell(c, s[..|s| - 1]) + [ch]
  }

  /** The cells of a row, concatenated. */
  function Flatten(row: Row): string
    decreases |row|
  {
    if row == [] then [] else Flatten(row[..|row| - 1]) + row[|row| - 1]
  }

  predicate NoGrouper(c: Csv, row: Row) {
    forall i :: 0 <= i < |row| ==> c.grouper !in row[i]
  }

  /** The character loop, from the start of a line, against the reference
      definitions: the flag is the grouper parity, one cell is pushed per
      ungrouped delimiter, the open cell is the trailing text, nothing is
      lost but groupers and ungrouped delimiters, and no grouper is stored. */
  lemma RunFromStart(c: Csv, s: string)
    requires c.Valid()
    ensures var st := Run(c, Start, s);
      && (st.inGroup <==> Open(c, s))
      && |st.row| == Separators(c, s)
      && st.cell == TrailingCell(c, s)
      && Flatten(st.row) + st.cell == CellText(c, s)
      && NoGrouper(c, st.row) && c.grouper !in st.cell
  {
    RunFlag(c, s);
    RunCells(c, s);
    RunStoresNoGrouper(c, s);
  }

  /** The flag of the character loop is the parity of the groupers read. */
  lemma {:induction false} RunFlag(c: Csv, s: string)
    requires c.Valid()
    ensures Run(c, Start, s).inGroup <==> Open(c, s)
    decreases |s|
  {
    if s != [] {
      var p, ch := s[..|s| - 1], s[|s| - 1];
      RunFlag(c, p);
      assert s == p + [ch];
      assert multiset(s)[c.grouper] == multiset(p)[c.grouper] + (if ch == c.grouper then 1 else 0);
    }
  }

  lemma {:induction false} RunCells(c: Csv, s: string)
    requires c.Valid()
    ensures |Run(c, Start, s).row| == Separators(c, s)
    ensures Run(c, Start, s).cell == TrailingCell(c, s)
    ensures Flatten(Run(c, Start, s).row) + Run(c, Start, s).cell == CellText(c, s)
    decreases |s|
  {
    if s != [] {
      var p, ch := s[..|s| - 1], s[|s| - 1];
      RunCells(c, p);
      RunFlag(c, p);
      var st := Run(c, Start, p);
      assert Run(c, Start, s) == Step(c, st, ch);
      if ch == c.delimiter && !Open(c, p) {
        assert Flatten(st.row + [st.cell]) == Flatten(st.row) + st.cell by {
          assert (st.row + [st.cell])[..|st.row|] == st.row;
        }
        assert CellText(c, s) == CellText(c, p);
      } else if ch == c.grouper {
        assert CellText(c, s) == CellText(c, p);
      } else {
        assert CellText(c, s) == CellText(c, p) + [ch];
        assert TrailingCell(c, s) == TrailingCell(c, p) + [ch];
      }
    }
  }

  lemma {:induction false} RunStoresNoGrouper(c: Csv, s: string)
    ensures NoGrouper(c, Run(c, Start, s).row) && c.grouper !in Run(c, Start, s).cell
    decreases |s|
  {
    if s != [] {
      RunStoresNoGrouper(c, s[..|s| - 1]);
    }
  }

  /** A line is refused exactly when it leaves a group open; otherwise its
      row has one cell per ungrouped delimiter (empty ones included) plus
      the trailing cell if that is not empty, the cells hold the line's
      text minus groupers and ungrouped delimiters, and no cell holds a
      grouper. */
  lemma ParseLineSound(c: Csv, line: string)
    requires c.Valid()
    ensures ParseLine(c, line).Err? <==> Open(c, line)
    ensures ParseLine(c, line).Err? ==> ParseLine(c, line).error == UnclosedGroup(line)
    ensures ParseLine(c, line).Ok? ==>
      var row := ParseLine(c, line).value;
      && |row| == Separators(c, line) + (if TrailingCell(c, line) != [] then 1 else 0)
      && Flatten(row) == CellText(c, line)
      && NoGrouper(c, row)
  {
    RunFromStart(c, line);
    var st := Run(c, Start, line);
    if !st.inGroup && st.cell != [] {
      assert (st.row + [st.cell])[..|st.row|] == st.row;
    }
  }

  // ----- What a text becomes -----

  /** The lines the outer loop does not skip, in order. */
  function RowLines(lines: seq<string>): seq<string>
    decreases |lines|
  {
    if lines == [] then []
    else RowLines(lines[..|lines| - 1]) + (if Skipped(lines[|lines| - 1]) then [] else [lines[|lines| - 1]])
  }

  /** Every line of `kept` parses. */
  predicate AllParse(c: Csv, kept: seq<string>) {
    forall i :: 0 <= i < |kept| ==> ParseLine(c, kept[i]).Ok?
  }

  /** `table` holds the rows of the lines of `kept`, one each, in order. */
  predicate RowsOf(c: Csv, kept: seq<string>, table: Table) {
    |table| == |kept| && forall i :: 0 <= i < |kept| ==> ParseLine(c, kept[i]) == Ok(table[i])
  }

  /** Line `i` of `kept` is the first that fails, with error `e`. */
  predicate FirstFailure(c: Csv, kept: seq<string>, i: int, e: Error) {
    0 <= i < |kept| && ParseLine(c, kept[i]) == Err(e) && AllParse(c, kept[..i])
  }

  lemma AllParseAppend(c: Csv, before: seq<string>, line: string)
    ensures AllParse(c, before + [line]) <==> AllParse(c, before) && ParseLine(c, line).Ok?
  {
    var kept := before + [line];
    if AllParse(c, kept) {
      assert kept[|before|] == line;
      forall i | 0 <= i < |before| ensures ParseLine(c, before[i]).Ok? {
        assert kept[i] == before[i];
      }
    }
  }

  lemma RowsOfAppend(c: Csv, before: seq<string>, table: Table, line: string, row: Row)
    requires RowsOf(c, before, table) && ParseLine(c, line) == Ok(row)
    ensures RowsOf(c, before + [line], table + [row])
  {
  }

  /** The outer loop keeps the lines that are not skipped, one row each and
      in order, and succeeds exactly when each of them does. */
  lemma {:induction false} ParseLinesRows(c: Csv, lines: seq<string>)
    ensures ParseLines(c, lines).Ok? <==> AllParse(c, RowLines(lines))
    ensures ParseLines(c, lines).Ok? ==> RowsOf(c, RowLines(lines), ParseLines(c, lines).value)
    decreases |lines|
  {
    if lines != [] {
      var init, line := lines[..|lines| - 1], lines[|lines| - 1];
      ParseLinesRows(c, init);
      var before := RowLines(init);
      if Skipped(line) {
        assert RowLines(lines) == before;
        assert ParseLines(c, lines) == ParseLines(c, init);
      } else {
        assert RowLines(lines) == before + [line];
        AllParseAppend(c, before, line);
        if ParseLines(c, init).Ok? && ParseLine(c, line).Ok? {
          RowsOfAppend(c, before, ParseLines(c, init).value, line, ParseLine(c, line).value);
        }
      }
    }
  }

  /** A failing parse reports the error of the first kept line that leaves
      a group open. */
  lemma {:induction false} ParseLinesFirstError(c: Csv, lines: seq<string>)
    requires ParseLines(c, lines).Err?
    ensures exists i :: FirstFailure(c, RowLines(lines), i, ParseLines(c, lines).error)
    decreases |lines|
  {
    var init, line := lines[..|lines| - 1], lines[|lines| - 1];
    var before, kept := RowLines(init), RowLines(lines);
    assert kept == before + (if Skipped(line) then [] else [line]);
    var e := ParseLines(c, lines).error;
    if ParseLines(c, init).Err? {
      assert ParseLines(c, init).error == e;
      ParseLinesFirstError(c, init);
      var i :| FirstFailure(c, before, i, e);
      assert kept[i] == before[i] && kept[..i] == before[..i];
      assert FirstFailure(c, kept, i, e);
    } else {
      ParseLinesRows(c, init);
      assert kept[|before|] == line && kept[..|before|] == before;
      assert FirstFailure(c, kept, |before|, e);
    }
  }

  /** `Split` inverts joining with newlines. */
  function Join(lines: seq<string>): string
    requires |lines| >= 1
    decreases |lines|
  {
    if |lines| == 1 then lines[0] else Join(lines[..|lines| - 1]) + "\n" + lines[|lines| - 1]
  }

  predicate NoNewline(lines: seq<string>) {
    forall i :: 0 <= i < |lines| ==> '\n' !in lines[i]
  }

  /** Text without a newline extends the piece being read. */
  lemma {:induction false} PiecesExtend(s: string, x: string)
    requires '\n' !in x
    ensures Pieces(s + x) == (Pieces(s).0 + x, Pieces(s).1)
    decreases |x|
  {
    if x == [] {
      assert s + x == s && Pieces(s).0 + x == Pieces(s).0;
    } else {
      var y := x[..|x| - 1];
      PiecesExtend(s, y);
      assert (s + x)[..|s + x| - 1] == s + y;
      assert Pieces(s).0 + y + [x[|x| - 1]] == Pieces(s).0 + x;
    }
  }

  lemma JoinExtendsLast(done: seq<string>, current: string, x: string)
    ensures Join(done + [current + x]) == Join(done + [current]) + x
  {
    if done != [] {
      assert (done + [current + x])[..|done|] == done;
      assert (done + [current])[..|done|] == done;
    }
  }


  /** Joining the pieces of `Split` gives back the text, and no piece holds
      a newline. */
  lemma {:induction false} JoinOfSplit(s: string)
    ensures Join(Split(s)) == s && NoNewline(Split(s))
    decreases |s|
  {
    if s != [] {
      var p, ch := s[..|s| - 1], s[|s| - 1];
      JoinOfSplit(p);
      var (current, done) := Pieces(p);
      assert s == p + [ch];
      if ch == '\n' {
        assert Split(s) == (done + [current]) + [""];
      } else {
        assert Split(s) == done + [current + [ch]];
        JoinExtendsLast(done, current, [ch]);
      }
    }
  }

  /** Splitting text joined from newline-free pieces gives the pieces back. */
  lemma {:induction false} SplitOfJoin(lines: seq<string>)
    requires |lines| >= 1 && NoNewline(lines)
    ensures Split(Join(lines)) == lines
    decreases |lines|
  {
    var last := lines[|lines| - 1];
    if |lines| == 1 {
      PiecesExtend([], last);
      assert [] + last == last;
    } else {
      var init := lines[..|lines| - 1];
      SplitOfJoin(init);
      var prefix := Join(init) + "\n";
      assert Pieces(prefix) == ("", init) by {
        assert prefix[..|prefix| - 1] == Join(init);
        assert init == init[..|init| - 1] + [init[|init| - 1]];
      }
      PiecesExtend(prefix, last);
      assert Join(lines) == prefix + last;
      assert "" + last == last;
      assert lines == init + [last];
    }
  }

  /** The early return of `CSV::parse` changes nothing: "" and "\n" split
      into empty pieces only, which the loop skips. */
  lemma ParseTextIsParseLines(c: Csv, text: string)
    ensures ParseText(c, text) == ParseLines(c, Split(text))
  {
    if text == "\n" {
      assert |text| == 1 && text[0] == '\n' && text[..0] == [];
      assert Pieces(text).0 == "" && Pieces(text).1 == [""];
      assert Split(text) == ["", ""];
      assert ParseLines(c, ["", ""]) == Ok([]) by {
        assert ["", ""][..1] == [""];
        assert ParseLines(c, [""]) == Ok([]) by {
          assert [""][..0] == [];
        }
      }
    }
  }

  // ----- Reading back what `export_file` writes -----

  lemma {:induction false} RunAppend(c: Csv, st: Scan, s: string, t: string)
    ensures Run(c, st, s + t) == Run(c, Run(c, st, s), t)
    decreases |t|
  {
    if t == [] {
      assert s + t == s;
    } else {
      var u := t[..|t| - 1];
      RunAppend(c, st, s, u);
      assert (s + t)[..|s + t| - 1] == s + u;
    }
  }

  /** Inside a group every character but the grouper is cell text. */
  lemma {:induction false} RunGrouped(c: Csv, row: Row, x: string, cell: string)
    requires c.grouper !in cell
    ensures Run(c, Scan(row, x, true), cell) == Scan(row, x + cell, true)
    decreases |cell|
  {
    if cell == [] {
      assert x + cell == x;
    } else {
      var y := cell[..|cell| - 1];
      RunGrouped(c, row, x, y);
      assert x + y + [cell[|cell| - 1]] == x + cell;
    }
  }

  /** One exported cell, grouper + cell + grouper + delimiter, is read back
      as that cell. */
  lemma ReadExportedCell(c: Csv, row: Row, cell: string)
    requires c.Valid() && c.grouper !in cell
    ensures Run(c, Scan(row, "", false), [c.grouper] + cell + [c.grouper, c.delimiter]) ==
      Scan(row + [cell], "", false)
  {
    var st := Scan(row, "", false);
    var opening := [c.grouper];
    assert Run(c, st, opening) == Scan(row, "", true) by {
      assert opening[..0] == [];
    }
    RunGrouped(c, row, "", cell);
    assert "" + cell == cell;
    RunAppend(c, st, opening, cell);
    var closing := [c.grouper, c.delimiter];
    assert Run(c, Scan(row, cell, true), closing) == Scan(row + [cell], "", false) by {
      var inner := Scan(row, cell, true);
      assert closing[..1] == [c.grouper] && [c.grouper][..0] == [];
      assert Run(c, inner, [c.grouper]) == Step(c, inner, c.grouper);
      assert Step(c, inner, c.grouper) == Scan(row, cell, false);
      assert Run(c, inner, closing) == Step(c, Scan(row, cell, false), c.delimiter);
    }
    RunAppend(c, st, opening + cell, closing);
  }

  /** An exported row is read back as the row. */
  lemma {:induction false} ReadExportedRow(c: Csv, row: Row)
    requires c.Valid() && NoGrouper(c, row)
    ensures Run(c, Start, ExportRow(c, row)) == Scan(row, "", false)
    decreases |row|
  {
    if row != [] {
      var init, cell := row[..|row| - 1], row[|row| - 1];
      ReadExportedRow(c, init);
      var tail := [c.grouper] + cell + [c.grouper, c.delimiter];
      assert ExportRow(c, row) == ExportRow(c, init) + tail;
      RunAppend(c, Start, ExportRow(c, init), tail);
      ReadExportedCell(c, init, cell);
      assert init + [cell] == row;
    }
  }

  /** The lines `export_file` writes, one per row, without their newlines. */
  function ExportLines(c: Csv, table: Table): (lines: seq<string>)
    ensures |lines| == |table|
    decreases |table|
  {
    if table == [] then [] else ExportLines(c, table[..|table| - 1]) + [ExportRow(c, table[|table| - 1])]
  }

  /** The exported text is its lines joined by newlines, with a newline after
      the last. */
  lemma {:induction false} ExportTextIsJoin(c: Csv, table: Table)
    ensures ExportText(c, table) == Join(ExportLines(c, table) + [""])
    decreases |table|
  {
    if table != [] {
      var init := table[..|table| - 1];
      var lines := ExportLines(c, init);
      var row := ExportRow(c, table[|table| - 1]);
      ExportTextIsJoin(c, init);
      JoinExtendsLast(lines, "", row);
      assert "" + row == row;
      assert (lines + [row] + [""])[..|lines| + 1] == lines + [row];
    }
  }

  /** What `export_file` can write so that parsing reads it back: a valid
      parser whose two characters are not newlines, rows with at least one
      cell, and cells without the grouper or a newline. */
  predicate Exportable(c: Csv, table: Table) {
    && c.Valid() && c.delimiter != '\n' && c.grouper != '\n'
    && (forall i :: 0 <= i < |table| ==> table[i] != [])
    && (forall i, j :: 0 <= i < |table| && 0 <= j < |table[i]| ==>
          c.grouper !in table[i][j] && '\n' !in table[i][j])
  }

  lemma {:induction false} ExportRowNoNewline(c: Csv, row: Row)
    requires c.delimiter != '\n' && c.grouper != '\n'
    requires forall j :: 0 <= j < |row| ==> '\n' !in row[j]
    ensures '\n' !in ExportRow(c, row)
    decreases |row|
  {
    if row != [] {
      ExportRowNoNewline(c, row[..|row| - 1]);
    }
  }

  lemma {:induction false} ParseExportLines(c: Csv, table: Table)
    requires Exportable(c, table)
    ensures ParseLines(c, ExportLines(c, table)) == Ok(table)
    ensures NoNewline(ExportLines(c, table))
    decreases |table|
  {
    if table != [] {
      var init, row := table[..|table| - 1], table[|table| - 1];
      assert Exportable(c, init);
      ParseExportLines(c, init);
      var lines := ExportLines(c, table);
      var line := ExportRow(c, row);
      assert lines[..|lines| - 1] == ExportLines(c, init) && lines[|lines| - 1] == line;
      assert NoGrouper(c, row);
      ReadExportedRow(c, row);
      assert |line| >= 3 by {
        var last := row[..|row| - 1];
        assert line == ExportRow(c, last) + [c.grouper] + row[|row| - 1] + [c.grouper, c.delimiter];
      }
      ExportRowNoNewline(c, row);
      assert init + [row] == table;
    }
  }

  /** Parsing the text `export_file` writes gives back the table. */
  lemma ExportRoundTrip(c: Csv, table: Table)
    requires Exportable(c, table)
    ensures ParseText(c, ExportText(c, table)) == Ok(table)
  {
    var lines := ExportLines(c, table);
    ParseExportLines(c, table);
    ExportTextIsJoin(c, table);
    assert NoNewline(lines + [""]);
    SplitOfJoin(lines + [""]);
    ParseTextIsParseLines(c, ExportText(c, table));
    assert (lines + [""])[..|lines|] == lines;
  }

  // ----- Examples with a comma delimiter and a double-quote grouper -----

  const DefaultCsv := Csv(',', '"')

  /** Outside a group, text without the delimiter or the grouper is cell text. */
  lemma {:induction false} RunPlain(c: Csv, row: Row, x: string, w: string)
    requires c.delimiter !in w && c.grouper !in w
    ensures Run(c, Scan(row, x, false), w) == Scan(row, x + w, false)
    decreases |w|
  {
    if w == [] {
      assert x + w == x;
    } else {
      var y := w[..|w| - 1];
      RunPlain(c, row, x, y);
      assert x + y + [w[|w| - 1]] == x + w;
    }
  }

  /** A plain cell followed by the delimiter is pushed onto the row. */
  lemma RunPlainCell(c: Csv, row: Row, w: string)
    requires c.delimiter !in w && c.grouper !in w
    ensures Run(c, Scan(row, "", false), w + [c.delimiter]) == Scan(row + [w], "", false)
  {
    RunPlain(c, row, "", w);
    assert "" + w == w;
    RunAppend(c, Scan(row, "", false), w, [c.delimiter]);
    assert [c.delimiter][..0] == [];
  }

  /** A line whose last cell is plain, read from the state its earlier cells
      leave, gives that state's row plus the cell. */
  lemma ParseLastPlainCell(c: Csv, front: string, row: Row, w: string)
    requires Run(c, Start, front) == Scan(row, "", false)
    requires c.delimiter !in w && c.grouper !in w && w != []
    ensures ParseLine(c, front + w) == Ok(row + [w])
  {
    RunAppend(c, Start, front, w);
    RunPlain(c, row, "", w);
    assert "" + w == w;
  }

  /** A line that is one plain cell gives a row of that cell. */
  lemma ParseSingleCell(c: Csv, w: string)
    requires c.delimiter !in w && c.grouper !in w && w != []
    ensures ParseLine(c, w) == Ok([w])
  {
    ParseLastPlainCell(c, "", [], w);
    assert "" + w == w && [] + [w] == [w];
  }

  /** The first line of the tables in test.cpp. */
  lemma ParseLoremIpsum()
    ensures ParseLine(DefaultCsv, "lorem,ipsum") == Ok(["lorem", "ipsum"])
  {
    var c := DefaultCsv;
    RunPlainCell(c, [], "lorem");
    assert "lorem" + [c.delimiter] == "lorem,";
    assert Start == Scan([], "", false) && [] + ["lorem"] == ["lorem"];
    ParseLastPlainCell(c, "lorem,", ["lorem"], "ipsum");
    assert "lorem," + "ipsum" == "lorem,ipsum" && ["lorem"] + ["ipsum"] == ["lorem", "ipsum"];
  }

  /** Every delimiter outside a group ends a cell. */
  lemma ParseDolorSitAmet()
    ensures ParseLine(DefaultCsv, "dolor,sit,amet") == Ok(["dolor", "sit", "amet"])
  {
    var c := DefaultCsv;
    RunPlainCell(c, [], "dolor");
    assert "dolor" + [c.delimiter] == "dolor,";
    assert Start == Scan([], "", false) && [] + ["dolor"] == ["dolor"];
    RunPlainCell(c, ["dolor"], "sit");
    assert "sit" + [c.delimiter] == "sit,";
    RunAppend(c, Start, "dolor,", "sit,");
    assert "dolor," + "sit," == "dolor,sit,";
    ParseLastPlainCell(c, "dolor,sit,", ["dolor", "sit"], "amet");
    assert "dolor,sit," + "amet" == "dolor,sit,amet";
    assert ["dolor"] + ["sit"] == ["dolor", "sit"] && ["dolor", "sit"] + ["amet"] == ["dolor", "sit", "amet"];
  }

  /** A grouped cell between two plain ones: its delimiters are cell text
      and its groupers are dropped. */
  lemma ParseGroupedMiddle(c: Csv, first: string, cell: string, last: string)
    requires c.Valid() && c.grouper !in cell
    requires c.delimiter !in first && c.grouper !in first
    requires c.delimiter !in last && c.grouper !in last && last != []
    ensures ParseLine(c, first + [c.delimiter] + ([c.grouper] + cell + [c.grouper, c.delimiter]) + last) ==
      Ok([first, cell, last])
  {
    var front := first + [c.delimiter];
    var grouped := [c.grouper] + cell + [c.grouper, c.delimiter];
    RunPlainCell(c, [], first);
    assert [] + [first] == [first];
    ReadExportedCell(c, [first], cell);
    RunAppend(c, Start, front, grouped);
    ParseLastPlainCell(c, front + grouped, [first, cell], last);
    assert [first] + [cell] == [first, cell] && [first, cell] + [last] == [first, cell, last];
  }

  /** The grouped cell of test.cpp: the delimiters inside it stay. */
  lemma ParseGroupWithDelimiters()
    ensures ParseLine(DefaultCsv, "dolor,\"sit sit, sit, sit\",amet") == Ok(["dolor", "sit sit, sit, sit", "amet"])
  {
    var c := DefaultCsv;
    ParseGroupedMiddle(c, "dolor", "sit sit, sit, sit", "amet");
    assert "dolor" + [c.delimiter] + ([c.grouper] + "sit sit, sit, sit" + [c.grouper, c.delimiter]) + "amet" ==
      "dolor,\"sit sit, sit, sit\",amet";
  }

  /** Three plain cells, each closed by the delimiter: the cell after the
      last delimiter is empty and is not pushed. */
  lemma ParseDelimitedCells(c: Csv, first: string, second: string, third: string)
    requires c.delimiter !in first && c.grouper !in first
    requires c.delimiter !in second && c.grouper !in second
    requires c.delimiter !in third && c.grouper !in third
    ensures ParseLine(c, (first + [c.delimiter]) + (second + [c.delimiter]) + (third + [c.delimiter])) ==
      Ok([first, second, third])
  {
    var d := [c.delimiter];
    RunPlainCell(c, [], first);
    assert [] + [first] == [first];
    RunPlainCell(c, [first], second);
    RunAppend(c, Start, first + d, second + d);
    RunPlainCell(c, [first, second], third);
    RunAppend(c, Start, (first + d) + (second + d), third + d);
    assert [first] + [second] == [first, second] && [first, second] + [third] == [first, second, third];
  }

  /** An empty cell between two delimiters is kept; the empty cell after a
      trailing delimiter is not. */
  lemma ParseEmptyCells()
    ensures ParseLine(DefaultCsv, "a,,b,") == Ok(["a", "", "b"])
  {
    var c := DefaultCsv;
    ParseDelimitedCells(c, "a", "", "b");
    assert ("a" + [c.delimiter]) + ("" + [c.delimiter]) + ("b" + [c.delimiter]) == "a,,b,";
  }

  /** A group left open at the end of a line is an error naming the line. */
  lemma ParseUnclosedGroup()
    ensures ParseLine(DefaultCsv, "a,\"b") == Err(UnclosedGroup("a,\"b"))
  {
    var c := DefaultCsv;
    RunPlainCell(c, [], "a");
    assert "a" + [c.delimiter] == "a,";
    assert Start == Scan([], "", false) && [] + ["a"] == ["a"];
    assert Run(c, Scan(["a"], "", false), "\"") == Scan(["a"], "", true) by {
      assert "\""[..0] == [];
    }
    RunAppend(c, Start, "a,", "\"");
    RunGrouped(c, ["a"], "", "b");
    RunAppend(c, Start, "a,\"", "b");
    assert "a," + "\"" == "a,\"" && "a,\"" + "b" == "a,\"b";
  }

  /** Lines without newlines, joined, are parsed line by line. */
  lemma ParseTextOfLines(c: Csv, lines: seq<string>)
    requires |lines| >= 1 && NoNewline(lines)
    ensures ParseText(c, Join(lines)) == ParseLines(c, lines)
  {
    SplitOfJoin(lines);
    ParseTextIsParseLines(c, Join(lines));
  }

  /** Three lines that are not skipped and parse give three rows. */
  lemma ParseThreeLines(c: Csv, first: string, second: string, third: string, table: Table)
    requires |table| == 3 && !Skipped(first) && !Skipped(second) && !Skipped(third)
    requires ParseLine(c, first) == Ok(table[0])
    requires ParseLine(c, second) == Ok(table[1])
    requires ParseLine(c, third) == Ok(table[2])
    requires '\n' !in first && '\n' !in second && '\n' !in third
    ensures ParseText(c, first + "\n" + second + "\n" + third) == Ok(table)
  {
    var lines := [first, second, third];
    assert lines[..2] == [first, second] && [first, second][..1] == [first];
    assert [first][..0] == [];
    assert Join([first, second]) == first + "\n" + second;
    assert Join(lines) == Join([first, second]) + "\n" + third;
    assert ParseLines(c, [first]) == Ok([] + [table[0]]);
    assert [] + [table[0]] == [table[0]];
    assert ParseLines(c, [first, second]) == Ok([table[0]] + [table[1]]);
    assert ParseLines(c, lines) == Ok([table[0]] + [table[1]] + [table[2]]);
    assert [table[0]] + [table[1]] + [table[2]] == table;
    assert NoNewline(lines);
    ParseTextOfLines(c, lines);
  }

  /** `CSV::parse` on the first table of test.cpp: three lines of plain
      cells. */
  lemma ParseWithoutGroupers()
    ensures ParseText(DefaultCsv, "lorem,ipsum" + "\n" + "dolor,sit,amet" + "\n" + "consectetur") ==
      Ok([["lorem", "ipsum"], ["dolor", "sit", "amet"], ["consectetur"]])
  {
    ParseLoremIpsum();
    ParseDolorSitAmet();
    ParseSingleCell(DefaultCsv, "consectetur");
    ParseThreeLines(DefaultCsv, "lorem,ipsum", "dolor,sit,amet", "consectetur",
      [["lorem", "ipsum"], ["dolor", "sit", "amet"], ["consectetur"]]);
  }

  /** `CSV::parse` on the table of test.cpp whose middle row has a grouped
      cell with delimiters in it. */
  lemma ParseWithGroupersAndDelimiters()
    ensures ParseText(DefaultCsv, "lorem,ipsum" + "\n" + "dolor,\"sit sit, sit, sit\",amet" + "\n" + "consectetur") ==
      Ok([["lorem", "ipsum"], ["dolor", "sit sit, sit, sit", "amet"], ["consectetur"]])
  {
    ParseLoremIpsum();
    ParseGroupWithDelimiters();
    ParseSingleCell(DefaultCsv, "consectetur");
    ParseThreeLines(DefaultCsv, "lorem,ipsum", "dolor,\"sit sit, sit, sit\",amet", "consectetur",
      [["lorem", "ipsum"], ["dolor", "sit sit, sit, sit", "amet"], ["consectetur"]]);
  }

  /** `CSV::parse` on empty text and on a lone newline gives no rows. */
  lemma ParseNothing()
    ensures ParseText(DefaultCsv, "") == Ok([])
    ensures ParseText(DefaultCsv, "\n") == Ok([])
  {
  }
}
