/** The report's CSV printer and the statement importer's CSV parser (RFC 4180, section 2). */
module Csv {
  import opened Common

  type Row = seq<string>

  // ----- the printer

  /** A spreadsheet would read this text as a formula. */
  predicate FormulaLike(s: string) {
    var t := TrimStart(s);
    t != "" && t[0] in "=+-@"
  }

  /** The guarded text is never formula-like. */
  function Guard(s: string): (g: string)
    ensures !FormulaLike(g)
    ensures g == s <==> !FormulaLike(s)
    ensures g == s || g == "'" + s
  {
    if FormulaLike(s) then "'" + s else s
  }

  predicate NeedsQuotes(s: string) {
    '"' in s || ',' in s || '\n' in s
  }

  /** Every double quote written twice. */
  function Doubled(s: string): string {
    if s == "" then ""
    else (if s[0] == '"' then "\"\"" else [s[0]]) + Doubled(s[1..])
  }

  function CsvEscape(value: Option<string>): string {
    var s := Guard(if value.Some? then value.value else "");
    if NeedsQuotes(s) then "\"" + Doubled(s) + "\"" else s
  }

  /** The first character that is not white space is one a spreadsheet reads as a formula. */
  lemma {:induction false} FormulaMeans(s: string)
    ensures FormulaLike(s) <==>
              exists i :: 0 <= i < |s| && (s[i] == '=' || s[i] == '+' || s[i] == '-' || s[i] == '@')
                       && forall j | 0 <= j < i :: IsSpace(s[j])
  {
    FormulaSpaces();
    hide IsSpace;
    if s != "" && IsSpace(s[0]) {
      FormulaMeans(s[1..]);
      if i :| 0 <= i < |s[1..]| && s[1..][i] in "=+-@" && forall j | 0 <= j < i :: IsSpace(s[1..][j]) {
        assert s[i + 1] == s[1..][i];
        assert forall j | 0 <= j < i + 1 :: j == 0 || s[j] == s[1..][j - 1];
      }
      if i :| 0 <= i < |s| && s[i] in "=+-@" && forall j | 0 <= j < i :: IsSpace(s[j]) {
        assert i > 0 && s[1..][i - 1] == s[i];
        assert forall j | 0 <= j < i - 1 :: s[1..][j] == s[j + 1];
      }
    }
  }

  lemma FormulaSpaces()
    ensures !IsSpace('=') && !IsSpace('+') && !IsSpace('-') && !IsSpace('@')
  {}

  /** The text is quoted exactly when it holds a quote, a comma or a line feed; a formula is led
      by an apostrophe first. */
  lemma EscapeMeans(s: string)
    ensures var guarded := if FormulaLike(s) then "'" + s else s;
            var printed := CsvEscape(Some(s));
            if exists i :: 0 <= i < |s| && (s[i] == '"' || s[i] == ',' || s[i] == '\n')
            then |printed| >= 2 && printed[0] == '"' && printed[|printed| - 1] == '"'
            else printed == guarded
    ensures CsvEscape(None) == ""
  {
    hide FormulaLike, Doubled, TrimStart;
    assert !FormulaLike("") by {
      FormulaMeans("");
    }
    assert forall c :: c in "'" + s <==> c == '\'' || c in s;
  }

  /** A field of the report: free text, which is escaped, or a date, a number or a fixed
      heading, which is printed as it is. */
  datatype Field = Raw(text: string) | Text(value: Option<string>)
  {
    function Printed(): string {
      if Raw? then text else CsvEscape(value)
    }

    /** What a reader of the file should see: the text itself, with the formula guard. */
    function Shown(): string {
      if Raw? then text else Guard(if value.Some? then value.value else "")
    }
  }

  function PrintRow(row: seq<Field>): string {
    if row == [] then ""
    else if |row| == 1 then row[0].Printed()
    else row[0].Printed() + "," + PrintRow(row[1..])
  }

  function PrintTable(table: seq<seq<Field>>): string {
    if table == [] then ""
    else if |table| == 1 then PrintRow(table[0])
    else PrintRow(table[0]) + "\n" + PrintTable(table[1..])
  }

  // ----- the parser

  datatype State = State(rows: seq<Row>, row: Row, cell: string, inQuotes: bool)
  {
    function Append(c: char): State {
      this.(cell := cell + [c])
    }

    function EndCell(): State {
      this.(row := row + [cell], cell := "")
    }

    function EndRow(): State {
      State(rows + KeptRow(row + [cell]), [], "", inQuotes)
    }
  }

  predicate Blank(row: Row) {
    forall i | 0 <= i < |row| :: row[i] == ""
  }

  function KeptRow(row: Row): seq<Row> {
    if Blank(row) then [] else [row]
  }

  const START := State([], [], "", false)

  /** None stands for the error raised when the text ends inside quotes. */
  function Parse(text: string, st: State): Option<seq<Row>>
    decreases |text|
  {
    if text == "" then
      if st.inQuotes then None
      else if st.cell != "" || st.row != [] then Some(st.EndRow().rows)
      else Some(st.rows)
    else if st.inQuotes then
      if text[0] != '"' then Parse(text[1..], st.Append(text[0]))
      else if |text| > 1 && text[1] == '"' then Parse(text[2..], st.Append('"'))
      else Parse(text[1..], st.(inQuotes := false))
    else if text[0] == '"' then Parse(text[1..], st.(inQuotes := true))
    else if text[0] == ',' then Parse(text[1..], st.EndCell())
    else if text[0] == '\n' then Parse(text[1..], st.EndRow())
    else if text[0] == '\r' then
      Parse(text[if |text| > 1 && text[1] == '\n' then 2 else 1..], st.EndRow())
    else Parse(text[1..], st.Append(text[0]))
  }

  lemma BlankMeans(row: Row)
    ensures Blank(row) <==> !exists x :: x in row && x != ""
  {
    forall i | 0 <= i < |row| ensures row[i] in row {}
  }

  method ParseCsv(text: string) returns (r: Option<seq<Row>>)
    ensures r == Parse(text, START)
  {
    var rows: seq<Row>, row: Row, cell, inQuotes := [], [], "", false;
    var i := 0;
    while i < |text|
      invariant 0 <= i <= |text|
      invariant Parse(text[i..], State(rows, row, cell, inQuotes)) == Parse(text, START)
    {
      var c := text[i];
      ghost var rest := text[i..];
      assert rows + [] == rows && row + [] == row;
      assert rest[1..] == text[i + 1..];
      if i + 1 < |text| {
        assert rest[1] == text[i + 1] && rest[2..] == text[i + 2..];
      }
      if inQuotes {
        if c == '"' {
          if i + 1 < |text| && text[i + 1] == '"' {
            cell := cell + "\"";
            i := i + 1;
          } else {
            inQuotes := false;
          }
        } else {
          cell := cell + [c];
        }
      } else if c == '"' {
        inQuotes := true;
      } else if c == ',' {
        row, cell := row + [cell], "";
      } else if c == '\n' || c == '\r' {
        if c == '\r' && i + 1 < |text| && text[i + 1] == '\n' {
          i := i + 1;
        }
        row, cell := row + [cell], "";
        BlankMeans(row);
        if exists x :: x in row && x != "" {
          rows := rows + [row];
        }
        row := [];
      } else {
        cell := cell + [c];
      }
      i := i + 1;
    }
    if inQuotes {
      return None;
    }
    assert text[i..] == "" && rows + [] == rows;
    if cell != "" || row != [] {
      row := row + [cell];
      BlankMeans(row);
      if exists x :: x in row && x != "" {
        rows := rows + [row];
      }
    }
    return Some(rows);
  }

  // ----- which texts are rejected

  function Quotes(text: string): nat {
    if text == "" then 0 else (if text[0] == '"' then 1 else 0) + Quotes(text[1..])
  }

  lemma {:induction false} ParseRejects(text: string, st: State)
    ensures Parse(text, st).None? <==> (Quotes(text) + if st.inQuotes then 1 else 0) % 2 == 1
    decreases |text|
  {
    if text == "" {
    } else if st.inQuotes {
      if text[0] != '"' {
        ParseRejects(text[1..], st.Append(text[0]));
      } else if |text| > 1 && text[1] == '"' {
        assert text[1..][1..] == text[2..];
        ParseRejects(text[2..], st.Append('"'));
      } else {
        ParseRejects(text[1..], st.(inQuotes := false));
      }
    } else if text[0] == '"' {
      ParseRejects(text[1..], st.(inQuotes := true));
    } else if text[0] == ',' {
      ParseRejects(text[1..], st.EndCell());
    } else if text[0] == '\r' && |text| > 1 && text[1] == '\n' {
      assert text[1..][1..] == text[2..];
      ParseRejects(text[2..], st.EndRow());
    } else if text[0] == '\n' || text[0] == '\r' {
      ParseRejects(text[1..], st.EndRow());
    } else {
      ParseRejects(text[1..], st.Append(text[0]));
    }
  }

  /** A text is rejected exactly when it holds an odd number of double quotes, wherever they are. */
  lemma RejectedExactlyOnOddQuotes(text: string)
    ensures Parse(text, START).None? <==> Quotes(text) % 2 == 1
  {
    ParseRejects(text, START);
  }

  // ----- printing, then parsing

  /** No delimiter and no quote, so an unquoted run of it stays within one cell. */
  predicate Plain(s: string) {
    !NeedsQuotes(s) && '\r' !in s
  }

  lemma {:induction false} PlainRun(s: string, rest: string, st: State)
    requires Plain(s) && !st.inQuotes
    ensures Parse(s + rest, st) == Parse(rest, st.(cell := st.cell + s))
    decreases |s|
  {
    if s == "" {
      assert s + rest == rest && st.cell + s == st.cell;
    } else {
      assert (s + rest)[1..] == s[1..] + rest;
      PlainRun(s[1..], rest, st.Append(s[0]));
      assert st.cell + [s[0]] + s[1..] == st.cell + s;
    }
  }

  lemma {:induction false} QuotedRun(s: string, rest: string, st: State)
    requires st.inQuotes && (rest == "" || rest[0] != '"')
    ensures Parse(Doubled(s) + "\"" + rest, st) == Parse(rest, st.(cell := st.cell + s, inQuotes := false))
    decreases |s|
  {
    var text := Doubled(s) + "\"" + rest;
    if s == "" {
      assert text == "\"" + rest && text[1..] == rest && st.cell + s == st.cell;
    } else {
      var tail := Doubled(s[1..]) + "\"" + rest;
      assert text == (if s[0] == '"' then "\"\"" else [s[0]]) + tail;
      assert if s[0] == '"' then text[2..] == tail else text[1..] == tail;
      QuotedRun(s[1..], rest, st.Append(s[0]));
      assert st.cell + [s[0]] + s[1..] == st.cell + s;
    }
  }

  /** The rest of a printed table after a field: nothing, a comma or the end of a line. */
  predicate AtDelimiter(rest: string) {
    rest == "" || rest[0] == ',' || AtLineEnd(rest)
  }

  predicate AtLineEnd(rest: string) {
    rest == "" || rest[0] == '\n' || rest[0] == '\r'
  }

  /** A carriage return is read back only from inside quotes. */
  predicate Readable(s: string) {
    '\r' in s ==> NeedsQuotes(s)
  }

  predicate RawIsPlain(table: seq<seq<Field>>) {
    forall i, j | 0 <= i < |table| && 0 <= j < |table[i]| :: table[i][j].Raw? ==> Plain(table[i][j].text)
  }

  lemma QuotedCellRun(s: string, rest: string, st: State)
    requires AtDelimiter(rest) && st.cell == "" && !st.inQuotes
    ensures Parse("\"" + Doubled(s) + "\"" + rest, st) == Parse(rest, st.(cell := s))
  {
    assert ("\"" + Doubled(s) + "\"" + rest)[1..] == Doubled(s) + "\"" + rest;
    assert st.cell + s == s;
    QuotedRun(s, rest, st.(inQuotes := true));
  }

  lemma FieldRun(f: Field, rest: string, st: State)
    requires f.Raw? ==> Plain(f.text)
    requires Readable(f.Shown()) && AtDelimiter(rest) && st.cell == "" && !st.inQuotes
    ensures Parse(f.Printed() + rest, st) == Parse(rest, st.(cell := f.Shown()))
  {
    hide Guard, FormulaLike, TrimStart, Parse, Doubled, NeedsQuotes;
    var s := f.Shown();
    if f.Text? && NeedsQuotes(s) {
      QuotedCellRun(s, rest, st);
    } else {
      PlainRun(s, rest, st);
      assert st.cell + s == s;
    }
  }

  function ShownRow(row: seq<Field>): (shown: Row)
    ensures |shown| == |row| && forall i | 0 <= i < |row| :: shown[i] == row[i].Shown()
  {
    seq(|row|, i requires 0 <= i < |row| => row[i].Shown())
  }

  lemma CommaStep(text: string, st: State)
    requires !st.inQuotes
    ensures Parse("," + text, st) == Parse(text, st.EndCell())
  {
    assert ("," + text)[1..] == text;
  }

  predicate LineEnd(eol: string) {
    eol == "\n" || eol == "\r\n" || eol == "\r"
  }

  /** Every line end closes the row; a carriage return alone must not meet a line feed. */
  lemma LineEndStep(eol: string, text: string, st: State)
    requires LineEnd(eol) && !st.inQuotes && (eol == "\r" ==> text == "" || text[0] != '\n')
    ensures Parse(eol + text, st) == Parse(text, st.EndRow())
  {
    assert eol == "\r\n" ==> (eol + text)[2..] == text;
    assert eol != "\r\n" ==> (eol + text)[1..] == text;
  }

  lemma EndStep(st: State)
    requires !st.inQuotes
    ensures Parse("", st) == Some(st.rows + KeptRow(st.row + [st.cell]))
  {
    if st.cell == "" && st.row == [] {
      assert st.rows + [] == st.rows;
    }
  }

  lemma {:induction false} RowRun(row: seq<Field>, rest: string, st: State)
    requires row != [] && forall j | 0 <= j < |row| :: (row[j].Raw? ==> Plain(row[j].text)) && Readable(row[j].Shown())
    requires AtLineEnd(rest) && st.cell == "" && !st.inQuotes
    ensures var shown := ShownRow(row);
            Parse(PrintRow(row) + rest, st)
            == Parse(rest, st.(row := st.row + shown[..|row| - 1], cell := shown[|row| - 1]))
    decreases |row|
  {
    hide Parse, Readable, Plain, NeedsQuotes;
    hide Field.Printed, Field.Shown;
    var shown := ShownRow(row);
    if |row| == 1 {
      FieldRun(row[0], rest, st);
      assert st.row + shown[..0] == st.row;
    } else {
      var tail := PrintRow(row[1..]) + rest;
      assert PrintRow(row) + rest == row[0].Printed() + ("," + tail);
      FieldRun(row[0], "," + tail, st);
      CommaStep(tail, st.(cell := shown[0]));
      var next := st.(row := st.row + [shown[0]]);
      RowRun(row[1..], rest, next);
      hide PrintRow;
      assert ShownRow(row[1..]) == shown[1..];
      assert shown[..|row| - 1] == [shown[0]] + shown[1..][..|row| - 2];
      ConcatIsAssociative(st.row, [shown[0]], shown[1..][..|row| - 2]);
    }
  }

  /** The rows a table prints, without those whose cells are all empty. */
  function Kept(table: seq<seq<Field>>): seq<Row> {
    if table == [] then []
    else
      var row := ShownRow(table[0]);
      (if exists j :: 0 <= j < |row| && row[j] != "" then [row] else []) + Kept(table[1..])
  }

  predicate AllReadable(table: seq<seq<Field>>) {
    forall i, j | 0 <= i < |table| && 0 <= j < |table[i]| :: Readable(table[i][j].Shown())
  }

  /** One printed line leaves the parser with the row it prints, all but the last cell ended. */
  lemma LineRun(row: seq<Field>, rest: string, rows: seq<Row>) returns (st: State)
    requires forall j | 0 <= j < |row| :: (row[j].Raw? ==> Plain(row[j].text)) && Readable(row[j].Shown())
    requires AtLineEnd(rest)
    ensures st.rows == rows && !st.inQuotes && KeptRow(st.row + [st.cell]) == KeptRow(ShownRow(row))
    ensures Parse(PrintRow(row) + rest, State(rows, [], "", false)) == Parse(rest, st)
  {
    hide Parse, Readable, Plain;
    hide Field.Shown;
    st := State(rows, [], "", false);
    var shown := ShownRow(row);
    if row == [] {
      assert PrintRow(row) + rest == rest;
    } else {
      RowRun(row, rest, st);
      var n := |row| - 1;
      st := st.(row := st.row + shown[..n], cell := shown[n]);
      assert st.row + [st.cell] == shown;
    }
  }

  /** The printed rows with a line end between them. */
  function Joined(table: seq<seq<Field>>, eol: string): string {
    if table == [] then ""
    else if |table| == 1 then PrintRow(table[0])
    else PrintRow(table[0]) + eol + Joined(table[1..], eol)
  }

  lemma {:induction false} PrintedIsJoined(table: seq<seq<Field>>)
    ensures PrintTable(table) == Joined(table, "\n")
    decreases |table|
  {
    if |table| > 1 {
      PrintedIsJoined(table[1..]);
    }
  }

  /** No line starts with a line feed of its own. */
  lemma LineStart(row: seq<Field>, rest: string)
    requires forall j | 0 <= j < |row| :: row[j].Raw? ==> Plain(row[j].text)
    requires rest == "" || rest[0] != '\n'
    ensures PrintRow(row) + rest == "" || (PrintRow(row) + rest)[0] != '\n'
  {
    hide Plain;
    hide Field.Printed;
    if row == [] {
      assert PrintRow(row) + rest == rest;
    } else {
      var more := if |row| == 1 then "" else "," + PrintRow(row[1..]);
      assert PrintRow(row) == row[0].Printed() + more;
      hide PrintRow;
      FieldStart(row[0]);
      ConcatIsAssociative(row[0].Printed(), more, rest);
      StartOfConcat(more, rest);
      StartOfConcat(row[0].Printed(), more + rest);
    }
  }

  lemma StartOfConcat(a: string, b: string)
    requires (a == "" || a[0] != '\n') && (b == "" || b[0] != '\n')
    ensures a + b == "" || (a + b)[0] != '\n'
  {}

  lemma FieldStart(f: Field)
    requires f.Raw? ==> Plain(f.text)
    ensures f.Printed() == "" || f.Printed()[0] != '\n'
  {
    hide Guard, Doubled;
  }

  lemma JoinedStart(table: seq<seq<Field>>, eol: string, tail: string)
    requires RawIsPlain(table) && LineEnd(eol) && eol != "\n" && (tail == "" || tail == eol)
    ensures Joined(table, eol) + tail == "" || (Joined(table, eol) + tail)[0] != '\n'
  {
    hide PrintRow;
    if table == [] {
      assert Joined(table, eol) + tail == tail;
    } else {
      var rest := if |table| == 1 then tail else eol + Joined(table[1..], eol) + tail;
      assert Joined(table, eol) + tail == PrintRow(table[0]) + rest;
      hide Joined;
      LineStart(table[0], rest);
    }
  }

  /** Whatever ends the lines, and whether or not the last is ended, the rows are read back. */
  lemma {:induction false} LinesRun(table: seq<seq<Field>>, eol: string, tail: string, rows: seq<Row>)
    requires RawIsPlain(table) && AllReadable(table) && LineEnd(eol) && (tail == "" || tail == eol)
    ensures Parse(Joined(table, eol) + tail, State(rows, [], "", false)) == Some(rows + Kept(table))
    decreases |table|
  {
    hide Parse, PrintRow, Blank, KeptRow;
    if table == [] {
      NothingRead(tail, rows);
      assert Joined(table, eol) + tail == tail && rows + [] == rows;
    } else {
      var row := table[0];
      KeptFirst(table);
      if |table| == 1 {
        assert Joined(table, eol) == PrintRow(row);
        var st := LineRun(row, tail, rows);
        LastLineEnds(tail, st);
        assert Kept(table[1..]) == [] && KeptRow(ShownRow(row)) + [] == KeptRow(ShownRow(row));
      } else {
        var rest := Joined(table[1..], eol) + tail;
        assert Joined(table, eol) + tail == PrintRow(row) + (eol + rest);
        var st := LineRun(row, eol + rest, rows);
        if eol == "\r" {
          JoinedStart(table[1..], eol, tail);
        }
        LineEndStep(eol, rest, st);
        var here := KeptRow(ShownRow(row));
        LinesRun(table[1..], eol, tail, rows + here);
        assert Kept(table) == here + Kept(table[1..]);
        hide Joined, Kept, RawIsPlain, AllReadable;
        ConcatIsAssociative(rows, here, Kept(table[1..]));
      }
    }
  }

  lemma KeptFirst(table: seq<seq<Field>>)
    requires table != []
    ensures Kept(table) == KeptRow(ShownRow(table[0])) + Kept(table[1..])
  {}

  lemma NothingRead(tail: string, rows: seq<Row>)
    requires tail == "" || LineEnd(tail)
    ensures Parse(tail, State(rows, [], "", false)) == Some(rows)
  {
    var st := State(rows, [], "", false);
    assert KeptRow([] + [""]) == [] && st.EndRow() == st;
    EmptyText(rows);
    if tail != "" {
      assert tail + "" == tail;
      LineEndStep(tail, "", st);
    }
  }

  lemma LastLineEnds(tail: string, st: State)
    requires !st.inQuotes && (tail == "" || LineEnd(tail))
    ensures Parse(tail, st) == Some(st.rows + KeptRow(st.row + [st.cell]))
  {
    EndStep(st);
    if tail != "" {
      assert tail + "" == tail;
      LineEndStep(tail, "", st);
      EmptyText(st.EndRow().rows);
    }
  }

  lemma TableRun(table: seq<seq<Field>>, rows: seq<Row>)
    requires RawIsPlain(table) && AllReadable(table)
    ensures Parse(PrintTable(table), State(rows, [], "", false)) == Some(rows + Kept(table))
  {
    PrintedIsJoined(table);
    assert Joined(table, "\n") + "" == Joined(table, "\n");
    LinesRun(table, "\n", "", rows);
  }

  /** So a file reads the same with the line ends of any system. */
  lemma LineEndsDoNotMatter(table: seq<seq<Field>>, eol: string, ended: bool)
    requires RawIsPlain(table) && AllReadable(table)
    requires eol == "\n" || eol == "\r\n" || eol == "\r"
    ensures Parse(Joined(table, eol) + if ended then eol else "", START) == Some(Kept(table))
  {
    LinesRun(table, eol, if ended then eol else "", []);
    assert [] + Kept(table) == Kept(table);
  }

  lemma EmptyText(rows: seq<Row>)
    ensures Parse("", State(rows, [], "", false)) == Some(rows)
  {}

  // ----- when the round trip fails

  predicate AllCells(rows: seq<Row>) {
    forall r | r in rows :: forall x | x in r :: Readable(x)
  }

  /** Outside quotes, with every cell so far readable. */
  predicate Tidy(st: State) {
    !st.inQuotes && AllCells(st.rows) && AllCells([st.row]) && Readable(st.cell)
  }

  lemma EndRowStaysTidy(st: State)
    requires Tidy(st)
    ensures Tidy(st.EndRow()) && st.EndRow().EndRow() == st.EndRow()
  {
    var row := st.row + [st.cell];
    forall x | x in row ensures Readable(x) {
      assert x in st.row || x == st.cell;
      assert st.row in [st.row];
    }
    assert st.EndRow().rows + [] == st.EndRow().rows;
    assert Readable("");
  }

  /** Unquoted text, carriage returns and all, never puts one into a cell. */
  lemma {:induction false} UnquotedStaysTidy(s: string, rest: string, st: State) returns (next: State)
    requires !NeedsQuotes(s) && AtDelimiter(rest) && Tidy(st) && '\r' !in st.cell
    ensures Tidy(next) && Parse(s + rest, st) == Parse(rest, next)
    decreases |s|
  {
    if s == "" {
      assert s + rest == rest;
      return st;
    }
    assert (s + rest)[1..] == s[1..] + rest;
    if s[0] == '\r' {
      EndRowStaysTidy(st);
      next := st.EndRow();
      if |s| == 1 && rest != "" && rest[0] == '\n' {
        assert (s + rest)[2..] == rest[1..];
      } else {
        next := UnquotedStaysTidy(s[1..], rest, next);
      }
    } else {
      next := UnquotedStaysTidy(s[1..], rest, st.Append(s[0]));
    }
  }

  lemma FieldStaysTidy(f: Field, rest: string, st: State) returns (next: State)
    requires f.Raw? ==> Plain(f.text)
    requires AtDelimiter(rest) && Tidy(st) && st.cell == ""
    ensures Tidy(next) && Parse(f.Printed() + rest, st) == Parse(rest, next)
  {
    if Readable(f.Shown()) {
      FieldRun(f, rest, st);
      next := st.(cell := f.Shown());
    } else {
      next := UnquotedStaysTidy(f.Shown(), rest, st);
    }
  }

  lemma {:induction false} RowStaysTidy(row: seq<Field>, rest: string, st: State) returns (next: State)
    requires forall j | 0 <= j < |row| :: row[j].Raw? ==> Plain(row[j].text)
    requires AtLineEnd(rest) && Tidy(st) && st.cell == ""
    ensures Tidy(next) && Parse(PrintRow(row) + rest, st) == Parse(rest, next)
    decreases |row|
  {
    hide Parse;
    hide Field.Printed;
    if row == [] {
      assert PrintRow(row) + rest == rest;
      next := st;
    } else if |row| == 1 {
      next := FieldStaysTidy(row[0], rest, st);
    } else {
      var tail := PrintRow(row[1..]) + rest;
      assert PrintRow(row) + rest == row[0].Printed() + ("," + tail);
      var mid := FieldStaysTidy(row[0], "," + tail, st);
      CommaStep(tail, mid);
      forall x | x in mid.EndCell().row ensures Readable(x) {
        assert x in mid.row || x == mid.cell;
        assert mid.row in [mid.row];
      }
      next := RowStaysTidy(row[1..], rest, mid.EndCell());
    }
  }

  lemma {:induction false} TableStaysTidy(table: seq<seq<Field>>, st: State) returns (rows: seq<Row>)
    requires RawIsPlain(table) && Tidy(st) && st.cell == ""
    ensures Parse(PrintTable(table), st) == Some(rows) && AllCells(rows)
    decreases |table|
  {
    hide Parse, PrintRow;
    if table == [] {
      EndStep(st);
      EndRowStaysTidy(st);
      rows := st.EndRow().rows;
    } else if |table| == 1 {
      assert PrintTable(table) == PrintRow(table[0]) + "";
      var next := RowStaysTidy(table[0], "", st);
      EndStep(next);
      EndRowStaysTidy(next);
      rows := next.EndRow().rows;
    } else {
      var rest := PrintTable(table[1..]);
      assert PrintTable(table) == PrintRow(table[0]) + ("\n" + rest);
      var next := RowStaysTidy(table[0], "\n" + rest, st);
      LineEndStep("\n", rest, next);
      EndRowStaysTidy(next);
      rows := TableStaysTidy(table[1..], next.EndRow());
    }
  }

  lemma {:induction false} KeptHasRow(table: seq<seq<Field>>, i: nat)
    requires i < |table| && !Blank(ShownRow(table[i]))
    ensures ShownRow(table[i]) in Kept(table)
    decreases |table|
  {
    if i > 0 {
      KeptHasRow(table[1..], i - 1);
    } else {
      assert Kept(table)[0] == ShownRow(table[0]);
    }
  }

  /** Parsing a printed table gives back its rows, less the blank ones, exactly when no cell
      holds a carriage return without also holding a quote, a comma or a line feed. */
  lemma RoundTripsExactly(table: seq<seq<Field>>)
    requires RawIsPlain(table)
    ensures Parse(PrintTable(table), START) == Some(Kept(table)) <==> AllReadable(table)
  {
    if AllReadable(table) {
      TableRun(table, []);
      assert [] + Kept(table) == Kept(table);
    } else {
      var rows := TableStaysTidy(table, START);
      var i, j :| 0 <= i < |table| && 0 <= j < |table[i]| && !Readable(table[i][j].Shown());
      var shown := ShownRow(table[i]);
      assert shown[j] in shown && shown[j] != "";
      KeptHasRow(table, i);
    }
  }

  /** A bare carriage return splits its row in two. */
  lemma BareCarriageReturnSplits()
    ensures var table: seq<seq<Field>> := [[Text(Some("a\rb"))]];
            && PrintTable(table) == "a\rb" && Kept(table) == [["a\rb"]]
            && Parse("a\rb", START) == Some([["a"], ["b"]])
  {
    var table: seq<seq<Field>> := [[Text(Some("a\rb"))]];
    assert !NeedsQuotes("a\rb") && !FormulaLike("a\rb");
    assert table[0][0].Printed() == "a\rb" && table[0] == [table[0][0]] && table == [table[0]];
    assert ShownRow(table[0]) == ["a\rb"] && table[1..] == [];
    BareCarriageReturnParses();
  }

  lemma BareCarriageReturnParses()
    ensures Parse("a\rb", START) == Some([["a"], ["b"]])
  {
    assert ["a"][0] != "" && ["b"][0] != "" && [] + ["a"] == ["a"] && [] + ["b"] == ["b"];
    assert KeptRow(["a"]) == [["a"]] && KeptRow(["b"]) == [["b"]] && [["a"]] + [["b"]] == [["a"], ["b"]];
    var first, second := START.Append('a'), State([["a"]], [], "", false);
    assert first.cell == "a" && first.EndRow() == second;
    assert second.Append('b').cell == "b" && second.Append('b').EndRow().rows == [["a"], ["b"]];
    assert "a\rb"[1..] == "\rb" && "\rb"[1..] == "b" && "b"[1..] == "";
    assert Parse("b", second) == Parse("", second.Append('b'));
    assert Parse("\rb", first) == Parse("b", second);
  }
}
