/**
  `parseCSV` of the wheel application: the reader for the validation table.
  Quoted cells may hold commas, line breaks and doubled quotes; records end
  at `\n`, `\r` or `\r\n` outside quotes; records whose cells are all blank
  are dropped; the first record is the header and every later record becomes
  a row keyed by the trimmed header names.
*/
module Csv {
  import opened Text

  /** A row of the table, header name to cell text. */
  type Row = map<string, string>

  /** The reader's state: finished records, the record being read, the cell being read, and whether a quote is open. */
  datatype Lexer = Lexer(rows: seq<seq<string>>, row: seq<string>, cur: string, inQuotes: bool)

  function Start(): Lexer
  {
    Lexer([], [], [], false)
  }

  /** `row.some((cell) => String(cell).trim() !== "")`: some cell is not blank. */
  predicate NonBlank(row: seq<string>)
  {
    exists k | 0 <= k < |row| :: Trim(row[k]) != []
  }

  /** The end of a record: the open cell joins the record, which is kept only when it is not blank. */
  function EndRecord(st: Lexer): (r: Lexer)
    ensures r.row == [] && r.cur == [] && r.inQuotes == st.inQuotes
    ensures NonBlank(st.row + [st.cur]) ==> r.rows == st.rows + [st.row + [st.cur]]
    ensures !NonBlank(st.row + [st.cur]) ==> r.rows == st.rows
  {
    var row := st.row + [st.cur];
    Lexer(if NonBlank(row) then st.rows + [row] else st.rows, [], [], st.inQuotes)
  }

  /**
    One pass of the loop body at the start of `s`: how many characters it
    consumes and the state it leaves. A doubled quote inside quotes is one
    quote; a quote opens or closes quoting; outside quotes a comma ends the
    cell and a line break (`\r\n` counting as one) ends the record; any other
    character joins the cell.
  */
  function Step(s: string, st: Lexer): (r: (nat, Lexer))
    requires s != []
    ensures 1 <= r.0 <= |s| && r.0 <= 2
  {
    var ch := s[0];
    if ch == '"' && st.inQuotes && |s| > 1 && s[1] == '"' then (2, st.(cur := st.cur + ['"']))
    else if ch == '"' then (1, st.(inQuotes := !st.inQuotes))
    else if ch == ',' && !st.inQuotes then (1, st.(row := st.row + [st.cur], cur := []))
    else if (ch == '\n' || ch == '\r') && !st.inQuotes then
      (if ch == '\r' && |s| > 1 && s[1] == '\n' then 2 else 1, EndRecord(st))
    else (1, st.(cur := st.cur + [ch]))
  }

  /** The character loop of `parseCSV`, run over the rest `s` of the text from state `st`. */
  function Lex(s: string, st: Lexer): Lexer
    decreases |s|
  {
    if s == [] then st
    else
      var (n, next) := Step(s, st);
      Lex(s[n..], next)
  }

  /** The records of `text`, header first: the loop, then the end of the last record. */
  function Records(text: string): seq<seq<string>>
  {
    EndRecord(Lex(text, Start())).rows
  }

  /** `r[idx] ?? ""`: a record shorter than the header reads "" past its end. */
  function Cell(r: seq<string>, idx: nat): string
  {
    if idx < |r| then r[idx] else []
  }

  /** The header names, each trimmed. */
  function TrimAll(h: seq<string>): seq<string>
  {
    seq(|h|, j requires 0 <= j < |h| => Trim(h[j]))
  }

  /** `header.forEach((h, idx) => (obj[h] = r[idx] ?? ""))`: one object per record. */
  function MakeRecord(header: seq<string>, r: seq<string>): (obj: Row)
    ensures obj.Keys == set h | h in header
  {
    if header == [] then map[]
    else
      var n := |header| - 1;
      MakeRecord(header[..n], r)[header[n] := Cell(r, n)]
  }

  /** One object per record, under `header`. */
  function ObjectsUnder(header: seq<string>, records: seq<seq<string>>): (objs: seq<Row>)
    ensures |objs| == |records|
    ensures forall k | 0 <= k < |records| :: objs[k] == MakeRecord(header, records[k])
  {
    if records == [] then []
    else
      var n := |records| - 1;
      ObjectsUnder(header, records[..n]) + [MakeRecord(header, records[n])]
  }

  /** The objects `parseCSV` returns for the records `rows`: none without a header. */
  function RecordsOf(rows: seq<seq<string>>): (objs: seq<Row>)
    ensures rows == [] ==> objs == []
    ensures rows != [] ==> |objs| == |rows| - 1
    ensures rows != [] ==> forall k | 0 <= k < |objs| :: objs[k] == MakeRecord(TrimAll(rows[0]), rows[k + 1])
  {
    if rows == [] then [] else ObjectsUnder(TrimAll(rows[0]), rows[1..])
  }

  /** The object of record `r` has, for each header name, the cell under the last column with that name. */
  lemma {:induction false} MakeRecordLastWins(header: seq<string>, r: seq<string>, idx: nat)
    requires idx < |header|
    requires forall j | idx < j < |header| :: header[j] != header[idx]
    ensures MakeRecord(header, r)[header[idx]] == Cell(r, idx)
  {
    var n := |header| - 1;
    if idx < n {
      MakeRecordLastWins(header[..n], r, idx);
    }
  }

  /** Only records with a non-blank cell are ever kept, and kept records stay in place. */
  lemma {:induction false} LexKeepsNonBlank(s: string, st: Lexer)
    requires forall k | 0 <= k < |st.rows| :: NonBlank(st.rows[k])
    ensures forall k | 0 <= k < |Lex(s, st).rows| :: NonBlank(Lex(s, st).rows[k])
    ensures st.rows <= Lex(s, st).rows
    decreases |s|
  {
    if s != [] {
      var (n, next) := Step(s, st);
      LexKeepsNonBlank(s[n..], next);
    }
  }

  /** Every record `parseCSV` reads, the header included, has a cell that is not blank. */
  lemma RecordsNonBlank(text: string)
    ensures forall k | 0 <= k < |Records(text)| :: NonBlank(Records(text)[k])
  {
    LexKeepsNonBlank(text, Start());
  }

  // ---------------------------------------------------------------------------
  // Writing a table the way RFC 4180 quotes it, and reading it back.
  // ---------------------------------------------------------------------------

  /** A cell's text with every quote doubled. */
  function Escape(c: string): string
  {
    if c == [] then [] else (if c[0] == '"' then ['"', '"'] else [c[0]]) + Escape(c[1..])
  }

  /** A cell in quotes. */
  function Quote(c: string): string
  {
    ['"'] + Escape(c) + ['"']
  }

  /** A record's quoted cells, separated by commas. */
  function EncodeCells(cells: seq<string>): string
    requires |cells| >= 1
  {
    Quote(cells[0]) + (if |cells| == 1 then [] else [','] + EncodeCells(cells[1..]))
  }

  /** The line ends `parseCSV` accepts. */
  predicate LineEnd(eol: string)
  {
    eol == ['\n'] || eol == ['\r', '\n'] || eol == ['\r']
  }

  /** A table written record by record, each followed by `eol`. */
  function Encode(table: seq<seq<string>>, eol: string): string
    requires forall k | 0 <= k < |table| :: |table[k]| >= 1
  {
    if table == [] then [] else EncodeCells(table[0]) + (eol + Encode(table[1..], eol))
  }

  /** The records of `table` that have a cell that is not blank. */
  function KeepNonBlank(table: seq<seq<string>>): (r: seq<seq<string>>)
    ensures |r| <= |table|
  {
    if table == [] then []
    else (if NonBlank(table[0]) then [table[0]] else []) + KeepNonBlank(table[1..])
  }

  /** Inside quotes, an escaped cell and its closing quote read back as the cell. */
  lemma {:induction false} LexEscaped(c: string, rest: string, st: Lexer)
    requires st.inQuotes
    requires rest == [] || rest[0] != '"'
    ensures Lex(Escape(c) + ['"'] + rest, st) == Lex(rest, st.(cur := st.cur + c, inQuotes := false))
    decreases |c|
  {
    var s := Escape(c) + ['"'] + rest;
    if c == [] {
      assert s == ['"'] + rest;
      assert Step(s, st) == (1, st.(inQuotes := false));
      assert s[1..] == rest;
      assert st.cur + c == st.cur;
    } else if c[0] == '"' {
      assert s == ['"', '"'] + (Escape(c[1..]) + ['"'] + rest);
      assert Step(s, st) == (2, st.(cur := st.cur + ['"']));
      assert s[2..] == Escape(c[1..]) + ['"'] + rest;
      LexEscaped(c[1..], rest, st.(cur := st.cur + ['"']));
      assert st.cur + ['"'] + c[1..] == st.cur + c;
    } else {
      assert s == [c[0]] + (Escape(c[1..]) + ['"'] + rest);
      assert Step(s, st) == (1, st.(cur := st.cur + [c[0]]));
      assert s[1..] == Escape(c[1..]) + ['"'] + rest;
      LexEscaped(c[1..], rest, st.(cur := st.cur + [c[0]]));
      assert st.cur + [c[0]] + c[1..] == st.cur + c;
    }
  }

  /** A quoted cell reads back as the cell. */
  lemma LexQuoted(c: string, rest: string, st: Lexer)
    requires !st.inQuotes
    requires rest == [] || rest[0] != '"'
    ensures Lex(Quote(c) + rest, st) == Lex(rest, st.(cur := st.cur + c))
  {
    var s := Quote(c) + rest;
    assert s == ['"'] + (Escape(c) + ['"'] + rest);
    assert Step(s, st) == (1, st.(inQuotes := true));
    assert s[1..] == Escape(c) + ['"'] + rest;
    LexEscaped(c, rest, st.(inQuotes := true));
  }

  /** A comma outside quotes ends the cell. */
  lemma LexComma(rest: string, st: Lexer)
    requires !st.inQuotes
    ensures Lex([','] + rest, st) == Lex(rest, st.(row := st.row + [st.cur], cur := []))
  {
    var s := [','] + rest;
    assert Step(s, st) == (1, st.(row := st.row + [st.cur], cur := []));
    assert s[1..] == rest;
  }

  /** A line end outside quotes ends the record; a lone `\r` only when no `\n` follows it. */
  lemma LexLineEnd(eol: string, rest: string, st: Lexer)
    requires LineEnd(eol) && !st.inQuotes
    requires eol == "\r" ==> rest == [] || rest[0] != '\n'
    ensures Lex(eol + rest, st) == Lex(rest, EndRecord(st))
  {
    var s := eol + rest;
    assert Step(s, st) == (|eol|, EndRecord(st));
    assert s[|eol|..] == rest;
  }

  /** A written record reads back as its cells: all but the last in the record, the last as the open cell. */
  lemma {:induction false} LexCells(cells: seq<string>, rest: string, st: Lexer)
    requires |cells| >= 1
    requires !st.inQuotes && st.cur == []
    requires rest == [] || rest[0] != '"'
    ensures Lex(EncodeCells(cells) + rest, st)
      == Lex(rest, st.(row := st.row + cells[..|cells| - 1], cur := cells[|cells| - 1]))
    decreases |cells|
  {
    if |cells| == 1 {
      assert EncodeCells(cells) + rest == Quote(cells[0]) + rest;
      LexQuoted(cells[0], rest, st);
      assert st.cur + cells[0] == cells[0];
      assert st.row + cells[..0] == st.row;
    } else {
      var next := st.(row := st.row + [cells[0]]);
      LexFirstCell(cells, rest, st);
      LexCells(cells[1..], rest, next);
      RowAfterFirstCell(cells, st.row);
    }
  }

  /** The first quoted cell and its comma move the cell into the record. */
  lemma LexFirstCell(cells: seq<string>, rest: string, st: Lexer)
    requires |cells| >= 2
    requires !st.inQuotes && st.cur == []
    ensures Lex(EncodeCells(cells) + rest, st) == Lex(EncodeCells(cells[1..]) + rest, st.(row := st.row + [cells[0]]))
  {
    var more := EncodeCells(cells[1..]) + rest;
    var st1 := st.(cur := cells[0]);
    EncodeCellsAppend(cells, rest);
    LexQuoted(cells[0], [','] + more, st);
    assert st.(cur := st.cur + cells[0]) == st1;
    LexComma(more, st1);
  }

  lemma RowAfterFirstCell(cells: seq<string>, row: seq<string>)
    requires |cells| >= 2
    ensures row + [cells[0]] + cells[1..][..|cells[1..]| - 1] == row + cells[..|cells| - 1]
  {
    assert cells[..|cells| - 1] == [cells[0]] + cells[1..][..|cells[1..]| - 1];
  }

  lemma EncodeCellsAppend(cells: seq<string>, rest: string)
    requires |cells| >= 2
    ensures EncodeCells(cells) + rest == Quote(cells[0]) + ([','] + (EncodeCells(cells[1..]) + rest))
  {
  }

  /** A record made of the cells `row` and the open cell `cur` ends: it is kept when it is not blank. */
  lemma EndRecordOfCells(cells: seq<string>, st: Lexer)
    requires |cells| >= 1 && st.row == [] && st.cur == []
    ensures EndRecord(st.(row := cells[..|cells| - 1], cur := cells[|cells| - 1]))
      == st.(rows := st.rows + if NonBlank(cells) then [cells] else [])
  {
    assert cells[..|cells| - 1] + [cells[|cells| - 1]] == cells;
  }

  /** A written record and its line end read back as the record, kept when it is not blank. */
  lemma LexLine(cells: seq<string>, eol: string, after: string, st: Lexer)
    requires |cells| >= 1 && LineEnd(eol)
    requires !st.inQuotes && st.row == [] && st.cur == []
    requires after == [] || after[0] == '"'
    ensures Lex(EncodeCells(cells) + (eol + after), st)
      == Lex(after, EndRecord(st.(row := cells[..|cells| - 1], cur := cells[|cells| - 1])))
  {
    LexCells(cells, eol + after, st);
    assert st.row + cells[..|cells| - 1] == cells[..|cells| - 1];
    LexLineEnd(eol, after, st.(row := cells[..|cells| - 1], cur := cells[|cells| - 1]));
  }

  /** A written table is empty or starts with the opening quote of its first cell. */
  lemma EncodeStart(table: seq<seq<string>>, eol: string)
    requires forall k | 0 <= k < |table| :: |table[k]| >= 1
    ensures Encode(table, eol) == [] || Encode(table, eol)[0] == '"'
  {
  }

  /** A written table reads back as its non-blank records. */
  lemma {:induction false} LexEncoded(table: seq<seq<string>>, eol: string, st: Lexer)
    requires forall k | 0 <= k < |table| :: |table[k]| >= 1
    requires LineEnd(eol)
    requires !st.inQuotes && st.row == [] && st.cur == []
    ensures Lex(Encode(table, eol), st) == st.(rows := st.rows + KeepNonBlank(table))
    decreases |table|
  {
    if table != [] {
      var next := st.(rows := st.rows + if NonBlank(table[0]) then [table[0]] else []);
      LexEncoded(table[1..], eol, next);
      LexEncodedStep(table, eol, st);
    }
  }

  lemma LexEncodedStep(table: seq<seq<string>>, eol: string, st: Lexer)
    requires table != [] && forall k | 0 <= k < |table| :: |table[k]| >= 1
    requires LineEnd(eol)
    requires !st.inQuotes && st.row == [] && st.cur == []
    requires var next := st.(rows := st.rows + if NonBlank(table[0]) then [table[0]] else []);
      Lex(Encode(table[1..], eol), next) == next.(rows := next.rows + KeepNonBlank(table[1..]))
    ensures Lex(Encode(table, eol), st) == st.(rows := st.rows + KeepNonBlank(table))
  {
    var kept := if NonBlank(table[0]) then [table[0]] else [];
    LexFirstRecord(table, eol, st);
    assert KeepNonBlank(table) == kept + KeepNonBlank(table[1..]);
    assert st.rows + kept + KeepNonBlank(table[1..]) == st.rows + KeepNonBlank(table);
  }

  /** The first written record and its line end read back as that record, kept when it is not blank. */
  lemma LexFirstRecord(table: seq<seq<string>>, eol: string, st: Lexer)
    requires table != [] && forall k | 0 <= k < |table| :: |table[k]| >= 1
    requires LineEnd(eol)
    requires !st.inQuotes && st.row == [] && st.cur == []
    ensures Lex(Encode(table, eol), st)
      == Lex(Encode(table[1..], eol), st.(rows := st.rows + if NonBlank(table[0]) then [table[0]] else []))
  {
    var cells := table[0];
    var after := Encode(table[1..], eol);
    assert Encode(table, eol) == EncodeCells(cells) + (eol + after);
    var open := st.(row := cells[..|cells| - 1], cur := cells[|cells| - 1]);
    assert Lex(EncodeCells(cells) + (eol + after), st) == Lex(after, EndRecord(open)) by {
      EncodeStart(table[1..], eol);
      LexLine(cells, eol, after, st);
    }
    EndRecordOfCells(cells, st);
  }

  /**
    Reading a table written with quoted cells and any accepted line end gives
    back exactly its non-blank records, in order: commas, line breaks and
    quotes inside cells survive the round trip.
  */
  lemma RecordsOfEncode(table: seq<seq<string>>, eol: string)
    requires forall k | 0 <= k < |table| :: |table[k]| >= 1
    requires LineEnd(eol)
    ensures Records(Encode(table, eol)) == KeepNonBlank(table)
  {
    LexEncoded(table, eol, Start());
    assert !NonBlank([[]]) by {
      assert Trim([]) == [];
    }
  }

  /** The objects built from each record, by the `forEach` loop. */
  method BuildRecord(header: seq<string>, r: seq<string>) returns (obj: Row)
    ensures obj == MakeRecord(header, r)
  {
    obj := map[];
    for idx := 0 to |header|
      invariant obj == MakeRecord(header[..idx], r)
    {
      assert header[..idx + 1][..idx] == header[..idx];
      var cell := if idx < |r| then r[idx] else [];
      obj := obj[header[idx] := cell];
    }
    assert header[..|header|] == header;
  }

  /** The character loop of `parseCSV` and the end of the last record. */
  method ReadRecords(text: string) returns (rows: seq<seq<string>>)
    ensures rows == Records(text)
  {
    rows := [];
    var row: seq<string> := [];
    var cur: string := [];
    var inQuotes := false;
    var i := 0;
    while i < |text|
      invariant 0 <= i <= |text|
      invariant Lex(text[i..], Lexer(rows, row, cur, inQuotes)) == Lex(text, Start())
      decreases |text| - i
    {
      ghost var step := Step(text[i..], Lexer(rows, row, cur, inQuotes));
      ghost var from := i;
      var ch := text[i];
      var nextIsQuote := i + 1 < |text| && text[i + 1] == '"';
      var nextIsNewline := i + 1 < |text| && text[i + 1] == '\n';
      if ch == '"' && inQuotes && nextIsQuote {
        cur := cur + ['"'];
        i := i + 1;
      } else if ch == '"' {
        inQuotes := !inQuotes;
      } else if ch == ',' && !inQuotes {
        row := row + [cur];
        cur := [];
      } else if (ch == '\n' || ch == '\r') && !inQuotes {
        if ch == '\r' && nextIsNewline {
          i := i + 1;
        }
        row := row + [cur];
        cur := [];
        if NonBlank(row) {
          rows := rows + [row];
        }
        row := [];
      } else {
        cur := cur + [ch];
      }
      i := i + 1;
      assert (i - from, Lexer(rows, row, cur, inQuotes)) == step;
      assert text[from..][i - from..] == text[i..];
    }
    row := row + [cur];
    if NonBlank(row) {
      rows := rows + [row];
    }
  }

  /** `rows.slice(1).map(...)` under the trimmed header: one object per record after the header. */
  method ToObjects(rows: seq<seq<string>>) returns (objs: seq<Row>)
    ensures objs == RecordsOf(rows)
  {
    objs := [];
    if |rows| == 0 {
      return;
    }
    var header := TrimAll(rows[0]);
    for k := 1 to |rows|
      invariant objs == ObjectsUnder(header, rows[1..k])
    {
      var obj := BuildRecord(header, rows[k]);
      assert rows[1..k + 1][..k - 1] == rows[1..k];
      objs := objs + [obj];
    }
    assert rows[1..|rows|] == rows[1..];
  }

  /** `parseCSV(text)`: the records of the text, then their objects. */
  method ParseCsv(text: string) returns (objs: seq<Row>)
    ensures objs == RecordsOf(Records(text))
  {
    var rows := ReadRecords(text);
    objs := ToObjects(rows);
  }
}
