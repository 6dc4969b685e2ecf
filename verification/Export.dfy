/** The CSV export and the reader that takes it apart again. */
module CsvExport {
  import opened Text
  import opened QuarantineTable

  // ---- one field ----

  predicate StartsTabOrCr(s: string) {
    s != [] && (s[0] == '\t' || s[0] == '\r')
  }

  function Marked(val: string): string { ['\''] + val }

  function Neutralized(val: string): string {
    var trimmed := TrimStart(val);
    if StartsFormula(trimmed) || StartsTabOrCr(trimmed) then Marked(val) else val
  }

  predicate NeedsQuotes(s: string) { ',' in s || '"' in s || '\n' in s }

  function DoubleQuotes(s: string): string {
    if s == [] then [] else (if s[0] == '"' then "\"\"" else [s[0]]) + DoubleQuotes(s[1..])
  }

  function Quoted(s: string): string {
    if NeedsQuotes(s) then ['"'] + DoubleQuotes(s) + ['"'] else s
  }

  function SanitizeCsvField(val: string): string {
    Quoted(Neutralized(val))
  }

  lemma TrimmedStartsPrintable(val: string)
    ensures !StartsTabOrCr(TrimStart(val))
  {
    assert IsWhitespace('\t') && IsWhitespace('\r');
  }

  lemma TrimOfMarked(val: string)
    ensures TrimStart(Marked(val)) == Marked(val) && Marked(val) != val && !StartsFormula(Marked(val))
  {
    assert Marked(val)[0] == '\'' && !IsWhitespace('\'');
    assert |Marked(val)| == |val| + 1;
  }

  /** Marked are the fields whose first non-whitespace character opens a formula; the tab and CR tests never fire. */
  lemma MarkedExactlyFormulas(val: string)
    ensures Neutralized(val) == if StartsFormula(TrimStart(val)) then Marked(val) else val
    ensures !StartsFormula(TrimStart(Neutralized(val)))
  {
    TrimmedStartsPrintable(val);
    TrimOfMarked(val);
  }

  /** The mark, by the first character behind leading white space. */
  lemma NeutralizedByFirstCharacter(front: string, rest: string)
    requires AllWhitespace(front) && (rest != [] ==> !IsWhitespace(rest[0]))
    ensures Neutralized(front + rest)
         == if rest != [] && rest[0] in ['=', '+', '-', '@'] then ['\''] + (front + rest) else front + rest
  {
    TrimStartStrips(front, rest);
    MarkedExactlyFormulas(front + rest);
  }

  /** A field is quoted exactly for a comma, a quote or an LF in it; quotes inside are doubled. */
  lemma QuotedExactly(s: string)
    ensures Quoted(s) == if ',' in s || '"' in s || '\n' in s then ['"'] + DoubleQuotes(s) + ['"'] else s
    ensures '"' !in s ==> DoubleQuotes(s) == s
  {
    if '"' !in s {
      NothingToDouble(s);
    }
  }

  lemma {:induction false} NothingToDouble(s: string)
    requires '"' !in s
    ensures DoubleQuotes(s) == s
  {
    if s != [] {
      NothingToDouble(s[1..]);
      assert s == [s[0]] + s[1..];
    }
  }

  /** Two values collide only when one is the other with its mark already in front. */
  lemma NeutralizedCollisions(a: string, b: string)
    ensures Neutralized(a) == Neutralized(b) <==>
      || a == b
      || (StartsFormula(TrimStart(a)) && b == Marked(a))
      || (StartsFormula(TrimStart(b)) && a == Marked(b))
  {
    MarkedExactlyFormulas(a);
    MarkedExactlyFormulas(b);
    TrimOfMarked(a);
    TrimOfMarked(b);
    assert Marked(a)[1..] == a && Marked(b)[1..] == b;
  }

  // ---- the whole export ----

  const COLUMNS: seq<string> := ["cidr", "ip_version", "trigger_ip", "infraction_type", "infraction_count",
                                 "quarantined_at", "expires_at", "active", "user_agent"]

  function AgentText(r: Record): string {
    if r.userAgent.Some? then r.userAgent.value else ""
  }

  function ShowBool(b: bool): string { if b then "true" else "false" }

  /** The values a reader should get back: nine per record, text fields neutralised. */
  function Cells(r: Record): seq<string> {
    [Neutralized(r.cidr), ShowNat(r.ipVersion), Neutralized(r.triggerIp), Neutralized(r.infractionType),
     ShowNat(r.infractionCount), ShowNat(r.quarantinedAt), ShowNat(r.expiresAt), ShowBool(r.active),
     Neutralized(AgentText(r))]
  }

  /** The cells of a record by column. */
  lemma CellsByColumn(r: Record)
    ensures |Cells(r)| == 9 && Cells(r)[0] == Neutralized(r.cidr) && Cells(r)[2] == Neutralized(r.triggerIp)
    ensures Cells(r)[1] == ShowNat(r.ipVersion) && Cells(r)[3] == Neutralized(r.infractionType)
    ensures Cells(r)[4] == ShowNat(r.infractionCount) && Cells(r)[5] == ShowNat(r.quarantinedAt)
    ensures Cells(r)[6] == ShowNat(r.expiresAt) && Cells(r)[7] == (if r.active then "true" else "false")
    ensures r.userAgent.Some? ==> Cells(r)[8] == Neutralized(r.userAgent.value)
    ensures r.userAgent.None? ==> Cells(r)[8] == ""
  {
  }

  function HeaderText(): string { Join(COLUMNS, ',') + "\n" }

  function Texts(r: Record): seq<string> {
    [SanitizeCsvField(r.cidr), ShowNat(r.ipVersion), SanitizeCsvField(r.triggerIp), SanitizeCsvField(r.infractionType),
     ShowNat(r.infractionCount), ShowNat(r.quarantinedAt), ShowNat(r.expiresAt), ShowBool(r.active),
     SanitizeCsvField(AgentText(r))]
  }

  function RecordText(r: Record): string { Join(Texts(r), ',') + "\n" }

  /** One line per record, each written by `write`. */
  function ConcatTexts(write: Record -> string, records: seq<Record>): string {
    if records == [] then "" else ConcatTexts(write, records[..|records| - 1]) + write(records[|records| - 1])
  }

  function Map(f: Record -> seq<string>, records: seq<Record>): (rows: seq<seq<string>>)
    ensures |rows| == |records|
    ensures forall i :: 0 <= i < |records| ==> rows[i] == f(records[i])
  {
    if records == [] then [] else Map(f, records[..|records| - 1]) + [f(records[|records| - 1])]
  }

  function CsvText(records: seq<Record>): string {
    HeaderText() + ConcatTexts(RecordText, records)
  }

  lemma ConcatStep(write: Record -> string, records: seq<Record>, i: nat)
    requires i < |records|
    ensures ConcatTexts(write, records[..i + 1]) == ConcatTexts(write, records[..i]) + write(records[i])
  {
    assert records[..i + 1][..i] == records[..i];
  }

  /** `write` writes record lines; the trigger keeps the text of a line out of sight of the loop. */
  ghost predicate WritesRecords(write: Record -> string) {
    forall r {:trigger RecordText(r)} :: write(r) == RecordText(r)
  }

  method FormatRecord(rec: Record, ghost write: Record -> string) returns (line: string)
    requires WritesRecords(write)
    ensures line == write(rec)
  {
    var cidr := SanitizeCsvField(rec.cidr);
    var trigger := SanitizeCsvField(rec.triggerIp);
    var infraction := SanitizeCsvField(rec.infractionType);
    var ua := SanitizeCsvField(AgentText(rec));
    line := Join([cidr, ShowNat(rec.ipVersion), trigger, infraction, ShowNat(rec.infractionCount),
                  ShowNat(rec.quarantinedAt), ShowNat(rec.expiresAt), ShowBool(rec.active), ua], ',') + "\n";
    assert line == RecordText(rec);
  }

  /** The loop of `format_csv`. */
  method AppendRecords(start: string, records: seq<Record>, ghost write: Record -> string) returns (out: string)
    requires WritesRecords(write)
    ensures out == start + ConcatTexts(write, records)
  {
    out := start;
    for i := 0 to |records|
      invariant out == start + ConcatTexts(write, records[..i])
    {
      ConcatStep(write, records, i);
      var line := FormatRecord(records[i], write);
      out := out + line;
    }
    assert records[..|records|] == records;
  }

  method FormatCsv(records: seq<Record>) returns (out: string)
    ensures out == CsvText(records)
  {
    out := AppendRecords(HeaderText(), records, RecordText);
  }

  lemma {:induction false} ConcatIsLines(write: Record -> string, cells: Record -> seq<string>,
                                         rows: seq<seq<string>>, records: seq<Record>)
    requires forall r {:trigger write(r)} :: write(r) == Line(cells(r))
    ensures Lines(rows) + ConcatTexts(write, records) == Lines(rows + Map(cells, records))
  {
    if records == [] {
      assert rows + Map(cells, records) == rows;
    } else {
      var init, last := records[..|records| - 1], records[|records| - 1];
      ConcatIsLines(write, cells, rows, init);
      Regroup(Lines(rows), ConcatTexts(write, init), write(last));
      LinesAppend(rows + Map(cells, init), cells(last));
      assert rows + Map(cells, records) == rows + Map(cells, init) + [cells(last)];
    }
  }

  lemma ReadConcat(ends: LineEnds, write: Record -> string, cells: Record -> seq<string>, header: seq<string>,
                   records: seq<Record>)
    requires forall r :: write(r) == Line(cells(r)) && cells(r) != []
    requires header != []
    ensures ReadCsv(ends, Line(header) + ConcatTexts(write, records)) == SeenRows(ends, [header] + Map(cells, records))
  {
    LinesOfOne(header);
    ConcatIsLines(write, cells, [header], records);
    ReadLines(ends, [header] + Map(cells, records));
  }

  /** Reading an export back gives the column names, then the nine cells of each record in order. */
  lemma {:induction false} CsvRoundTrip(records: seq<Record>)
    ensures ReadCsv(LfOnly, CsvText(records)) == [COLUMNS] + Map(Cells, records)
  {
    ReadExport(LfOnly, records);
    forall r
      ensures Seen(LfOnly, Cells(r)) == Cells(r)
    {
    }
    MapAlike(r => Seen(LfOnly, Cells(r)), Cells, records);
  }

  /** The column names, as a reader of an empty export sees them. */
  lemma EmptyExport()
    ensures ReadCsv(LfOnly, CsvText([])) ==
      [["cidr", "ip_version", "trigger_ip", "infraction_type", "infraction_count",
        "quarantined_at", "expires_at", "active", "user_agent"]]
  {
    CsvRoundTrip([]);
    assert [COLUMNS] + Map(Cells, []) == [COLUMNS];
  }

  /** The user agent ends with a CR, and nothing in it makes the writer quote it. */
  predicate BareCrAtEnd(r: Record) {
    EndsWithCr(AgentText(r)) && !NeedsQuotes(AgentText(r))
  }

  /**
   A reader that also takes CRLF as a line end gives the same rows exactly when no record has a
   user agent that ends with a CR and stands unquoted; of such a one it drops the CR.
   */
  lemma {:induction false} CrlfRoundTrip(records: seq<Record>)
    ensures ReadCsv(CrlfToo, CsvText(records)) == [COLUMNS] + Map(r => Seen(CrlfToo, Cells(r)), records)
    ensures ReadCsv(CrlfToo, CsvText(records)) == [COLUMNS] + Map(Cells, records)
       <==> forall i :: 0 <= i < |records| ==> !BareCrAtEnd(records[i])
  {
    ReadExport(CrlfToo, records);
    var seen := Map(r => Seen(CrlfToo, Cells(r)), records);
    forall i | 0 <= i < |records|
      ensures seen[i] == Cells(records[i]) <==> !BareCrAtEnd(records[i])
    {
      CrIsSeen(records[i]);
    }
    assert [COLUMNS] + seen == [COLUMNS] + Map(Cells, records) <==> seen == Map(Cells, records) by {
      assert ([COLUMNS] + seen)[1..] == seen && ([COLUMNS] + Map(Cells, records))[1..] == Map(Cells, records);
    }
  }

  // ---- the reader ----

  datatype Where = FieldStart | Plain | InQuotes | QuoteSeen

  /** What the reader takes for the end of a line: LF alone, or CRLF as well. */
  datatype LineEnds = LfOnly | CrlfToo

  /**
   A reader for the quoting rules of section 2 of RFC 4180: a field that opens with a quote runs to
   the closing quote, a doubled quote inside it stands for one, and commas and line ends inside it
   are data. A CR that ends no line is data.
   */
  function Read(ends: LineEnds, text: string, at: Where, field: string, row: seq<string>): seq<seq<string>>
    decreases |text|
  {
    if text == [] then (if at == FieldStart && row == [] then [] else [row + [field]])
    else
      var c, rest := text[0], text[1..];
      if at == InQuotes then
        if c == '"' then Read(ends, rest, QuoteSeen, field, row) else Read(ends, rest, InQuotes, field + [c], row)
      else if c == ',' then Read(ends, rest, FieldStart, "", row + [field])
      else if c == '\n' then [row + [field]] + Read(ends, rest, FieldStart, "", [])
      else if ends == CrlfToo && c == '\r' && rest != [] && rest[0] == '\n' then
        [row + [field]] + Read(ends, rest[1..], FieldStart, "", [])
      else if c == '"' && at == FieldStart then Read(ends, rest, InQuotes, field, row)
      else if c == '"' && at == QuoteSeen then Read(ends, rest, InQuotes, field + [c], row)
      else Read(ends, rest, Plain, field + [c], row)
  }

  function ReadCsv(ends: LineEnds, text: string): seq<seq<string>> {
    Read(ends, text, FieldStart, "", [])
  }

  predicate EndsWithCr(s: string) {
    s != [] && s[|s| - 1] == '\r'
  }

  /** The reader takes the last character of the cell for the start of the line end behind it. */
  predicate LosesCr(ends: LineEnds, cell: string) {
    ends == CrlfToo && EndsWithCr(cell) && !NeedsQuotes(cell)
  }

  /** The row as the reader sees it: the last cell may lose a CR. */
  function Seen(ends: LineEnds, cells: seq<string>): seq<string> {
    if cells != [] && LosesCr(ends, cells[|cells| - 1])
    then cells[..|cells| - 1] + [cells[|cells| - 1][..|cells[|cells| - 1]| - 1]]
    else cells
  }

  /** One line of quoted fields. */
  function Line(cells: seq<string>): string {
    if cells == [] then ""
    else if |cells| == 1 then Quoted(cells[0]) + "\n" else Quoted(cells[0]) + "," + Line(cells[1..])
  }

  function Lines(rows: seq<seq<string>>): string {
    if rows == [] then "" else Line(rows[0]) + Lines(rows[1..])
  }

  lemma {:induction false} LinesAppend(rows: seq<seq<string>>, row: seq<string>)
    ensures Lines(rows + [row]) == Lines(rows) + Line(row)
  {
    if rows == [] {
      assert rows + [row] == [row];
      assert [row][1..] == [];
    } else {
      assert (rows + [row])[1..] == rows[1..] + [row];
      LinesAppend(rows[1..], row);
    }
  }

  lemma {:induction false} ReadPlain(ends: LineEnds, s: string, rest: string, at: Where,
                                     field: string, row: seq<string>)
    requires !NeedsQuotes(s) && (at == FieldStart || at == Plain)
    requires LosesCr(ends, s) ==> rest == [] || rest[0] != '\n'
    ensures Read(ends, s + rest, at, field, row) == Read(ends, rest, if s == [] then at else Plain, field + s, row)
    decreases |s|
  {
    if s == [] {
      assert s + rest == rest && field + s == field;
    } else {
      var text := s + rest;
      assert text[1..] == s[1..] + rest && text[0] == s[0];
      assert |s| > 1 ==> text[1] == s[1] && s[1] in s;
      ReadPlain(ends, s[1..], rest, Plain, field + [s[0]], row);
      assert field + [s[0]] + s[1..] == field + s;
    }
  }

  lemma {:induction false} ReadQuoted(ends: LineEnds, s: string, rest: string, field: string, row: seq<string>)
    ensures Read(ends, DoubleQuotes(s) + ['"'] + rest, InQuotes, field, row)
         == Read(ends, rest, QuoteSeen, field + s, row)
    decreases |s|
  {
    var text := DoubleQuotes(s) + ['"'] + rest;
    if s == [] {
      assert text[1..] == rest && field + s == field;
    } else {
      var more := DoubleQuotes(s[1..]) + ['"'] + rest;
      ReadQuoted(ends, s[1..], rest, field + [s[0]], row);
      assert field + [s[0]] + s[1..] == field + s;
      if s[0] == '"' {
        assert text == ['"', '"'] + more;
        assert text[1..] == ['"'] + more && text[1..][1..] == more;
      } else {
        assert text[1..] == more;
      }
    }
  }

  lemma ReadSeparator(ends: LineEnds, sep: char, rest: string, at: Where, field: string, row: seq<string>)
    requires (sep == ',' || sep == '\n') && at != InQuotes
    ensures Read(ends, [sep] + rest, at, field, row) ==
      if sep == ',' then Read(ends, rest, FieldStart, "", row + [field])
      else [row + [field]] + Read(ends, rest, FieldStart, "", [])
  {
    assert ([sep] + rest)[1..] == rest;
  }

  lemma ReadOpened(ends: LineEnds, s: string, tail: string, row: seq<string>)
    ensures Read(ends, ['"'] + DoubleQuotes(s) + ['"'] + tail, FieldStart, "", row)
         == Read(ends, tail, QuoteSeen, s, row)
  {
    var text, more := ['"'] + DoubleQuotes(s) + ['"'] + tail, DoubleQuotes(s) + ['"'] + tail;
    assert text[0] == '"' && text[1..] == more;
    ReadQuoted(ends, s, tail, "", row);
    assert "" + s == s;
  }

  /** A quoted field is read as its value, whatever follows, unless it loses a CR to a line end. */
  lemma ReadQuotedField(ends: LineEnds, s: string, tail: string, row: seq<string>) returns (at: Where)
    requires LosesCr(ends, s) ==> tail == [] || tail[0] != '\n'
    ensures at != InQuotes && Read(ends, Quoted(s) + tail, FieldStart, "", row) == Read(ends, tail, at, s, row)
  {
    if NeedsQuotes(s) {
      at := QuoteSeen;
      ReadOpened(ends, s, tail, row);
    } else {
      at := if s == [] then FieldStart else Plain;
      ReadPlain(ends, s, tail, FieldStart, "", row);
      assert "" + s == s;
    }
  }

  lemma ReadField(ends: LineEnds, s: string, sep: char, rest: string, row: seq<string>)
    requires sep == ',' || (sep == '\n' && !LosesCr(ends, s))
    ensures Read(ends, Quoted(s) + [sep] + rest, FieldStart, "", row) ==
      if sep == ',' then Read(ends, rest, FieldStart, "", row + [s])
      else [row + [s]] + Read(ends, rest, FieldStart, "", [])
  {
    var at := ReadQuotedField(ends, s, [sep] + rest, row);
    ReadSeparator(ends, sep, rest, at, s, row);
    assert Quoted(s) + [sep] + rest == Quoted(s) + ([sep] + rest);
  }

  /** A CR at the end of an unquoted last field goes with the LF behind it. */
  lemma ReadCrField(ends: LineEnds, s: string, rest: string, row: seq<string>)
    requires LosesCr(ends, s)
    ensures Read(ends, Quoted(s) + ['\n'] + rest, FieldStart, "", row)
         == [row + [s[..|s| - 1]]] + Read(ends, rest, FieldStart, "", [])
  {
    var front, tail := s[..|s| - 1], ['\r'] + (['\n'] + rest);
    assert Quoted(s) + ['\n'] + rest == front + tail;
    ReadPlain(ends, front, tail, FieldStart, "", row);
    assert "" + front == front && tail[1..] == ['\n'] + rest && tail[1..][1..] == rest;
  }

  lemma SeenOfCons(ends: LineEnds, cells: seq<string>)
    requires |cells| > 1
    ensures Seen(ends, cells) == [cells[0]] + Seen(ends, cells[1..])
  {
  }

  lemma LineOfCons(cells: seq<string>, rest: string)
    requires |cells| > 1
    ensures Line(cells) + rest == Quoted(cells[0]) + [','] + (Line(cells[1..]) + rest)
  {
    assert Line(cells) == Quoted(cells[0]) + [','] + Line(cells[1..]);
    Regroup(Quoted(cells[0]) + [','], Line(cells[1..]), rest);
  }

  lemma {:induction false} ReadLine(ends: LineEnds, cells: seq<string>, rest: string, row: seq<string>)
    requires cells != []
    ensures Read(ends, Line(cells) + rest, FieldStart, "", row)
         == [row + Seen(ends, cells)] + Read(ends, rest, FieldStart, "", [])
    decreases |cells|
  {
    if |cells| == 1 {
      ReadLastField(ends, cells[0], rest, row);
      assert [cells[0]] == cells;
    } else {
      var more := Line(cells[1..]) + rest;
      LineOfCons(cells, rest);
      ReadField(ends, cells[0], ',', more, row);
      ReadLine(ends, cells[1..], rest, row + [cells[0]]);
      SeenOfCons(ends, cells);
      Regroup(row, [cells[0]], Seen(ends, cells[1..]));
    }
  }

  lemma ReadLastField(ends: LineEnds, s: string, rest: string, row: seq<string>)
    ensures Read(ends, Line([s]) + rest, FieldStart, "", row)
         == [row + Seen(ends, [s])] + Read(ends, rest, FieldStart, "", [])
  {
    assert Line([s]) == Quoted(s) + ['\n'];
    if LosesCr(ends, s) {
      ReadCrField(ends, s, rest, row);
      assert Seen(ends, [s]) == [s[..|s| - 1]];
    } else {
      ReadField(ends, s, '\n', rest, row);
    }
  }

  function SeenRows(ends: LineEnds, rows: seq<seq<string>>): seq<seq<string>> {
    if rows == [] then [] else [Seen(ends, rows[0])] + SeenRows(ends, rows[1..])
  }

  lemma {:induction false} ReadLines(ends: LineEnds, rows: seq<seq<string>>)
    requires forall i :: 0 <= i < |rows| ==> rows[i] != []
    ensures ReadCsv(ends, Lines(rows)) == SeenRows(ends, rows)
  {
    if rows != [] {
      ReadLine(ends, rows[0], Lines(rows[1..]), []);
      ReadLines(ends, rows[1..]);
      assert [] + Seen(ends, rows[0]) == Seen(ends, rows[0]);
    }
  }

  lemma {:induction false} SeenRowsSnoc(ends: LineEnds, rows: seq<seq<string>>, row: seq<string>)
    ensures SeenRows(ends, rows + [row]) == SeenRows(ends, rows) + [Seen(ends, row)]
  {
    if rows == [] {
      assert rows + [row] == [row] && [row][1..] == [];
    } else {
      assert (rows + [row])[1..] == rows[1..] + [row];
      SeenRowsSnoc(ends, rows[1..], row);
    }
  }

  lemma {:induction false} SeenRowsOfMap(ends: LineEnds, header: seq<string>, cells: Record -> seq<string>,
                                         seen: Record -> seq<string>, records: seq<Record>)
    requires forall r {:trigger seen(r)} :: seen(r) == Seen(ends, cells(r))
    ensures SeenRows(ends, [header] + Map(cells, records)) == [Seen(ends, header)] + Map(seen, records)
  {
    if records == [] {
      assert [header] + Map(cells, records) == [header] && [header][1..] == [];
    } else {
      var init, last := records[..|records| - 1], records[|records| - 1];
      SeenRowsOfMap(ends, header, cells, seen, init);
      SeenRowsSnoc(ends, [header] + Map(cells, init), cells(last));
      assert [header] + Map(cells, records) == [header] + Map(cells, init) + [cells(last)];
    }
  }

  lemma {:induction false} MapAlike(f: Record -> seq<string>, g: Record -> seq<string>, records: seq<Record>)
    requires forall r {:trigger f(r)} :: f(r) == g(r)
    ensures Map(f, records) == Map(g, records)
  {
    assert forall i :: 0 <= i < |records| ==> Map(f, records)[i] == f(records[i]);
  }

  /** The whole export, read with either kind of line end. */
  lemma ReadExport(ends: LineEnds, records: seq<Record>)
    ensures ReadCsv(ends, CsvText(records)) == [COLUMNS] + Map(r => Seen(ends, Cells(r)), records)
  {
    HeaderIsLine();
    forall r {
      RecordIsLine(r);
    }
    ReadConcat(ends, RecordText, Cells, COLUMNS, records);
    SeenRowsOfMap(ends, COLUMNS, Cells, r => Seen(ends, Cells(r)), records);
    assert Seen(ends, COLUMNS) == COLUMNS;
  }

  /** The last cell of a record loses a CR exactly when its user agent does. */
  lemma CrIsSeen(r: Record)
    ensures Seen(CrlfToo, Cells(r)) == Cells(r) <==> !BareCrAtEnd(r)
  {
    var ua, cells := AgentText(r), Cells(r);
    var last := cells[|cells| - 1];
    assert last == Neutralized(ua);
    MarkedKeepsEnd(ua);
    assert LosesCr(CrlfToo, last) <==> BareCrAtEnd(r);
    if LosesCr(CrlfToo, last) {
      assert Seen(CrlfToo, cells)[|cells| - 1] == last[..|last| - 1];
    }
  }

  lemma MarkedKeepsEnd(val: string)
    ensures EndsWithCr(Neutralized(val)) <==> EndsWithCr(val)
    ensures NeedsQuotes(Neutralized(val)) <==> NeedsQuotes(val)
  {
    MarkedExactlyFormulas(val);
    assert forall c :: c in Marked(val) <==> c == '\'' || c in val;
    if val == [] {
      assert Neutralized(val) == [];
    }
  }

  // ---- the writer writes such lines ----

  lemma {:induction false} JoinIsLine(texts: seq<string>, cells: seq<string>)
    requires |texts| == |cells| > 0
    requires forall i :: 0 <= i < |texts| ==> texts[i] == Quoted(cells[i])
    ensures Join(texts, ',') + "\n" == Line(cells)
  {
    if |texts| > 1 {
      JoinIsLine(texts[1..], cells[1..]);
      assert Join(texts, ',') + "\n" == texts[0] + [','] + (Join(texts[1..], ',') + "\n");
    }
  }

  lemma PlainIsQuoted(name: string)
    requires !NeedsQuotes(name)
    ensures name == Quoted(name)
  {
  }

  lemma LinesOfOne(row: seq<string>)
    ensures Lines([row]) == Line(row)
  {
    assert [row][1..] == [] && Lines([]) == "" && Line(row) + "" == Line(row);
  }

  lemma {:induction false} HeaderIsLine()
    ensures HeaderText() == Line(COLUMNS)
  {
    forall i | 0 <= i < |COLUMNS|
      ensures COLUMNS[i] == Quoted(COLUMNS[i])
    {
      ColumnIsPlain(i);
      PlainIsQuoted(COLUMNS[i]);
    }
    JoinIsLine(COLUMNS, COLUMNS);
  }

  lemma ColumnIsPlain(i: nat)
    requires i < |COLUMNS|
    ensures !NeedsQuotes(COLUMNS[i])
  {
  }

  lemma DigitsNeedNoQuotes(n: nat)
    ensures ShowNat(n) == Quoted(ShowNat(n))
  {
  }

  lemma BoolNeedsNoQuotes(b: bool)
    ensures ShowBool(b) == Quoted(ShowBool(b))
  {
  }

  /** The numbers and the flag of a record are written as they are. */
  predicate PlainNeedNoQuotes(q: string -> string, r: Record) {
    && ShowNat(r.ipVersion) == q(ShowNat(r.ipVersion))
    && ShowNat(r.infractionCount) == q(ShowNat(r.infractionCount))
    && ShowNat(r.quarantinedAt) == q(ShowNat(r.quarantinedAt))
    && ShowNat(r.expiresAt) == q(ShowNat(r.expiresAt))
    && ShowBool(r.active) == q(ShowBool(r.active))
  }

  lemma QuotedLeavesPlain(r: Record)
    ensures PlainNeedNoQuotes(Quoted, r)
  {
    DigitsNeedNoQuotes(r.ipVersion);
    DigitsNeedNoQuotes(r.infractionCount);
    DigitsNeedNoQuotes(r.quarantinedAt);
    DigitsNeedNoQuotes(r.expiresAt);
    BoolNeedsNoQuotes(r.active);
  }

  lemma TextsAreQuotedCells(q: string -> string, r: Record)
    requires PlainNeedNoQuotes(q, r)
    requires forall val {:trigger SanitizeCsvField(val)} :: SanitizeCsvField(val) == q(Neutralized(val))
    ensures forall i :: 0 <= i < 9 ==> Texts(r)[i] == q(Cells(r)[i])
  {
  }

  lemma RecordIsLine(r: Record)
    ensures RecordText(r) == Line(Cells(r))
  {
    QuotedLeavesPlain(r);
    TextsAreQuotedCells(Quoted, r);
    JoinIsLine(Texts(r), Cells(r));
  }
}

/** The escaping of text for HTML, five replacements one after another, and a decoder. */
module HtmlEscape {

  /** `str::replace` of one character. */
  function Replace(s: string, c: char, text: string): string {
    if s == [] then [] else (if s[0] == c then text else [s[0]]) + Replace(s[1..], c, text)
  }

  function Escape(s: string): string {
    Replace(Replace(Replace(Replace(Replace(s,
      '&', "&amp;"), '<', "&lt;"), '>', "&gt;"), '"', "&quot;"), '\'', "&#39;")
  }

  function Entity(c: char): string {
    match c
    case '&' => "&amp;"
    case '<' => "&lt;"
    case '>' => "&gt;"
    case '"' => "&quot;"
    case '\'' => "&#39;"
    case _ => [c]
  }

  function EntityMap(s: string): string {
    if s == [] then [] else Entity(s[0]) + EntityMap(s[1..])
  }

  /** Reads the five entities from left to right; anything else stands for itself. */
  function Unescape(s: string): string
    decreases |s|
  {
    if s == [] then []
    else if "&amp;" <= s then ['&'] + Unescape(s[5..])
    else if "&lt;" <= s then ['<'] + Unescape(s[4..])
    else if "&gt;" <= s then ['>'] + Unescape(s[4..])
    else if "&quot;" <= s then ['"'] + Unescape(s[6..])
    else if "&#39;" <= s then ['\''] + Unescape(s[5..])
    else [s[0]] + Unescape(s[1..])
  }

  lemma {:induction false} ReplaceConcat(a: string, b: string, c: char, text: string)
    ensures Replace(a + b, c, text) == Replace(a, c, text) + Replace(b, c, text)
  {
    if a == [] {
      assert a + b == b;
    } else {
      assert (a + b)[1..] == a[1..] + b;
      ReplaceConcat(a[1..], b, c, text);
    }
  }

  lemma {:induction false} ReplaceAbsent(s: string, c: char, text: string)
    requires c !in s
    ensures Replace(s, c, text) == s
  {
    if s != [] {
      ReplaceAbsent(s[1..], c, text);
      assert [s[0]] + s[1..] == s;
    }
  }

  lemma ReplaceOne(c: char, text: string)
    ensures Replace([c], c, text) == text
  {
    assert [c][1..] == [] && text + [] == text;
  }

  lemma EscapeConcat(a: string, b: string)
    ensures Escape(a + b) == Escape(a) + Escape(b)
  {
    var a1, b1 := Replace(a, '&', "&amp;"), Replace(b, '&', "&amp;");
    var a2, b2 := Replace(a1, '<', "&lt;"), Replace(b1, '<', "&lt;");
    var a3, b3 := Replace(a2, '>', "&gt;"), Replace(b2, '>', "&gt;");
    var a4, b4 := Replace(a3, '"', "&quot;"), Replace(b3, '"', "&quot;");
    ReplaceConcat(a, b, '&', "&amp;");
    ReplaceConcat(a1, b1, '<', "&lt;");
    ReplaceConcat(a2, b2, '>', "&gt;");
    ReplaceConcat(a3, b3, '"', "&quot;");
    ReplaceConcat(a4, b4, '\'', "&#39;");
  }

  predicate NoRawMarkup(s: string) {
    '<' !in s && '>' !in s && '"' !in s && '\'' !in s
  }

  /** Text without raw markup passes the last four replacements unchanged. */
  lemma MarkupFreePasses(s: string)
    requires NoRawMarkup(s)
    ensures Replace(s, '<', "&lt;") == s && Replace(s, '>', "&gt;") == s
    ensures Replace(s, '"', "&quot;") == s && Replace(s, '\'', "&#39;") == s
  {
    ReplaceAbsent(s, '<', "&lt;");
    ReplaceAbsent(s, '>', "&gt;");
    ReplaceAbsent(s, '"', "&quot;");
    ReplaceAbsent(s, '\'', "&#39;");
  }

  lemma ReplaceOther(c: char, other: char, text: string)
    requires c != other
    ensures Replace([c], other, text) == [c]
  {
    ReplaceAbsent([c], other, text);
  }

  lemma EntityHasNoRawMarkup(c: char)
    ensures NoRawMarkup(Entity(c))
  {
  }

  /** On one character the pipeline gives its entity; no later replacement touches an earlier one's output. */
  lemma EscapeOne(c: char)
    ensures Escape([c]) == Entity(c)
  {
    ReplaceOne(c, Entity(c));
    EntityHasNoRawMarkup(c);
    MarkupFreePasses(Entity(c));
    if c != '&' { ReplaceOther(c, '&', "&amp;"); }
    if c != '<' { ReplaceOther(c, '<', "&lt;"); }
    if c != '>' { ReplaceOther(c, '>', "&gt;"); }
    if c != '"' { ReplaceOther(c, '"', "&quot;"); }
    if c != '\'' { ReplaceOther(c, '\'', "&#39;"); }
  }

  /** The five replacements amount to one map over the characters. */
  lemma {:induction false} EscapeIsEntityMap(s: string)
    ensures Escape(s) == EntityMap(s)
  {
    if s != [] {
      EscapeIsEntityMap(s[1..]);
      EscapeOne(s[0]);
      EscapeConcat([s[0]], s[1..]);
      assert [s[0]] + s[1..] == s;
    }
  }

  lemma {:induction false} EntityMapHasNoRawMarkup(s: string)
    ensures NoRawMarkup(EntityMap(s))
  {
    if s != [] {
      EntityMapHasNoRawMarkup(s[1..]);
      EntityHasNoRawMarkup(s[0]);
    }
  }

  lemma UnescapeEntity(c: char, rest: string)
    ensures Unescape(Entity(c) + rest) == [c] + Unescape(rest)
  {
    var s := Entity(c) + rest;
    assert s[|Entity(c)|..] == rest;
    assert s[0] == Entity(c)[0];
    match c
    case '&' => assert "&amp;" <= s;
    case '<' => assert "&lt;" <= s && s[1] == 'l';
    case '>' => assert "&gt;" <= s && s[1] == 'g';
    case '"' => assert "&quot;" <= s && s[1] == 'q';
    case '\'' => assert "&#39;" <= s && s[1] == '#';
    case _ => assert s[0] != '&';
  }

  /** Escaped text holds no raw markup and decodes to the original. */
  lemma {:induction false} EscapeIsInvertible(s: string)
    ensures NoRawMarkup(Escape(s))
    ensures Unescape(Escape(s)) == s
  {
    EscapeIsEntityMap(s);
    EntityMapHasNoRawMarkup(s);
    if s != [] {
      EscapeIsInvertible(s[1..]);
      EscapeIsEntityMap(s[1..]);
      UnescapeEntity(s[0], EntityMap(s[1..]));
    }
  }
}
