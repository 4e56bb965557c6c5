/** The bulk-import CSV reader, against the printer of section 2 of RFC 4180. */
module Csv {
  import opened Prelude
  import opened Text

  // ------------------------------------------------------------------------
  // Lines
  // ------------------------------------------------------------------------

  predicate IsBlank(s: string) {
    forall c <- s :: IsSpace(c)
  }

  function NonBlank(lines: seq<string>): seq<string> {
    if lines == [] then []
    else (if IsBlank(lines[0]) then [] else [lines[0]]) + NonBlank(lines[1..])
  }

  // ------------------------------------------------------------------------
  // Reading
  // ------------------------------------------------------------------------

  /** The fields of what is left of a line, given the field read so far and the quote state. */
  function Fields(line: string, cur: string, inQuotes: bool): (r: seq<string>)
    ensures r != []
    decreases |line|
  {
    if line == [] then [cur]
    else if inQuotes then
      if line[0] == '"' && |line| > 1 && line[1] == '"' then Fields(line[2..], cur + ['"'], true)
      else if line[0] == '"' then Fields(line[1..], cur, false)
      else Fields(line[1..], cur + [line[0]], true)
    else if line[0] == '"' then Fields(line[1..], cur, true)
    else if line[0] == ',' then [cur] + Fields(line[1..], "", false)
    else Fields(line[1..], cur + [line[0]], false)
  }

  function TrimAll(fields: seq<string>): (r: seq<string>)
    ensures |r| == |fields|
  {
    seq(|fields|, i requires 0 <= i < |fields| => Trim(fields[i]))
  }

  function ParseLines(lines: seq<string>): (r: seq<seq<string>>)
    ensures |r| == |lines|
  {
    seq(|lines|, i requires 0 <= i < |lines| => TrimAll(Fields(lines[i], "", false)))
  }

  function Parse(text: string): seq<seq<string>> {
    ParseLines(NonBlank(Lines(text)))
  }

  method ParseCsv(text: string) returns (rows: seq<seq<string>>)
    ensures rows == Parse(text)
  {
    rows := [];
    var lines := NonBlank(Lines(text));
    for n := 0 to |lines|
      invariant rows == ParseLines(lines[..n])
    {
      var line := lines[n];
      var out: seq<string>, cur, inQuotes := [], "", false;
      var i := 0;
      while i < |line|
        invariant i <= |line|
        invariant out + Fields(line[i..], cur, inQuotes) == Fields(line, "", false)
      {
        var c := line[i];
        var rest := line[i..];
        assert rest[0] == c && rest[1..] == line[i + 1..];
        if inQuotes {
          if c == '"' && i + 1 < |line| && line[i + 1] == '"' {
            assert rest[2..] == line[i + 2..];
            cur := cur + ['"'];
            i := i + 1;
          } else if c == '"' {
            inQuotes := false;
          } else {
            cur := cur + [c];
          }
        } else if c == '"' {
          inQuotes := true;
        } else if c == ',' {
          out := out + [cur];
          cur := "";
        } else {
          cur := cur + [c];
        }
        i := i + 1;
      }
      out := out + [cur];
      assert out == Fields(line, "", false);
      rows := rows + [TrimAll(out)];
      assert lines[..n + 1] == lines[..n] + [line];
    }
    assert lines[..|lines|] == lines;
  }

  // ------------------------------------------------------------------------
  // Printing, after section 2 of RFC 4180
  // ------------------------------------------------------------------------

  /** A field and whether it is enclosed in double quotes. */
  datatype Cell = Cell(text: string, quoted: bool)

  /** May the text stand unquoted? Rule 6: not with a line break, a double quote or a comma. */
  predicate Plain(text: string) {
    forall c <- text :: c != ',' && c != '"' && c != '\r' && c != '\n'
  }

  predicate NoLineFeed(text: string) {
    '\n' !in text
  }

  /** A row this reader can take: at least one field, and no line feed even inside quotes. */
  predicate Readable(row: seq<Cell>) {
    row != [] && forall c <- row :: NoLineFeed(c.text) && (c.quoted || Plain(c.text))
  }

  /** Rule 7: a double quote inside a quoted field is doubled. */
  function Escape(text: string): string {
    if text == [] then []
    else (if text[0] == '"' then ['"', '"'] else [text[0]]) + Escape(text[1..])
  }

  function PrintCell(c: Cell): string {
    if c.quoted then ['"'] + Escape(c.text) + ['"'] else c.text
  }

  function PrintRow(row: seq<Cell>): string {
    if row == [] then []
    else if |row| == 1 then PrintCell(row[0])
    else PrintCell(row[0]) + [','] + PrintRow(row[1..])
  }

  /** Rules 1 and 2: rows end in CRLF, which the last one may lack. */
  function Print(rows: seq<seq<Cell>>, lastBreak: bool): string {
    if rows == [] then []
    else if |rows| == 1 && !lastBreak then PrintRow(rows[0])
    else PrintRow(rows[0]) + "\r\n" + Print(rows[1..], lastBreak)
  }

  function Texts(row: seq<Cell>): (r: seq<string>)
    ensures |r| == |row|
  {
    seq(|row|, i requires 0 <= i < |row| => Trim(row[i].text))
  }

  /** What reading should give back: the rows whose line is not blank, fields trimmed. */
  function Expected(rows: seq<seq<Cell>>): seq<seq<string>> {
    if rows == [] then []
    else (if IsBlank(PrintRow(rows[0])) then [] else [Texts(rows[0])]) + Expected(rows[1..])
  }

  // ------------------------------------------------------------------------
  // Reading back what was printed
  // ------------------------------------------------------------------------

  lemma {:induction false} LinesOfOne(line: string)
    requires NoLineFeed(line)
    ensures Lines(line) == [line]
  {
    if line == [] {
    } else {
      assert line[0] in line && (|line| > 1 ==> line[1] in line);
      LinesOfOne(line[1..]);
      assert [line[0]] + line[1..] == line;
    }
  }

  lemma {:induction false} LinesSplit(line: string, rest: string)
    requires NoLineFeed(line)
    ensures Lines(line + "\r\n" + rest) == [line] + Lines(rest)
    decreases |line|
  {
    var s := line + "\r\n" + rest;
    if line == [] {
      assert s[2..] == rest;
    } else {
      assert line[0] in line && (|line| > 1 ==> line[1] in line);
      assert s[1] == (if |line| > 1 then line[1] else '\r');
      assert [line[0]] + line[1..] == line;
      assert s[1..] == line[1..] + "\r\n" + rest;
      LinesSplit(line[1..], rest);
    }
  }

  lemma {:induction false} EscapeIsOneLine(text: string)
    requires NoLineFeed(text)
    ensures NoLineFeed(Escape(text))
  {
    if text == [] {
    } else {
      EscapeIsOneLine(text[1..]);
    }
  }

  lemma {:induction false} RowIsOneLine(row: seq<Cell>)
    requires forall c <- row :: NoLineFeed(c.text)
    ensures NoLineFeed(PrintRow(row))
  {
    if row == [] {
    } else {
      assert row[0] in row;
      EscapeIsOneLine(row[0].text);
      RowIsOneLine(row[1..]);
    }
  }

  /** The reader's step on the first character of an escaped text. */
  lemma ReadQuotedStep(c: char, more: string, cur: string)
    requires more != []
    ensures Fields(Escape([c]) + more, cur, true) == Fields(more, cur + [c], true)
  {
    var s := Escape([c]) + more;
    assert Escape([c]) == if c == '"' then ['"', '"'] else [c];
    if c == '"' {
      assert s[0] == s[1] == '"' && s[2..] == more;
    } else {
      assert s[0] == c && s[1..] == more;
    }
  }

  lemma EscapeCons(text: string)
    requires text != []
    ensures Escape(text) == Escape([text[0]]) + Escape(text[1..])
  {
    assert [text[0]][1..] == [];
  }

  /** Inside quotes, the escaped text is read literally up to the closing quote. */
  lemma {:induction false} ReadQuoted(text: string, rest: string, cur: string)
    requires rest == [] || rest[0] != '"'
    ensures Fields(Escape(text) + ['"'] + rest, cur, true) == Fields(rest, cur + text, false)
    decreases |text|
  {
    if text == [] {
      var s := Escape(text) + ['"'] + rest;
      assert s[0] == '"' && s[1..] == rest && cur + text == cur;
    } else {
      var c := text[0];
      var more := Escape(text[1..]) + ['"'] + rest;
      EscapeCons(text);
      hide Escape, Fields;
      ReadQuoted(text[1..], rest, cur + [c]);
      ReadQuotedStep(c, more, cur);
      assert cur + [c] + text[1..] == cur + text;
      assert Escape(text) + ['"'] + rest == Escape([c]) + more;
    }
  }

  lemma {:induction false} ReadPlain(text: string, rest: string, cur: string)
    requires Plain(text)
    ensures Fields(text + rest, cur, false) == Fields(rest, cur + text, false)
    decreases |text|
  {
    if text == [] {
      assert text + rest == rest && cur + text == cur;
    } else {
      assert text[0] in text && forall c <- text[1..] :: c in text;
      assert (text + rest)[1..] == text[1..] + rest;
      ReadPlain(text[1..], rest, cur + [text[0]]);
      assert cur + [text[0]] + text[1..] == cur + text;
    }
  }

  lemma ReadCell(c: Cell, rest: string)
    requires c.quoted || Plain(c.text)
    requires rest == [] || rest[0] == ','
    ensures Fields(PrintCell(c) + rest, "", false) == Fields(rest, c.text, false)
  {
    assert "" + c.text == c.text;
    if c.quoted {
      assert (PrintCell(c) + rest)[1..] == Escape(c.text) + ['"'] + rest;
      ReadQuoted(c.text, rest, "");
    } else {
      ReadPlain(c.text, rest, "");
    }
  }

  lemma TrimAllCons(head: string, tail: seq<string>)
    ensures TrimAll([head] + tail) == [Trim(head)] + TrimAll(tail)
  {
  }

  lemma TextsCons(row: seq<Cell>)
    requires row != []
    ensures Texts(row) == [Trim(row[0].text)] + Texts(row[1..])
  {
  }

  lemma ReadComma(row: seq<Cell>)
    requires |row| > 1 && Readable(row)
    ensures Fields(PrintRow(row), "", false) == [row[0].text] + Fields(PrintRow(row[1..]), "", false)
  {
    assert row[0] in row;
    var rest := [','] + PrintRow(row[1..]);
    assert PrintRow(row) == PrintCell(row[0]) + rest;
    ReadCell(row[0], rest);
    assert rest[1..] == PrintRow(row[1..]);
  }

  lemma {:induction false} ReadRow(row: seq<Cell>)
    requires Readable(row)
    ensures TrimAll(Fields(PrintRow(row), "", false)) == Texts(row)
  {
    assert row[0] in row;
    TextsCons(row);
    if |row| == 1 {
      ReadCell(row[0], []);
      assert PrintCell(row[0]) + [] == PrintRow(row);
    } else {
      assert forall c <- row[1..] :: c in row;
      ReadComma(row);
      ReadRow(row[1..]);
      TrimAllCons(row[0].text, Fields(PrintRow(row[1..]), "", false));
    }
  }

  lemma ParseLinesCons(line: string, lines: seq<string>)
    ensures ParseLines([line] + lines) == [TrimAll(Fields(line, "", false))] + ParseLines(lines)
    ensures ParseLines([]) == []
  {
  }

  /**
   Reading undoes printing: whatever mix of quoted and unquoted fields, commas and doubled
   quotes included, with or without a final line break.
   */
  lemma {:induction false} ReadingUndoesPrinting(rows: seq<seq<Cell>>, lastBreak: bool)
    requires forall row <- rows :: Readable(row)
    ensures Parse(Print(rows, lastBreak)) == Expected(rows)
    decreases |rows|
  {
    ParseLinesCons("", []);
    assert Lines("") == [""] && NonBlank([""]) == [];
    if rows == [] {
    } else {
      var line, rest := PrintRow(rows[0]), rows[1..];
      assert rows[0] in rows && forall row <- rest :: row in rows;
      RowIsOneLine(rows[0]);
      ReadRow(rows[0]);
      if |rows| == 1 && !lastBreak {
        LinesOfOne(line);
        assert rest == [] && Expected(rest) == [];
        assert [line][1..] == [] && [line] + [] == [line];
        ParseLinesCons(line, []);
      } else {
        var more := Lines(Print(rest, lastBreak));
        LinesSplit(line, Print(rest, lastBreak));
        assert ([line] + more)[1..] == more;
        ReadingUndoesPrinting(rest, lastBreak);
        ParseLinesCons(line, NonBlank(more));
      }
    }
  }

  // ------------------------------------------------------------------------
  // Exactly which tables survive
  // ------------------------------------------------------------------------

  lemma {:induction false} LinesHaveNoLineFeed(s: string)
    ensures forall line <- Lines(s) :: NoLineFeed(line)
    decreases |s|
  {
    if s == [] {
    } else {
      var r := Lines(s[1..]);
      LinesHaveNoLineFeed(s[1..]);
      assert r[0] in r && forall line <- r[1..] :: line in r;
      if |s| > 1 {
        LinesHaveNoLineFeed(s[2..]);
      }
    }
  }

  lemma {:induction false} NonBlankSelects(lines: seq<string>)
    ensures forall line <- NonBlank(lines) :: line in lines
  {
    if lines == [] {
    } else {
      NonBlankSelects(lines[1..]);
    }
  }

  lemma {:induction false} FieldsComeFromLine(line: string, cur: string, inQuotes: bool)
    ensures forall f <- Fields(line, cur, inQuotes) :: forall c <- f :: c in line || c in cur
    decreases |line|
  {
    if line == [] {
    } else {
      assert forall c <- line[1..] :: c in line;
      FieldsComeFromLine(line[1..], cur + [line[0]], inQuotes);
      FieldsComeFromLine(line[1..], cur, !inQuotes);
      FieldsComeFromLine(line[1..], "", false);
      if |line| > 1 {
        assert forall c <- line[2..] :: c in line;
        FieldsComeFromLine(line[2..], cur + ['"'], true);
      }
    }
  }

  predicate Normal(row: seq<string>) {
    row != [] && forall f <- row :: NoLineFeed(f) && IsTrimmed(f)
  }

  /** Whatever the text, every row read has a field, and fields are trimmed and on one line. */
  lemma ReadRowsAreNormal(text: string)
    ensures forall row <- Parse(text) :: Normal(row)
  {
    var lines := NonBlank(Lines(text));
    LinesHaveNoLineFeed(text);
    NonBlankSelects(Lines(text));
    forall n | 0 <= n < |lines| ensures Normal(ParseLines(lines)[n]) {
      var fields := Fields(lines[n], "", false);
      FieldsComeFromLine(lines[n], "", false);
      forall i | 0 <= i < |fields| ensures NoLineFeed(Trim(fields[i])) && IsTrimmed(Trim(fields[i])) {
        assert fields[i] in fields && lines[n] in lines;
        TrimTrims(fields[i]);
      }
    }
  }

  /** A table with every field quoted. */
  function Quoted(rows: seq<seq<string>>): (r: seq<seq<Cell>>)
    ensures |r| == |rows|
  {
    seq(|rows|, i requires 0 <= i < |rows| =>
      seq(|rows[i]|, j requires 0 <= j < |rows[i]| => Cell(rows[i][j], true)))
  }

  lemma QuotedIsNotBlank(row: seq<Cell>)
    requires row != [] && row[0].quoted
    ensures !IsBlank(PrintRow(row))
  {
    assert PrintRow(row)[0] == '"';
    assert PrintRow(row)[0] in PrintRow(row);
  }

  lemma {:induction false} ExpectedOfQuoted(rows: seq<seq<string>>)
    requires forall row <- rows :: Normal(row)
    ensures Expected(Quoted(rows)) == rows
  {
    if rows == [] {
    } else {
      assert rows[0] in rows && forall row <- rows[1..] :: row in rows;
      ExpectedOfQuoted(rows[1..]);
      assert Quoted(rows)[1..] == Quoted(rows[1..]);
      QuotedIsNotBlank(Quoted(rows)[0]);
      forall j | 0 <= j < |rows[0]| ensures Trim(rows[0][j]) == rows[0][j] {
        assert rows[0][j] in rows[0];
        TrimTrims(rows[0][j]);
      }
      assert Texts(Quoted(rows)[0]) == rows[0];
    }
  }

  /**
   A table printed with every field quoted is read back unchanged exactly when each row has a
   field and each field is trimmed and free of line feeds.
   */
  lemma QuotedTablesRoundTripExactly(rows: seq<seq<string>>, lastBreak: bool)
    ensures Parse(Print(Quoted(rows), lastBreak)) == rows <==> forall row <- rows :: Normal(row)
  {
    ReadRowsAreNormal(Print(Quoted(rows), lastBreak));
    if forall row <- rows :: Normal(row) {
      forall row <- Quoted(rows) ensures Readable(row) {
        var i :| 0 <= i < |rows| && Quoted(rows)[i] == row;
        assert rows[i] in rows;
      }
      ReadingUndoesPrinting(Quoted(rows), lastBreak);
      ExpectedOfQuoted(rows);
    }
  }

  // ------------------------------------------------------------------------
  // From rows to hosts
  // ------------------------------------------------------------------------

  /** Cells stay strings; the ids picked in the dialog are numbers. */
  datatype Value = Text(text: string) | Id(id: nat)

  type Host = map<string, Value>

  const POSITIONAL: seq<string> := ["hostname", "forward_host", "forward_port", "forward_scheme"]

  function LowerAll(row: seq<string>): (r: seq<string>)
    ensures |r| == |row|
  {
    seq(|row|, i requires 0 <= i < |row| => Lower(row[i]))
  }

  /** The object after the first `n` fields: empty and missing cells set nothing. */
  function Fill(fields: seq<string>, cells: seq<string>, n: nat): Host
    requires n <= |fields|
  {
    if n == 0 then map[]
    else
      var before := Fill(fields, cells, n - 1);
      if n - 1 < |cells| && cells[n - 1] != "" then before[fields[n - 1] := Text(cells[n - 1])] else before
  }

  function SetDefault(h: Host, key: string, value: Option<Value>): Host {
    if key !in h && value.Some? then h[key := value.value] else h
  }

  function ToHost(fields: seq<string>, cells: seq<string>, tunnel: Option<nat>, zone: Option<nat>): Host {
    var h := Fill(fields, cells, |fields|);
    var h1 := SetDefault(h, "tunnel_id", if tunnel.Some? then Some(Id(tunnel.value)) else None);
    var h2 := SetDefault(h1, "cf_zone_id", if zone.Some? then Some(Id(zone.value)) else None);
    SetDefault(h2, "mode", Some(Text("cloudflare_tunnel")))
  }

  predicate HasHeader(rows: seq<seq<string>>) {
    rows != [] && "hostname" in LowerAll(rows[0])
  }

  function Hosts(rows: seq<seq<string>>, tunnel: Option<nat>, zone: Option<nat>): seq<Host> {
    if rows == [] then []
    else
      var fields := if HasHeader(rows) then LowerAll(rows[0]) else POSITIONAL;
      var data := if HasHeader(rows) then rows[1..] else rows;
      seq(|data|, i requires 0 <= i < |data| => ToHost(fields, data[i], tunnel, zone))
  }

  method RowToHost(fields: seq<string>, cells: seq<string>, tunnel: Option<nat>, zone: Option<nat>)
    returns (obj: Host)
    ensures obj == ToHost(fields, cells, tunnel, zone)
  {
    obj := map[];
    for i := 0 to |fields|
      invariant obj == Fill(fields, cells, i)
    {
      if i < |cells| && cells[i] != "" {
        obj := obj[fields[i] := Text(cells[i])];
      }
    }
    if "tunnel_id" !in obj && tunnel.Some? {
      obj := obj["tunnel_id" := Id(tunnel.value)];
    }
    if "cf_zone_id" !in obj && zone.Some? {
      obj := obj["cf_zone_id" := Id(zone.value)];
    }
    if "mode" !in obj {
      obj := obj["mode" := Text("cloudflare_tunnel")];
    }
  }

  method RowsToHosts(rows: seq<seq<string>>, tunnel: Option<nat>, zone: Option<nat>)
    returns (hosts: seq<Host>)
    ensures hosts == Hosts(rows, tunnel, zone)
  {
    hide ToHost, Fill;
    if rows == [] {
      return [];
    }
    var head := LowerAll(rows[0]);
    var hasHeader := "hostname" in head;
    var fields := if hasHeader then head else POSITIONAL;
    var data := if hasHeader then rows[1..] else rows;
    hosts := [];
    for r := 0 to |data|
      invariant |hosts| == r
      invariant forall k :: 0 <= k < r ==> hosts[k] == ToHost(fields, data[k], tunnel, zone)
    {
      var obj := RowToHost(fields, data[r], tunnel, zone);
      hosts := hosts + [obj];
    }
  }

  predicate Distinct(names: seq<string>) {
    forall i, j :: 0 <= i < j < |names| ==> names[i] != names[j]
  }

  predicate Filled(cells: seq<string>, i: int) {
    0 <= i < |cells| && cells[i] != ""
  }

  lemma {:induction false} FillLooksUp(fields: seq<string>, cells: seq<string>, n: nat)
    requires n <= |fields| && Distinct(fields)
    ensures forall i :: 0 <= i < n && Filled(cells, i) ==>
                          fields[i] in Fill(fields, cells, n)
                          && Fill(fields, cells, n)[fields[i]] == Text(cells[i])
    ensures forall f <- Fill(fields, cells, n) :: exists i :: 0 <= i < n && Filled(cells, i) && fields[i] == f
    decreases n
  {
    if n == 0 {
    } else {
      FillLooksUp(fields, cells, n - 1);
      assert Filled(cells, n - 1) || Fill(fields, cells, n) == Fill(fields, cells, n - 1);
    }
  }

  /** The i-th of the first `n` columns is the last one named `f` whose cell is not empty. */
  ghost predicate LastFilled(fields: seq<string>, cells: seq<string>, n: nat, f: string, i: int)
    requires n <= |fields|
  {
    && 0 <= i < n && Filled(cells, i) && fields[i] == f
    && forall j :: i < j < n && fields[j] == f ==> !Filled(cells, j)
  }

  /** A name is set exactly by its last column that is not empty. */
  lemma {:induction false} FillExactly(fields: seq<string>, cells: seq<string>, n: nat, f: string)
    requires n <= |fields|
    ensures f in Fill(fields, cells, n) <==> exists i :: LastFilled(fields, cells, n, f, i)
    ensures forall i :: LastFilled(fields, cells, n, f, i) ==> Fill(fields, cells, n)[f] == Text(cells[i])
    decreases n
  {
    if n == 0 {
    } else {
      var m: nat := n - 1;
      FillExactly(fields, cells, m, f);
      if Filled(cells, m) && fields[m] == f {
        assert LastFilled(fields, cells, n, f, m);
      } else {
        assert f in Fill(fields, cells, n) <==> f in Fill(fields, cells, m);
        assert f in Fill(fields, cells, n) ==> Fill(fields, cells, n)[f] == Fill(fields, cells, m)[f];
        hide Fill;
        assert forall i :: LastFilled(fields, cells, n, f, i) ==> LastFilled(fields, cells, m, f, i);
        if i :| LastFilled(fields, cells, m, f, i) {
          assert LastFilled(fields, cells, n, f, i);
        }
      }
    }
  }

  /** The default of a name: what was picked in the dialog, or the mode, which needs no picking. */
  function DefaultOf(f: string, tunnel: Option<nat>, zone: Option<nat>): Option<Value> {
    if f == "tunnel_id" && tunnel.Some? then Some(Id(tunnel.value))
    else if f == "cf_zone_id" && zone.Some? then Some(Id(zone.value))
    else if f == "mode" then Some(Text("cloudflare_tunnel"))
    else None
  }

  /** What a host says under each name: its last filled column, or else the default, or else nothing. */
  lemma HostExactly(fields: seq<string>, cells: seq<string>, tunnel: Option<nat>, zone: Option<nat>, f: string)
    ensures var h := ToHost(fields, cells, tunnel, zone);
            && (forall i :: LastFilled(fields, cells, |fields|, f, i) ==> f in h && h[f] == Text(cells[i]))
            && ((forall i :: !LastFilled(fields, cells, |fields|, f, i)) ==>
                  if DefaultOf(f, tunnel, zone).Some? then f in h && h[f] == DefaultOf(f, tunnel, zone).value
                  else f !in h)
  {
    FillExactly(fields, cells, |fields|, f);
    hide Fill, LastFilled;
  }

  /** With "hostname" in the first row that row names the columns; otherwise they have fixed names. */
  lemma HostsExactly(rows: seq<seq<string>>, tunnel: Option<nat>, zone: Option<nat>)
    requires rows != []
    ensures var hosts := Hosts(rows, tunnel, zone);
            if exists j :: 0 <= j < |rows[0]| && Lower(rows[0][j]) == "hostname" then
              && |hosts| == |rows| - 1
              && forall k :: 0 <= k < |hosts| ==> hosts[k] == ToHost(LowerAll(rows[0]), rows[k + 1], tunnel, zone)
            else
              && |hosts| == |rows|
              && forall k :: 0 <= k < |hosts| ==>
                   hosts[k] == ToHost(["hostname", "forward_host", "forward_port", "forward_scheme"],
                                      rows[k], tunnel, zone)
  {
    hide ToHost, Lower;
    var head := LowerAll(rows[0]);
    if "hostname" in head {
      var j :| 0 <= j < |head| && head[j] == "hostname";
      assert Lower(rows[0][j]) == "hostname";
    }
    assert forall j :: 0 <= j < |rows[0]| ==> Lower(rows[0][j]) == head[j] && head[j] in head;
  }

  /** Columns rearranged so that the new i-th is the old p[i]-th. */
  function Permute(s: seq<string>, p: seq<nat>): (r: seq<string>)
    requires forall i <- p :: i < |s|
    ensures |r| == |p|
  {
    seq(|p|, i requires 0 <= i < |p| => assert p[i] in p; s[p[i]])
  }

  /** `p` and `q` are mutually inverse rearrangements of `n` columns. */
  ghost predicate Inverse(p: seq<nat>, q: seq<nat>, n: nat) {
    && |p| == |q| == n
    && (forall i <- p :: i < n)
    && (forall i <- q :: i < n)
    && (forall i :: 0 <= i < n ==> p[i] < n && q[i] < n && p[q[i]] == i && q[p[i]] == i)
  }

  lemma InverseSwaps(p: seq<nat>, q: seq<nat>, n: nat)
    requires Inverse(p, q, n)
    ensures Inverse(q, p, n)
  {
  }

  lemma PermuteTwice(s: seq<string>, p: seq<nat>, q: seq<nat>)
    requires Inverse(p, q, |s|)
    ensures Permute(Permute(s, p), q) == s
  {
  }

  lemma PermuteDistinct(fields: seq<string>, p: seq<nat>, q: seq<nat>)
    requires Distinct(fields) && Inverse(p, q, |fields|)
    ensures Distinct(Permute(fields, p))
  {
    var fields2 := Permute(fields, p);
    forall i, j | 0 <= i < j < |fields| ensures fields2[i] != fields2[j] {
      assert q[p[i]] == i && q[p[j]] == j;
      assert p[i] < p[j] || p[j] < p[i];
    }
  }

  /** What an object holds, it also holds after the columns were rearranged. */
  lemma FillKeepsUnderOrder(fields: seq<string>, cells: seq<string>, p: seq<nat>, q: seq<nat>, f: string)
    requires Distinct(fields) && |cells| == |fields| && Inverse(p, q, |fields|)
    requires f in Fill(fields, cells, |fields|)
    ensures var b := Fill(Permute(fields, p), Permute(cells, p), |fields|);
            f in b && b[f] == Fill(fields, cells, |fields|)[f]
  {
    hide Fill;
    var n, fields2, cells2 := |fields|, Permute(fields, p), Permute(cells, p);
    PermuteDistinct(fields, p, q);
    FillLooksUp(fields, cells, n);
    FillLooksUp(fields2, cells2, n);
    var i :| 0 <= i < n && Filled(cells, i) && fields[i] == f;
    assert p[q[i]] == i && Filled(cells2, q[i]) && fields2[q[i]] == f;
  }

  lemma FillIgnoresOrder(fields: seq<string>, cells: seq<string>, p: seq<nat>, q: seq<nat>)
    requires Distinct(fields) && |cells| == |fields| && Inverse(p, q, |fields|)
    ensures Fill(Permute(fields, p), Permute(cells, p), |fields|) == Fill(fields, cells, |fields|)
  {
    var n, fields2, cells2 := |fields|, Permute(fields, p), Permute(cells, p);
    PermuteDistinct(fields, p, q);
    PermuteTwice(fields, p, q);
    PermuteTwice(cells, p, q);
    InverseSwaps(p, q, n);
    hide Fill, Permute, Inverse, Distinct;
    var a, b := Fill(fields, cells, n), Fill(fields2, cells2, n);
    forall f | f in a ensures f in b && b[f] == a[f] {
      FillKeepsUnderOrder(fields, cells, p, q, f);
    }
    forall f | f in b ensures f in a {
      FillKeepsUnderOrder(fields2, cells2, q, p, f);
    }
  }

  function PermuteRows(rows: seq<seq<string>>, p: seq<nat>): (r: seq<seq<string>>)
    requires forall row <- rows :: |row| == |p|
    requires forall i <- p :: i < |p|
    ensures |r| == |rows|
  {
    seq(|rows|, k requires 0 <= k < |rows| => assert rows[k] in rows; Permute(rows[k], p))
  }

  lemma HostIgnoresOrder(fields: seq<string>, cells: seq<string>, p: seq<nat>, q: seq<nat>,
                         tunnel: Option<nat>, zone: Option<nat>)
    requires Distinct(fields) && |cells| == |fields| && Inverse(p, q, |fields|)
    ensures ToHost(Permute(fields, p), Permute(cells, p), tunnel, zone) == ToHost(fields, cells, tunnel, zone)
  {
    hide Fill;
    FillIgnoresOrder(fields, cells, p, q);
  }

  lemma HeaderMoves(row: seq<string>, p: seq<nat>, q: seq<nat>)
    requires Inverse(p, q, |row|)
    ensures LowerAll(Permute(row, p)) == Permute(LowerAll(row), p)
    ensures "hostname" in LowerAll(row) ==> "hostname" in LowerAll(Permute(row, p))
  {
    hide Lower;
    var head := LowerAll(row);
    if h :| 0 <= h < |row| && head[h] == "hostname" {
      assert LowerAll(Permute(row, p))[q[h]] == "hostname";
    }
  }

  /** With a header of distinct names the columns may come in any order. */
  lemma ColumnOrderIsFree(rows: seq<seq<string>>, p: seq<nat>, q: seq<nat>,
                          tunnel: Option<nat>, zone: Option<nat>)
    requires HasHeader(rows) && Distinct(LowerAll(rows[0]))
    requires forall row <- rows :: |row| == |p|
    requires Inverse(p, q, |p|)
    ensures HasHeader(PermuteRows(rows, p))
    ensures Hosts(PermuteRows(rows, p), tunnel, zone) == Hosts(rows, tunnel, zone)
  {
    hide ToHost, Fill, Lower;
    var rows2, head := PermuteRows(rows, p), LowerAll(rows[0]);
    assert rows[0] in rows;
    HeaderMoves(rows[0], p, q);
    forall k | 1 <= k < |rows|
      ensures ToHost(LowerAll(rows2[0]), rows2[k], tunnel, zone) == ToHost(head, rows[k], tunnel, zone)
    {
      assert rows[k] in rows;
      HostIgnoresOrder(head, rows[k], p, q, tunnel, zone);
    }
  }
}
