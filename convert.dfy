/** The report serialisers of convert.js: HTML escaping, CSV and HTML rows, the two writers, and the
    check of the format option. */
module Convert {
  import opened Wrappers
  import opened Strings
  import opened Scan

  // ---------------------------------------------------------------------------
  // escapeTag

  function EscapeChar(c: char): string
  {
    if c == '&' then "&amp;" else if c == '<' then "&lt;" else [c]
  }

  /** `str.replace(/[&<]/g, ...)`: every "&" becomes "&amp;", every "<" becomes "&lt;", and every
      other character is kept. */
  function EscapeTag(s: string): (r: string)
    ensures '<' !in r
    ensures '&' !in s && '<' !in s ==> r == s
  {
    if |s| == 0 then "" else EscapeChar(s[0]) + EscapeTag(s[1..])
  }

  /** Reading the entities back: "&amp;" is "&", "&lt;" is "<". */
  function Unescape(r: string): string
    decreases |r|
  {
    if |r| == 0 then ""
    else if StartsWith(r, "&amp;") then "&" + Unescape(r[5..])
    else if StartsWith(r, "&lt;") then "<" + Unescape(r[4..])
    else [r[0]] + Unescape(r[1..])
  }

  /** Escaping loses nothing. */
  lemma {:induction false} UnescapeEscapeTag(s: string)
    ensures Unescape(EscapeTag(s)) == s
  {
    if |s| > 0 {
      var t := EscapeTag(s[1..]);
      UnescapeEscapeTag(s[1..]);
      assert EscapeTag(s) == EscapeChar(s[0]) + t;
      if s[0] == '&' {
        UnescapeAmp(t);
      } else if s[0] == '<' {
        UnescapeLt(t);
      } else {
        UnescapeOther(s[0], t);
      }
      assert [s[0]] + s[1..] == s;
    }
  }

  lemma UnescapeAmp(t: string)
    ensures Unescape("&amp;" + t) == "&" + Unescape(t)
  {
    var r := "&amp;" + t;
    assert r[..5] == "&amp;" && r[5..] == t;
  }

  lemma UnescapeLt(t: string)
    ensures Unescape("&lt;" + t) == "<" + Unescape(t)
  {
    var r := "&lt;" + t;
    assert r[..4] == "&lt;" && r[4..] == t;
    assert r[1] != "&amp;"[1];
  }

  lemma UnescapeOther(c: char, t: string)
    requires c != '&'
    ensures Unescape([c] + t) == [c] + Unescape(t)
  {
    var r := [c] + t;
    assert r[0] == c && r[1..] == t;
  }

  lemma {:induction false} EscapeTagAppend(a: string, b: string)
    ensures EscapeTag(a + b) == EscapeTag(a) + EscapeTag(b)
  {
    if |a| > 0 {
      assert (a + b)[1..] == a[1..] + b;
      EscapeTagAppend(a[1..], b);
    } else {
      assert a + b == b;
    }
  }

  // ---------------------------------------------------------------------------
  // CSV lines (writeCSV's `line`)

  /** `field.replace(/"/g, "\"\"")`. */
  function DoubleQuotes(f: string): string
  {
    if |f| == 0 then "" else (if f[0] == '"' then "\"\"" else [f[0]]) + DoubleQuotes(f[1..])
  }

  function QuoteField(f: string): string
  {
    "\"" + DoubleQuotes(f) + "\""
  }

  function QuoteAll(fields: seq<string>): (quoted: seq<string>)
    ensures |quoted| == |fields|
  {
    seq(|fields|, i requires 0 <= i < |fields| => QuoteField(fields[i]))
  }

  /** Every field quoted, the fields joined with ", ", and a newline at the end. */
  function CsvLine(fields: seq<string>): string
  {
    Join(QuoteAll(fields), ", ") + "\n"
  }

  /** The inside of a quoted field up to its closing quote, where "" stands for one quote, and what
      follows the closing quote; None when the quote is never closed. */
  function ReadQuoted(s: string): (r: Option<(string, string)>)
    ensures r.Some? ==> |r.value.1| < |s|
  {
    if |s| == 0 then None
    else if s[0] == '"' then
      if |s| > 1 && s[1] == '"' then
        match ReadQuoted(s[2..])
        case None => None
        case Some((f, rest)) => Some(("\"" + f, rest))
      else Some(("", s[1..]))
    else
      match ReadQuoted(s[1..])
      case None => None
      case Some((f, rest)) => Some(([s[0]] + f, rest))
  }

  /** Quoted fields separated by ", " and ended by a newline. */
  function ParseFields(s: string): Option<seq<string>>
    decreases |s|
  {
    if |s| == 0 || s[0] != '"' then None
    else
      match ReadQuoted(s[1..])
      case None => None
      case Some((f, rest)) =>
        if rest == "\n" then Some([f])
        else if StartsWith(rest, ", ") then
          match ParseFields(rest[2..])
          case None => None
          case Some(fs) => Some([f] + fs)
        else None
  }

  /** A reader for the lines CsvLine writes. */
  function ParseCsvLine(line: string): Option<seq<string>>
  {
    if line == "\n" then Some([]) else ParseFields(line)
  }

  /** A field with its quotes doubled reads back up to the closing quote, when no quote follows. */
  lemma {:induction false} ReadQuotedDoubled(f: string, rest: string)
    requires |rest| == 0 || rest[0] != '"'
    ensures ReadQuoted(DoubleQuotes(f) + "\"" + rest) == Some((f, rest))
  {
    if |f| == 0 {
      ReadQuotedClosing(rest);
    } else {
      ReadQuotedDoubled(f[1..], rest);
      ReadQuotedHead(f, rest);
    }
  }

  /** The closing quote ends the field. */
  lemma ReadQuotedClosing(rest: string)
    requires |rest| == 0 || rest[0] != '"'
    ensures ReadQuoted(DoubleQuotes("") + "\"" + rest) == Some(("", rest))
  {
    var s := DoubleQuotes("") + "\"" + rest;
    assert s == "\"" + rest;
    assert s[1..] == rest;
  }

  /** One more character in front of the field: a doubled quote or itself. */
  lemma ReadQuotedHead(f: string, rest: string)
    requires |f| > 0
    requires ReadQuoted(DoubleQuotes(f[1..]) + "\"" + rest) == Some((f[1..], rest))
    ensures ReadQuoted(DoubleQuotes(f) + "\"" + rest) == Some((f, rest))
  {
    var s := DoubleQuotes(f) + "\"" + rest;
    var t := DoubleQuotes(f[1..]) + "\"" + rest;
    if f[0] == '"' {
      assert s == "\"\"" + t;
      assert s[2..] == t;
      assert f == "\"" + f[1..];
    } else {
      assert s == [f[0]] + t;
      assert s[1..] == t;
      assert f == [f[0]] + f[1..];
    }
  }

  /** The quoting of one field is undone by reading it. */
  lemma QuoteFieldRoundTrip(f: string, rest: string)
    requires |rest| == 0 || rest[0] != '"'
    ensures var s := QuoteField(f) + rest; |s| > 0 && s[0] == '"' && ReadQuoted(s[1..]) == Some((f, rest))
  {
    var s := QuoteField(f) + rest;
    assert s[1..] == DoubleQuotes(f) + "\"" + rest;
    ReadQuotedDoubled(f, rest);
  }

  lemma QuoteAllTail(fields: seq<string>)
    requires |fields| > 0
    ensures QuoteAll(fields)[1..] == QuoteAll(fields[1..])
  {
  }

  lemma {:induction false} ParseFieldsJoin(fields: seq<string>)
    requires |fields| > 0
    ensures ParseFields(Join(QuoteAll(fields), ", ") + "\n") == Some(fields)
    decreases |fields|
  {
    var q := QuoteAll(fields);
    if |fields| == 1 {
      assert Join(q, ", ") == QuoteField(fields[0]);
      QuoteFieldRoundTrip(fields[0], "\n");
      assert fields == [fields[0]];
    } else {
      var tail := Join(QuoteAll(fields[1..]), ", ") + "\n";
      QuoteAllTail(fields);
      assert Join(q, ", ") + "\n" == QuoteField(fields[0]) + (", " + tail);
      QuoteFieldRoundTrip(fields[0], ", " + tail);
      assert (", " + tail)[2..] == tail;
      ParseFieldsJoin(fields[1..]);
      assert [fields[0]] + fields[1..] == fields;
    }
  }

  /** Every CSV line reads back as the fields it was written from. */
  lemma CsvLineRoundTrip(fields: seq<string>)
    ensures ParseCsvLine(CsvLine(fields)) == Some(fields)
  {
    if |fields| == 0 {
      assert CsvLine(fields) == "\n";
    } else {
      ParseFieldsJoin(fields);
      assert CsvLine(fields)[0] == '"';
    }
  }

  // ---------------------------------------------------------------------------
  // Entry values

  /** The values a parsed JSON report row holds. */
  datatype JsValue = Undefined | Null | Bool(b: bool) | Num(n: int) | Str(s: string)

  /** A parsed JSON object: a missing key reads `undefined`. */
  type Entry = map<string, JsValue>

  function Lookup(entry: Entry, field: string): JsValue
  {
    if field in entry then entry[field] else Undefined
  }

  predicate Falsy(v: JsValue)
  {
    v.Undefined? || v.Null? || v == Bool(false) || v == Num(0) || v == Str("")
  }

  /** `String(value || "")`. */
  function Render(v: JsValue): string
  {
    match v
    case Undefined => ""
    case Null => ""
    case Bool(b) => if b then "true" else ""
    case Num(n) => if n == 0 then "" else IntToString(n)
    case Str(s) => s
  }

  /** Exactly the falsy values render as the empty string. */
  lemma RenderEmptyIffFalsy(v: JsValue)
    ensures Render(v) == "" <==> Falsy(v)
  {
    match v
    case Num(n) =>
      if n != 0 {
        assert |IntToString(n)| >= 1;
      }
    case _ =>
  }

  /** `fields.map(field => String(entry[field] || ""))`. */
  function Cells(entry: Entry, fields: seq<string>): (cells: seq<string>)
    ensures |cells| == |fields|
  {
    seq(|fields|, i requires 0 <= i < |fields| => Render(Lookup(entry, fields[i])))
  }

  /** The fields written when none are given. */
  const DefaultFields: seq<string> := ["name", "host", "path", "isSession", "isThirdParty", "lifeSpan", "initiator"]

  /** A report row after JSON.stringify and JSON.parse. */
  function EntryOf(c: SimpleCookie): Entry
  {
    map["name" := Str(c.name), "host" := Str(c.host), "path" := Str(c.path),
        "isSession" := Bool(c.isSession), "isThirdParty" := Bool(c.isThirdParty),
        "lifeSpan" := Num(c.lifeSpan),
        "initiator" := match c.initiator case None => Null case Some(s) => Str(s)]
  }

  /** With the default fields, a report row shows false, 0 and a null initiator as empty cells. */
  lemma ReportRowCells(c: SimpleCookie)
    ensures Cells(EntryOf(c), DefaultFields) == [
      c.name, c.host, c.path,
      if c.isSession then "true" else "",
      if c.isThirdParty then "true" else "",
      if c.lifeSpan == 0 then "" else IntToString(c.lifeSpan),
      match c.initiator case None => "" case Some(s) => s]
  {
    var e := EntryOf(c);
    assert Lookup(e, "name") == Str(c.name);
    assert Lookup(e, "host") == Str(c.host);
    assert Lookup(e, "path") == Str(c.path);
    assert Lookup(e, "isSession") == Bool(c.isSession);
    assert Lookup(e, "isThirdParty") == Bool(c.isThirdParty);
    assert Lookup(e, "lifeSpan") == Num(c.lifeSpan);
  }

  // ---------------------------------------------------------------------------
  // The output stream

  /** The stream the serialisers write to: the chunks written so far, in order. */
  class Buffer {
    var chunks: seq<string>

    constructor ()
      ensures chunks == []
    {
      chunks := [];
    }

    /** `buffer.write(chunk)`. */
    method Write(chunk: string)
      modifies this
      ensures chunks == old(chunks) + [chunk]
    {
      chunks := chunks + [chunk];
    }

    /** Everything written so far. */
    function Text(): string
      reads this
    {
      Concat(chunks)
    }
  }

  // ---------------------------------------------------------------------------
  // writeCSV

  /** One line per entry, in data order. */
  function CsvRows(data: seq<Entry>, fields: seq<string>): (rows: seq<string>)
    ensures |rows| == |data|
  {
    seq(|data|, i requires 0 <= i < |data| => CsvLine(Cells(data[i], fields)))
  }

  /** writeCSV: the header line, then one line per entry. */
  method WriteCsv(buffer: Buffer, data: seq<Entry>, fields: seq<string>)
    modifies buffer
    ensures buffer.chunks == old(buffer.chunks) + [CsvLine(fields)] + CsvRows(data, fields)
  {
    buffer.Write(CsvLine(fields));
    ghost var start := buffer.chunks;
    for i := 0 to |data|
      invariant buffer.chunks == start + CsvRows(data[..i], fields)
    {
      buffer.Write(CsvLine(Cells(data[i], fields)));
      assert CsvRows(data[..i + 1], fields) == CsvRows(data[..i], fields) + [CsvLine(Cells(data[i], fields))];
    }
    assert data[..|data|] == data;
  }

  /** Each entry line writeCSV writes reads back as that entry's cells. */
  lemma CsvRowsRoundTrip(data: seq<Entry>, fields: seq<string>)
    ensures forall i :: 0 <= i < |data| ==> ParseCsvLine(CsvRows(data, fields)[i]) == Some(Cells(data[i], fields))
  {
    forall i | 0 <= i < |data|
      ensures ParseCsvLine(CsvRows(data, fields)[i]) == Some(Cells(data[i], fields))
    {
      CsvLineRoundTrip(Cells(data[i], fields));
    }
  }

  // ---------------------------------------------------------------------------
  // HTML lines (writeHTML's `line`)

  /** The tag that keeps a line break inside a spreadsheet cell. */
  const BrTag: string := "<br style=\"mso-data-placement:same-cell;\" />"

  /** `.replace(/\r?\n/g, BrTag)`: "\r\n" and "\n" become the tag, a lone "\r" stays. */
  function BreakLines(s: string): (r: string)
    ensures '\n' !in r
  {
    BrTagFacts();
    if |s| == 0 then ""
    else if |s| > 1 && s[0] == '\r' && s[1] == '\n' then BrTag + BreakLines(s[2..])
    else if s[0] == '\n' then BrTag + BreakLines(s[1..])
    else [s[0]] + BreakLines(s[1..])
  }

  lemma BrTagFacts()
    ensures '\n' !in BrTag && BrTag[0] == '<'
  {
  }

  /** Turning the tags back into newlines. */
  function UnbreakLines(r: string): string
    decreases |r|
  {
    if |r| == 0 then ""
    else if StartsWith(r, BrTag) then "\n" + UnbreakLines(r[|BrTag|..])
    else [r[0]] + UnbreakLines(r[1..])
  }

  /** Text with every "\r\n" written as "\n". */
  function NormalizeNewlines(s: string): string
  {
    if |s| == 0 then ""
    else if |s| > 1 && s[0] == '\r' && s[1] == '\n' then "\n" + NormalizeNewlines(s[2..])
    else [s[0]] + NormalizeNewlines(s[1..])
  }

  /** In text without "<", every tag in the output is one that BreakLines put there. */
  lemma {:induction false} UnbreakBreakLines(s: string)
    requires '<' !in s
    ensures UnbreakLines(BreakLines(s)) == NormalizeNewlines(s)
  {
    if |s| > 0 {
      if |s| > 1 && s[0] == '\r' && s[1] == '\n' {
        UnbreakTag(BreakLines(s[2..]));
        UnbreakBreakLines(s[2..]);
      } else if s[0] == '\n' {
        UnbreakTag(BreakLines(s[1..]));
        UnbreakBreakLines(s[1..]);
      } else {
        var r := [s[0]] + BreakLines(s[1..]);
        assert r[0] != BrTag[0];
        assert r[1..] == BreakLines(s[1..]);
        UnbreakBreakLines(s[1..]);
      }
    }
  }

  lemma UnbreakTag(t: string)
    ensures UnbreakLines(BrTag + t) == "\n" + UnbreakLines(t)
  {
    var r := BrTag + t;
    assert r[..|BrTag|] == BrTag;
    assert r[|BrTag|..] == t;
  }

  lemma {:induction false} NormalizeEscapeTag(s: string)
    ensures NormalizeNewlines(EscapeTag(s)) == EscapeTag(NormalizeNewlines(s))
  {
    if |s| > 0 {
      if |s| > 1 && s[0] == '\r' && s[1] == '\n' {
        var t := EscapeTag(s[2..]);
        assert EscapeTag(s) == "\r\n" + t by {
          assert s[1..][1..] == s[2..];
        }
        assert ("\r\n" + t)[2..] == t;
        NormalizeEscapeTag(s[2..]);
        assert EscapeTag("\n" + NormalizeNewlines(s[2..])) == "\n" + EscapeTag(NormalizeNewlines(s[2..])) by {
          EscapeTagAppend("\n", NormalizeNewlines(s[2..]));
        }
      } else {
        NormalizeEscapeTag(s[1..]);
        EscapeHead(s);
        EscapeTagAppend([s[0]], NormalizeNewlines(s[1..]));
        assert EscapeTag([s[0]]) == EscapeChar(s[0]);
      }
    }
  }

  /** Escaping a character that does not start "\r\n" gives text that does not start it either. */
  lemma EscapeHead(s: string)
    requires |s| > 0 && !(|s| > 1 && s[0] == '\r' && s[1] == '\n')
    ensures NormalizeNewlines(EscapeTag(s)) == EscapeChar(s[0]) + NormalizeNewlines(EscapeTag(s[1..]))
  {
    var t := EscapeTag(s[1..]);
    assert EscapeTag(s) == EscapeChar(s[0]) + t;
    EntitiesHaveNoReturn();
    if s[0] == '&' {
      NormalizePlain("&amp;", t);
    } else if s[0] == '<' {
      NormalizePlain("&lt;", t);
    } else {
      EscapeHeadPlain(s, t);
    }
  }

  lemma EntitiesHaveNoReturn()
    ensures '\r' !in "&amp;" && '\r' !in "&lt;"
  {
  }

  lemma EscapeHeadPlain(s: string, t: string)
    requires |s| > 0 && !(|s| > 1 && s[0] == '\r' && s[1] == '\n')
    requires s[0] != '&' && s[0] != '<' && t == EscapeTag(s[1..])
    ensures NormalizeNewlines([s[0]] + t) == [s[0]] + NormalizeNewlines(t)
  {
    if |s| > 1 {
      EscapeTagFirst(s[1..]);
    }
    NormalizeCons(s[0], t);
  }

  lemma EscapeTagFirst(s: string)
    requires |s| > 0
    ensures EscapeTag(s)[0] == if s[0] == '&' || s[0] == '<' then '&' else s[0]
  {
    assert EscapeTag(s) == EscapeChar(s[0]) + EscapeTag(s[1..]);
  }

  lemma NormalizeCons(c: char, t: string)
    requires c != '\r' || |t| == 0 || t[0] != '\n'
    ensures NormalizeNewlines([c] + t) == [c] + NormalizeNewlines(t)
  {
    assert ([c] + t)[1..] == t;
  }

  /** An entity has no "\r" in it, so it passes through newline normalisation. */
  lemma {:induction false} NormalizePlain(e: string, t: string)
    requires '\r' !in e
    ensures NormalizeNewlines(e + t) == e + NormalizeNewlines(t)
  {
    if |e| > 0 {
      assert (e + t)[1..] == e[1..] + t;
      NormalizePlain(e[1..], t);
      assert [e[0]] + e[1..] == e;
    } else {
      assert e + t == t;
    }
  }

  /** The text of an HTML cell reads back as its field, with "\r\n" written as "\n". */
  lemma HtmlCellRoundTrip(field: string)
    ensures Unescape(UnbreakLines(BreakLines(EscapeTag(field)))) == NormalizeNewlines(field)
  {
    UnbreakBreakLines(EscapeTag(field));
    NormalizeEscapeTag(field);
    UnescapeEscapeTag(NormalizeNewlines(field));
  }

  function HtmlCellOf(tag: string, text: string): string
  {
    "<" + tag + ">" + text + "</" + tag + ">"
  }

  /** The text of a cell: the field escaped, its line breaks turned into tags. */
  function CellText(field: string): string
  {
    BreakLines(EscapeTag(field))
  }

  /** A cell: the field's text between the tags. */
  function HtmlCell(tag: string, field: string): string
  {
    HtmlCellOf(tag, CellText(field))
  }

  /** The cell tag of a row: `th` for the heading, `td` otherwise. */
  function CellTag(heading: bool): string
  {
    if heading then "th" else "td"
  }

  function HtmlCells(fields: seq<string>, tag: string): (cells: seq<string>)
    ensures |cells| == |fields|
  {
    seq(|fields|, i requires 0 <= i < |fields| => HtmlCell(tag, fields[i]))
  }

  const RowEnd: string := "</tr>\n"

  /** A table row: one cell per field, in order. */
  function HtmlLine(fields: seq<string>, heading: bool): string
  {
    "<tr>" + Concat(HtmlCells(fields, CellTag(heading))) + RowEnd
  }

  /** Every "<" is followed by "b": the only tags in the text of a cell are line-break tags. */
  predicate OnlyBreakTags(c: string)
  {
    forall i :: 0 <= i < |c| && c[i] == '<' ==> i + 1 < |c| && c[i + 1] == 'b'
  }

  lemma OnlyBreakTagsAppend(a: string, b: string)
    requires OnlyBreakTags(a) && OnlyBreakTags(b)
    ensures OnlyBreakTags(a + b)
  {
    var s := a + b;
    forall i | 0 <= i < |s| && s[i] == '<' ensures i + 1 < |s| && s[i + 1] == 'b' {
      if i < |a| {
        assert s[i] == a[i] && s[i + 1] == a[i + 1];
      } else {
        assert s[i] == b[i - |a|] && s[i + 1] == b[i + 1 - |a|];
      }
    }
  }

  lemma BrTagOnlyBreakTags()
    ensures OnlyBreakTags(BrTag)
  {
  }

  /** Escaped text with its line breaks turned into tags holds no other tag. */
  lemma {:induction false} BreakLinesOnlyBreakTags(s: string)
    requires '<' !in s
    ensures OnlyBreakTags(BreakLines(s))
  {
    if |s| > 0 {
      BrTagOnlyBreakTags();
      if |s| > 1 && s[0] == '\r' && s[1] == '\n' {
        BreakLinesOnlyBreakTags(s[2..]);
        OnlyBreakTagsAppend(BrTag, BreakLines(s[2..]));
      } else if s[0] == '\n' {
        BreakLinesOnlyBreakTags(s[1..]);
        OnlyBreakTagsAppend(BrTag, BreakLines(s[1..]));
      } else {
        BreakLinesOnlyBreakTags(s[1..]);
        OnlyBreakTagsAppend([s[0]], BreakLines(s[1..]));
      }
    }
  }

  /** The text before the first "</", and the rest from there on. */
  function ReadToClose(s: string): (r: Option<(string, string)>)
    ensures r.Some? ==> |r.value.1| <= |s| && StartsWith(r.value.1, "</")
  {
    if |s| < 2 then None
    else if s[0] == '<' && s[1] == '/' then Some(("", s))
    else
      match ReadToClose(s[1..])
      case None => None
      case Some((c, rest)) => Some(([s[0]] + c, rest))
  }

  lemma {:induction false} ReadToCloseText(c: string, t: string)
    requires OnlyBreakTags(c)
    ensures ReadToClose(c + "</" + t) == Some((c, "</" + t))
  {
    var s := c + "</" + t;
    if |c| == 0 {
      assert s == "</" + t;
    } else {
      var c' := c[1..];
      assert s[1..] == c' + "</" + t;
      assert OnlyBreakTags(c') by {
        forall i | 0 <= i < |c'| && c'[i] == '<' ensures i + 1 < |c'| && c'[i + 1] == 'b' {
          assert c[i + 1] == '<';
        }
      }
      ReadToCloseText(c', t);
      if c[0] == '<' {
        assert s[1] == c[1];
      }
      assert [c[0]] + c' == c;
    }
  }

  /** Cells `<tag>text</tag>` up to the end of the row. */
  function ReadCells(s: string, tag: string): Option<seq<string>>
    decreases |s|
  {
    if s == RowEnd then Some([])
    else if StartsWith(s, "<" + tag + ">") then
      match ReadToClose(s[|tag| + 2..])
      case None => None
      case Some((c, rest)) =>
        if StartsWith(rest, "</" + tag + ">") then
          match ReadCells(rest[|tag| + 3..], tag)
          case None => None
          case Some(cs) => Some([c] + cs)
        else None
    else None
  }

  /** A reader for the rows HtmlLine writes. */
  function ReadHtmlLine(line: string, tag: string): Option<seq<string>>
  {
    if StartsWith(line, "<tr>") then ReadCells(line[4..], tag) else None
  }

  /** The text of each cell: the field escaped, its line breaks as tags. */
  function CellTexts(fields: seq<string>): (texts: seq<string>)
    ensures |texts| == |fields|
  {
    seq(|fields|, i requires 0 <= i < |fields| => CellText(fields[i]))
  }

  /** One cell, then the rest of the row. */
  lemma ReadCellsStep(tag: string, field: string, tail: string)
    requires |tag| > 0 && tag[0] != '/'
    ensures ReadCells(HtmlCell(tag, field) + tail, tag)
      == match ReadCells(tail, tag) case None => None case Some(cs) => Some([CellText(field)] + cs)
  {
    var text := CellText(field);
    var rest := "</" + (tag + ">" + tail);
    CellOpening(tag, text, tail);
    BreakLinesOnlyBreakTags(EscapeTag(field));
    ReadToCloseText(text, tag + ">" + tail);
    CellClosing(tag, tail);
  }

  lemma CellOpening(tag: string, text: string, tail: string)
    requires |tag| > 0 && tag[0] != '/'
    ensures var s := HtmlCellOf(tag, text) + tail;
      s != RowEnd && StartsWith(s, "<" + tag + ">") && s[|tag| + 2..] == text + "</" + (tag + ">" + tail)
  {
    var s := HtmlCellOf(tag, text) + tail;
    assert s[1] == tag[0];
    assert s[..|tag| + 2] == "<" + tag + ">";
  }

  lemma CellClosing(tag: string, tail: string)
    ensures var rest := "</" + (tag + ">" + tail);
      StartsWith(rest, "</" + tag + ">") && rest[|tag| + 3..] == tail
  {
    var rest := "</" + (tag + ">" + tail);
    assert rest[..|tag| + 3] == "</" + tag + ">";
  }

  lemma {:induction false} ReadCellsConcat(fields: seq<string>, tag: string)
    requires |tag| > 0 && tag[0] != '/'
    ensures ReadCells(Concat(HtmlCells(fields, tag)) + RowEnd, tag) == Some(CellTexts(fields))
  {
    if |fields| == 0 {
      assert Concat(HtmlCells(fields, tag)) + RowEnd == RowEnd;
    } else {
      var tail := Concat(HtmlCells(fields[1..], tag)) + RowEnd;
      HtmlCellsCons(fields, tag);
      ReadCellsStep(tag, fields[0], tail);
      ReadCellsConcat(fields[1..], tag);
      CellTextsCons(fields);
    }
  }

  lemma HtmlCellsCons(fields: seq<string>, tag: string)
    requires |fields| > 0
    ensures Concat(HtmlCells(fields, tag)) + RowEnd
      == HtmlCell(tag, fields[0]) + (Concat(HtmlCells(fields[1..], tag)) + RowEnd)
  {
    var cells, rest := HtmlCells(fields, tag), HtmlCells(fields[1..], tag);
    forall i | 0 <= i < |rest|
      ensures cells[1..][i] == rest[i]
    {
      assert fields[1..][i] == fields[i + 1];
    }
    assert cells[1..] == rest;
  }

  lemma CellTextsCons(fields: seq<string>)
    requires |fields| > 0
    ensures CellTexts(fields) == [CellText(fields[0])] + CellTexts(fields[1..])
  {
    var a, t := CellTexts(fields), CellTexts(fields[1..]);
    var b := [CellText(fields[0])] + t;
    forall i | 0 <= i < |a|
      ensures a[i] == b[i]
    {
      assert a[i] == CellText(fields[i]);
      if i > 0 {
        assert fields[1..][i - 1] == fields[i];
        assert b[i] == t[i - 1] == CellText(fields[1..][i - 1]);
      }
    }
  }

  /** A row reads back as its cells' texts, and each text decodes to its field (with "\r\n" as "\n"). */
  lemma HtmlLineRoundTrip(fields: seq<string>, heading: bool)
    ensures ReadHtmlLine(HtmlLine(fields, heading), CellTag(heading)) == Some(CellTexts(fields))
    ensures forall i :: 0 <= i < |fields| ==>
      Unescape(UnbreakLines(CellTexts(fields)[i])) == NormalizeNewlines(fields[i])
  {
    var line := HtmlLine(fields, heading);
    var body := Concat(HtmlCells(fields, CellTag(heading))) + RowEnd;
    assert line == "<tr>" + body;
    assert line[..4] == "<tr>" && line[4..] == body;
    ReadCellsConcat(fields, CellTag(heading));
    forall i | 0 <= i < |fields|
      ensures Unescape(UnbreakLines(CellTexts(fields)[i])) == NormalizeNewlines(fields[i])
    {
      HtmlCellRoundTrip(fields[i]);
    }
  }

  const HtmlOpen: string := "<html><body>\n<table>\n"

  /** The closing text as the program writes it, with the ">" of "</table>" missing. */
  const HtmlClose: string := "</table\n</body></html>\n"

  function HtmlRows(data: seq<Entry>, fields: seq<string>): (rows: seq<string>)
    ensures |rows| == |data|
  {
    seq(|data|, i requires 0 <= i < |data| => HtmlLine(Cells(data[i], fields), false))
  }

  /** writeHTML: the opening, the heading row, one row per entry, the closing. */
  method WriteHtml(buffer: Buffer, data: seq<Entry>, fields: seq<string>)
    modifies buffer
    ensures buffer.chunks == old(buffer.chunks) + [HtmlOpen, HtmlLine(fields, true)] + HtmlRows(data, fields) + [HtmlClose]
  {
    buffer.Write(HtmlOpen);
    buffer.Write(HtmlLine(fields, true));
    ghost var start := buffer.chunks;
    for i := 0 to |data|
      invariant buffer.chunks == start + HtmlRows(data[..i], fields)
    {
      buffer.Write(HtmlLine(Cells(data[i], fields), false));
      assert HtmlRows(data[..i + 1], fields) == HtmlRows(data[..i], fields) + [HtmlLine(Cells(data[i], fields), false)];
    }
    assert data[..|data|] == data;
    buffer.Write(HtmlClose);
  }

  // ---------------------------------------------------------------------------
  // enumType

  const UnknownValuePrefix: string := "Unknow value. Supported values: "

  /** The format option: accepted when it is one of the values, an error naming them otherwise. */
  function EnumType(values: seq<string>, format: string): (r: Result<string, string>)
  {
    if format in values then Ok(format) else Err(UnknownValuePrefix + Join(values, ", "))
  }

  const Formats: seq<string> := ["json", "html", "csv"]

  /** The accepted formats are exactly json, html and csv; anything else is refused with the list. */
  lemma EnumTypeFormats(format: string)
    ensures EnumType(Formats, format).Ok? <==> format == "json" || format == "html" || format == "csv"
    ensures EnumType(Formats, format).Ok? ==> EnumType(Formats, format).value == format
    ensures EnumType(Formats, format).Err? ==>
      EnumType(Formats, format).error == UnknownValuePrefix + "json, html, csv"
  {
    assert Formats[1..] == ["html", "csv"];
    assert Formats[1..][1..] == ["csv"];
    assert Join(Formats, ", ") == "json" + ", " + ("html" + ", " + "csv");
  }
}
