/**
 * CsvReader: a text file split into lines, each line tokenized into fields with Excel's
 * quoting ("..." around a field, "" for a quote inside it).
 */
module Csv {
  import opened Wrappers
  import opened CellValues
  import opened RowTrimming
  import opened Sequences

  /** `s.split(d)` for a one-character d: the pieces between the occurrences of d. */
  function Split(s: string, d: char): (parts: seq<string>)
    ensures |parts| == Occurrences(s, d) + 1
  {
    if s == [] then [""]
    else
      var init := Split(s[..|s| - 1], d);
      var c := s[|s| - 1];
      if c == d then init + [""] else init[..|init| - 1] + [init[|init| - 1] + [c]]
  }

  /** The number of times d occurs in s. */
  function Occurrences(s: string, d: char): nat {
    if s == [] then 0 else Occurrences(s[..|s| - 1], d) + (if s[|s| - 1] == d then 1 else 0)
  }

  predicate NoSeparator(parts: seq<string>, d: char) {
    forall k :: 0 <= k < |parts| ==> d !in parts[k]
  }

  /** Split with one more character. */
  lemma SplitSnoc(s: string, c: char, d: char)
    ensures var p := Split(s, d);
      Split(s + [c], d) == if c == d then p + [""] else p[..|p| - 1] + [p[|p| - 1] + [c]]
  {
    assert (s + [c])[..|s|] == s;
  }

  /** No piece holds the separator. */
  lemma {:induction false} SplitPieces(s: string, d: char)
    ensures NoSeparator(Split(s, d), d)
  {
    if s != [] {
      var s' := s[..|s| - 1];
      SplitPieces(s', d);
      var init := Split(s', d);
      var c := s[|s| - 1];
      if c != d {
        var last := init[|init| - 1] + [c];
        assert d !in init[|init| - 1];
        assert d !in last;
        assert Split(s, d) == init[..|init| - 1] + [last];
      } else {
        assert Split(s, d) == init + [""];
      }
    }
  }

  /** `parts.join(d)`. */
  function Join(parts: seq<string>, d: char): string
    requires |parts| >= 1
  {
    if |parts| == 1 then parts[0] else Join(parts[..|parts| - 1], d) + [d] + parts[|parts| - 1]
  }

  /** Joining the pieces gives the text back. */
  lemma {:induction false} JoinSplit(s: string, d: char)
    ensures Join(Split(s, d), d) == s
  {
    if s != [] {
      var s' := s[..|s| - 1];
      var c := s[|s| - 1];
      var p := Split(s', d);
      JoinSplit(s', d);
      if c == d {
        assert Split(s, d) == p + [""];
        JoinAppendEmpty(p, d);
      } else {
        assert Split(s, d) == p[..|p| - 1] + [p[|p| - 1] + [c]];
        JoinExtendLast(p, c, d);
      }
      assert s' + [c] == s;
    }
  }

  /** Joining one more empty piece adds a separator. */
  lemma JoinAppendEmpty(parts: seq<string>, d: char)
    requires |parts| >= 1
    ensures Join(parts + [""], d) == Join(parts, d) + [d]
  {
    assert (parts + [""])[..|parts|] == parts;
    assert Join(parts, d) + [d] + "" == Join(parts, d) + [d];
  }

  /** Joining pieces whose last one is one character longer adds that character. */
  lemma JoinExtendLast(parts: seq<string>, c: char, d: char)
    requires |parts| >= 1
    ensures Join(parts[..|parts| - 1] + [parts[|parts| - 1] + [c]], d) == Join(parts, d) + [c]
  {
    var init, last := parts[..|parts| - 1], parts[|parts| - 1];
    var longer := init + [last + [c]];
    assert longer[..|longer| - 1] == init && longer[|longer| - 1] == last + [c];
    if |parts| > 1 {
      Assoc(Join(init, d) + [d], last, [c]);
    }
  }

  /** Splitting undoes joining pieces that do not contain the separator. */
  lemma {:induction false} SplitJoin(parts: seq<string>, d: char)
    requires |parts| >= 1 && NoSeparator(parts, d)
    ensures Split(Join(parts, d), d) == parts
  {
    if |parts| == 1 {
      SplitAppendPlain([], parts[0], d);
      assert [] + parts[0] == parts[0] && "" + parts[0] == parts[0];
    } else {
      var init := parts[..|parts| - 1];
      assert forall k :: 0 <= k < |init| ==> init[k] == parts[k];
      SplitJoin(init, d);
      SplitJoinStep(parts, d);
    }
  }

  /** Joining one more piece adds one piece to the split. */
  lemma SplitJoinStep(parts: seq<string>, d: char)
    requires |parts| >= 2 && d !in parts[|parts| - 1]
    requires Split(Join(parts[..|parts| - 1], d), d) == parts[..|parts| - 1]
    ensures Split(Join(parts, d), d) == parts
  {
    var last := parts[|parts| - 1];
    var init := parts[..|parts| - 1];
    var prefix := Join(init, d) + [d];
    SplitSnoc(Join(init, d), d, d);
    var p := init + [""];
    assert Split(prefix, d) == p;
    SplitAppendPlain(prefix, last, d);
    assert p[..|p| - 1] == init && p[|p| - 1] + last == last;
    assert Join(parts, d) == prefix + last;
    InitLast(parts);
  }

  /** Appending text without the separator extends the last piece. */
  lemma {:induction false} SplitAppendPlain(s: string, t: string, d: char)
    requires d !in t
    ensures var p := Split(s, d); Split(s + t, d) == p[..|p| - 1] + [p[|p| - 1] + t]
  {
    var p := Split(s, d);
    if t == [] {
      assert s + t == s;
      assert p[|p| - 1] + t == p[|p| - 1];
      InitLast(p);
    } else {
      var t' := t[..|t| - 1];
      var c := t[|t| - 1];
      assert c in t;
      InInit(t, d);
      SplitAppendPlain(s, t', d);
      SplitAppendPlainStep(s, t', c, d);
      assert t' + [c] == t;
    }
  }

  lemma SplitAppendPlainStep(s: string, t: string, c: char, d: char)
    requires c != d
    requires var p := Split(s, d); Split(s + t, d) == p[..|p| - 1] + [p[|p| - 1] + t]
    ensures var p := Split(s, d); Split(s + (t + [c]), d) == p[..|p| - 1] + [p[|p| - 1] + (t + [c])]
  {
    var p := Split(s, d);
    var q := Split(s + t, d);
    SplitSnoc(s + t, c, d);
    assert q[..|q| - 1] == p[..|p| - 1] && q[|q| - 1] == p[|p| - 1] + t;
    Assoc(s, t, [c]);
    Assoc(p[|p| - 1], t, [c]);
  }

  /** The tokenizer's state: the fields pushed so far, the cell being read, whether inside quotes, the previous character. */
  datatype Lexer = Lexer(fields: seq<string>, cell: string, inQuote: bool, prev: Option<char>)

  const Start := Lexer([], "", false, None)

  /**
   * One character of readRowAt's loop. A quote toggles inQuote, and a quote that opens
   * right after a quote adds one quote to the cell; the separator outside quotes pushes
   * the cell; any other character is added to the cell.
   */
  function Step(st: Lexer, c: char, separator: string): (r: Lexer)
    // a cell is pushed only by the separator outside quotes, and then the new cell is empty
    ensures r.fields == st.fields || (r.fields == st.fields + [st.cell] && r.cell == "" && IsSeparatorChar(c, separator) && !st.inQuote)
    // only a quote changes whether the tokenizer is inside quotes
    ensures r.inQuote != st.inQuote <==> c == '"'
    ensures r.prev == Some(c)
  {
    if c == '"' then
      var inQuote := !st.inQuote;
      Lexer(st.fields, if inQuote && st.prev == Some('"') then st.cell + ['"'] else st.cell, inQuote, Some(c))
    else if [c] == separator && !st.inQuote then
      Lexer(st.fields + [st.cell], "", st.inQuote, Some(c))
    else
      Lexer(st.fields, st.cell + [c], st.inQuote, Some(c))
  }

  /** The tokenizer after reading s; fields once pushed stay as they are. */
  function Run(st: Lexer, s: string, separator: string): (r: Lexer)
    ensures |st.fields| <= |r.fields| && r.fields[..|st.fields|] == st.fields
    ensures s != [] ==> r.prev == Some(s[|s| - 1])
    ensures s == [] ==> r == st
  {
    if s == [] then st else Step(Run(st, s[..|s| - 1], separator), s[|s| - 1], separator)
  }

  /** The line without the carriage return it may end with, which readRowAt skips. */
  function EffectiveLine(line: string): string {
    if |line| > 0 && line[|line| - 1] == '\r' then line[..|line| - 1] else line
  }

  /** The fields readRowAt returns for a line: those pushed, then the last cell. */
  function Fields(line: string, separator: string): (r: seq<string>)
    ensures |r| >= 1
  {
    var st := Run(Start, EffectiveLine(line), separator);
    st.fields + [st.cell]
  }

  function TextRow(fields: seq<string>): (row: Row)
    ensures |row| == |fields| && forall k :: 0 <= k < |row| ==> row[k] == Text(fields[k])
  {
    seq(|fields|, k requires 0 <= k < |fields| => Text(fields[k]))
  }

  /**
   * readRowAt(i): `undefined` for a line past the end or an empty line (both falsy), the
   * fields of the line otherwise; before read() there are no lines and the lookup raises.
   */
  function CsvRowAt(lines: Option<seq<string>>, separator: string, i: nat): (r: RowRead)
    ensures r.Failed? <==> lines.None?
    ensures r.Got? <==> lines.Some? && i < |lines.value| && lines.value[i] != ""
    ensures r.Got? ==> r.cells == TextRow(Fields(lines.value[i], separator)) && |r.cells| >= 1
  {
    match lines
    case None => Failed(LinesNotRead)
    case Some(ls) =>
      if i >= |ls| || ls[i] == "" then EndOfRows else Got(TextRow(Fields(ls[i], separator)))
  }

  function CsvSource(lines: Option<seq<string>>, separator: string): nat -> RowRead {
    (i: nat) => CsvRowAt(lines, separator, i)
  }

  /** A file has finitely many lines, so readRowAt eventually answers `undefined`. */
  lemma CsvStops(lines: Option<seq<string>>, separator: string)
    ensures Stops(CsvSource(lines, separator))
  {
    var n: nat := if lines.Some? then |lines.value| else 0;
    assert !CsvSource(lines, separator)(n).Got?;
  }

  /** An empty line ends the table: nothing after it is read. */
  lemma EmptyLineEndsTable(lines: seq<string>, separator: string, k: nat)
    requires k < |lines| && lines[k] == ""
    ensures Stops(CsvSource(Some(lines), separator))
    ensures FirstStop(CsvSource(Some(lines), separator)) <= k
  {
    CsvStops(Some(lines), separator);
    var n := FirstStop(CsvSource(Some(lines), separator));
    assert !CsvSource(Some(lines), separator)(k).Got?;
  }

  lemma {:induction false} RunAppend(st: Lexer, a: string, b: string, separator: string)
    ensures Run(st, a + b, separator) == Run(Run(st, a, separator), b, separator)
  {
    if b == [] {
      assert a + b == a;
    } else {
      RunAppend(st, a, b[..|b| - 1], separator);
      assert (a + b)[..|a + b| - 1] == a + b[..|b| - 1];
    }
  }

  /** Without quotes, the fields of a line are its pieces between separators. */
  lemma {:induction false} RunWithoutQuotes(s: string, d: char)
    requires '"' !in s
    ensures var st := Run(Start, s, [d]); !st.inQuote && st.fields + [st.cell] == Split(s, d)
  {
    if s != [] {
      var init := s[..|s| - 1];
      assert forall k :: 0 <= k < |init| ==> init[k] == s[k];
      RunWithoutQuotes(init, d);
      var st := Run(Start, init, [d]);
      assert st.fields == Split(init, d)[..|Split(init, d)| - 1];
    }
  }

  /** A line without quotes splits at every separator, as `line.split(separator)` would. */
  lemma FieldsWithoutQuotes(line: string, d: char)
    requires '"' !in line
    ensures Fields(line, [d]) == Split(EffectiveLine(line), d)
  {
    var e := EffectiveLine(line);
    assert forall k :: 0 <= k < |e| ==> e[k] == line[k];
    RunWithoutQuotes(e, d);
  }

  /** One carriage return at the end of a line (a Windows line end) does not change its fields. */
  lemma TrailingCarriageReturn(line: string, separator: string)
    requires line == [] || line[|line| - 1] != '\r'
    ensures Fields(line + "\r", separator) == Fields(line, separator)
  {
    assert (line + "\r")[..|line|] == line;
  }

  /** A field is quoted when it holds a quote, the separator or a carriage return. */
  predicate NeedsQuotes(f: string, d: char) {
    '"' in f || d in f || '\r' in f
  }

  /** The field with every quote doubled. */
  function Doubled(f: string): (r: string)
    ensures '\n' !in f ==> '\n' !in r
  {
    if f == [] then []
    else
      var c := f[|f| - 1];
      Doubled(f[..|f| - 1]) + (if c == '"' then "\"\"" else [c])
  }

  function EncodeField(f: string, d: char): string {
    if NeedsQuotes(f, d) then "\"" + Doubled(f) + "\"" else f
  }

  /** A record written as Excel writes it: fields joined by the separator, quoted where needed. */
  function EncodeRecord(fields: seq<string>, d: char): string
    requires |fields| >= 1
  {
    if |fields| == 1 then EncodeField(fields[0], d)
    else EncodeRecord(fields[..|fields| - 1], d) + [d] + EncodeField(fields[|fields| - 1], d)
  }

  /** Unquoted text outside quotes is added to the cell. */
  lemma {:induction false} PlainRun(st: Lexer, f: string, d: char)
    requires !st.inQuote && '"' !in f && d !in f
    ensures var r := Run(st, f, [d]); r.fields == st.fields && r.cell == st.cell + f && !r.inQuote
    ensures f == [] || Run(st, f, [d]).prev == Some(f[|f| - 1])
  {
    if f != [] {
      var init := f[..|f| - 1];
      var c := f[|f| - 1];
      InInit(f, '"');
      InInit(f, d);
      assert c in f;
      PlainRun(st, init, d);
      Assoc(st.cell, init, [c]);
      assert init + [c] == f;
    } else {
      assert st.cell + f == st.cell;
    }
  }

  /** Inside quotes, the doubled text of a field adds the field itself to the cell. */
  lemma {:induction false} QuotedRun(st: Lexer, f: string, d: char)
    requires st.inQuote
    ensures var r := Run(st, Doubled(f), [d]); r.fields == st.fields && r.cell == st.cell + f && r.inQuote
  {
    if f != [] {
      var init := f[..|f| - 1];
      var c := f[|f| - 1];
      QuotedRun(st, init, d);
      QuotedRunStep(st, init, c, d);
      assert init + [c] == f;
    } else {
      assert st.cell + f == st.cell;
    }
  }

  lemma QuotedRunStep(st: Lexer, init: string, c: char, d: char)
    requires var r := Run(st, Doubled(init), [d]); r.fields == st.fields && r.cell == st.cell + init && r.inQuote
    ensures var r := Run(st, Doubled(init + [c]), [d]); r.fields == st.fields && r.cell == st.cell + (init + [c]) && r.inQuote
  {
    var piece := if c == '"' then "\"\"" else [c];
    assert (init + [c])[..|init|] == init;
    assert Doubled(init + [c]) == Doubled(init) + piece;
    RunAppend(st, Doubled(init), piece, [d]);
    var mid := Run(st, Doubled(init), [d]);
    if c == '"' {
      DoubledQuoteRun(mid, d);
    } else {
      assert piece[..0] == [];
    }
    Assoc(st.cell, init, [c]);
  }

  /** Inside quotes, a doubled quote adds one quote to the cell and stays inside. */
  lemma DoubledQuoteRun(st: Lexer, d: char)
    requires st.inQuote
    ensures Run(st, "\"\"", [d]) == Lexer(st.fields, st.cell + ['"'], true, Some('"'))
  {
    var q: string := "\"";
    assert "\"\""[..1] == q && q[..0] == [];
    assert Run(st, q, [d]) == Step(st, '"', [d]);
  }

  /** A field as EncodeField writes it, read from just after a separator, ends as the cell. */
  lemma FieldRun(st: Lexer, f: string, d: char)
    requires d != '"' && !st.inQuote && st.prev != Some('"')
    ensures var r := Run(st, EncodeField(f, d), [d]); r.fields == st.fields && r.cell == st.cell + f && !r.inQuote
  {
    if NeedsQuotes(f, d) {
      var q: string := "\"";
      RunAppend(st, q + Doubled(f), q, [d]);
      RunAppend(st, q, Doubled(f), [d]);
      assert q[..0] == [];
      var open := Run(st, q, [d]);
      assert open == Lexer(st.fields, st.cell, true, Some('"'));
      QuotedRun(open, f, d);
    } else {
      PlainRun(st, f, d);
    }
  }

  /** The separator outside quotes pushes the cell. */
  lemma SeparatorRun(st: Lexer, d: char)
    requires d != '"' && !st.inQuote
    ensures Run(st, [d], [d]) == Lexer(st.fields + [st.cell], "", false, Some(d))
  {
    assert [d][..0] == [];
  }

  /** Reading an encoded record leaves all its fields but the last pushed, and the last as the cell. */
  lemma {:induction false} RecordRun(fields: seq<string>, d: char)
    requires d != '"' && |fields| >= 1
    ensures var r := Run(Start, EncodeRecord(fields, d), [d]);
      r.fields == fields[..|fields| - 1] && r.cell == fields[|fields| - 1] && !r.inQuote
  {
    if |fields| == 1 {
      SingleRecordRun(fields, d);
    } else {
      RecordRun(fields[..|fields| - 1], d);
      RecordRunStep(fields, d);
    }
  }

  lemma SingleRecordRun(fields: seq<string>, d: char)
    requires d != '"' && |fields| == 1
    ensures var r := Run(Start, EncodeRecord(fields, d), [d]);
      r.fields == [] && r.cell == fields[0] && !r.inQuote
  {
    FieldRun(Start, fields[0], d);
    assert Start.cell + fields[0] == fields[0];
  }

  /** A separator and one more encoded field push the cell read so far and read the field. */
  lemma RecordRunStep(fields: seq<string>, d: char)
    requires d != '"' && |fields| >= 2
    requires var init := fields[..|fields| - 1]; var r := Run(Start, EncodeRecord(init, d), [d]);
      r.fields == init[..|init| - 1] && r.cell == init[|init| - 1] && !r.inQuote
    ensures var r := Run(Start, EncodeRecord(fields, d), [d]);
      r.fields == fields[..|fields| - 1] && r.cell == fields[|fields| - 1] && !r.inQuote
  {
    var last := fields[|fields| - 1];
    var init := fields[..|fields| - 1];
    var head := EncodeRecord(init, d);
    var body := EncodeField(last, d);
    assert EncodeRecord(fields, d) == head + [d] + body;
    var before := Run(Start, head, [d]);
    InitLast(init);
    RunAppend(Start, head, [d], [d]);
    SeparatorRun(before, d);
    var afterSep := Run(Start, head + [d], [d]);
    assert afterSep == Lexer(init, "", false, Some(d));
    RunAppend(Start, head + [d], body, [d]);
    FieldRun(afterSep, last, d);
    assert "" + last == last;
  }

  /** An encoded record never ends in a carriage return, so readRowAt reads all of it. */
  lemma EncodeRecordEnd(fields: seq<string>, d: char)
    requires d != '\r' && |fields| >= 1
    ensures var e := EncodeRecord(fields, d); e == [] || e[|e| - 1] != '\r'
  {
    var last := fields[|fields| - 1];
    if !NeedsQuotes(last, d) && last != [] {
      assert last[|last| - 1] in last;
    }
  }

  /** A separator the tokenizer can use: neither a quote nor a line break. */
  predicate ValidSeparator(d: char) {
    d != '"' && d != '\r' && d != '\n'
  }

  /** readRowAt reads back every record written with Excel's quoting. */
  lemma FieldsOfEncodeRecord(fields: seq<string>, d: char)
    requires ValidSeparator(d) && |fields| >= 1
    ensures Fields(EncodeRecord(fields, d), [d]) == fields
  {
    var e := EncodeRecord(fields, d);
    EncodeRecordEnd(fields, d);
    assert EffectiveLine(e) == e;
    RecordRun(fields, d);
    var r := Run(Start, e, [d]);
    assert Fields(e, [d]) == r.fields + [r.cell];
    InitLast(fields);
  }

  /** The line that shows Excel's escaping reads as five fields. */
  lemma ExcelEscapingExample()
    ensures Fields("12345,COCR,100.93,980," + "\"Transfer, to card \"\"32\"\" **********\"", ",") ==
      ["12345", "COCR", "100.93", "980", "Transfer, to card \"32\" **********"]
  {
    ExampleRecord();
    FieldsOfEncodeRecord(["12345", "COCR", "100.93", "980", "Transfer, to card \"32\" **********"], ',');
  }

  lemma {:induction false} DoubledAppend(a: string, b: string)
    ensures Doubled(a + b) == Doubled(a) + Doubled(b)
  {
    if b != [] {
      var b', c := b[..|b| - 1], b[|b| - 1];
      DoubledAppend(a, b');
      assert (a + b)[..|a + b| - 1] == a + b' && (a + b)[|a + b| - 1] == c;
      Assoc(Doubled(a), Doubled(b'), if c == '"' then "\"\"" else [c]);
    } else {
      assert a + b == a;
    }
  }

  lemma {:induction false} DoubledPlain(f: string)
    requires '"' !in f
    ensures Doubled(f) == f
  {
    if f != [] {
      var init := f[..|f| - 1];
      assert forall k :: 0 <= k < |init| ==> init[k] == f[k];
      DoubledPlain(init);
      assert init + [f[|f| - 1]] == f;
    }
  }

  /**
   * String-literal identities the example proofs use. They are stated as lemmas of their
   * own because proving them inside the larger example lemmas costs the solver far more.
   */
  lemma ExampleFieldText()
    ensures "Transfer, to card " + "\"" + "32" + "\"" + " **********" == "Transfer, to card \"32\" **********"
  {
  }

  lemma ExampleFieldEncoded()
    ensures "\"" + ("Transfer, to card " + "\"\"" + "32" + "\"\"" + " **********") + "\"" == "\"Transfer, to card \"\"32\"\" **********\""
  {
  }

  lemma ExampleLineText()
    ensures "12345,COCR,100.93,980" + [','] == "12345,COCR,100.93,980,"
  {
  }

  lemma ExampleFieldDoubled()
    ensures Doubled("Transfer, to card " + "\"" + "32" + "\"" + " **********") ==
      "Transfer, to card " + "\"\"" + "32" + "\"\"" + " **********"
  {
    DoubledTwoQuotes("Transfer, to card ", "32", " **********");
  }

  /** Doubling a text with two quotes in it doubles just those two. */
  lemma DoubledTwoQuotes(t1: string, t2: string, t3: string)
    requires '"' !in t1 && '"' !in t2 && '"' !in t3
    ensures Doubled(t1 + "\"" + t2 + "\"" + t3) == t1 + "\"\"" + t2 + "\"\"" + t3
  {
    var q: string := "\"";
    DoubledPlain(t1);
    DoubledPlain(t2);
    DoubledPlain(t3);
    assert q[..0] == [];
    DoubledAppend(t1, q);
    DoubledAppend(t1 + q, t2);
    DoubledAppend(t1 + q + t2, q);
    DoubledAppend(t1 + q + t2 + q, t3);
  }

  /** The last field of the example: a separator and two quotes inside. */
  lemma ExampleLastField()
    ensures EncodeField("Transfer, to card \"32\" **********", ',') == "\"Transfer, to card \"\"32\"\" **********\""
  {
    var f: string := "Transfer, to card \"32\" **********";
    assert f[8] == ',';
    ExampleFieldText();
    ExampleFieldDoubled();
    ExampleFieldEncoded();
  }

  lemma EncodeRecordSnoc(fields: seq<string>, f: string, d: char)
    requires |fields| >= 1
    ensures EncodeRecord(fields + [f], d) == EncodeRecord(fields, d) + [d] + EncodeField(f, d)
  {
    assert (fields + [f])[..|fields|] == fields;
  }

  lemma ExampleHead()
    ensures EncodeRecord(["12345", "COCR", "100.93", "980"], ',') == "12345,COCR,100.93,980"
  {
    var f0: string, f1: string, f2: string, f3: string := "12345", "COCR", "100.93", "980";
    assert !NeedsQuotes(f0, ',') && !NeedsQuotes(f1, ',') && !NeedsQuotes(f2, ',') && !NeedsQuotes(f3, ',');
    assert [f0, f1][..1] == [f0];
    assert EncodeRecord([f0, f1], ',') == f0 + [','] + f1;
    assert [f0, f1, f2][..2] == [f0, f1];
    assert EncodeRecord([f0, f1, f2], ',') == f0 + [','] + f1 + [','] + f2;
    assert [f0, f1, f2, f3][..3] == [f0, f1, f2];
    assert EncodeRecord([f0, f1, f2, f3], ',') == f0 + [','] + f1 + [','] + f2 + [','] + f3;
    assert f0 + [','] + f1 == "12345,COCR";
    assert "12345,COCR" + [','] + f2 == "12345,COCR,100.93";
    assert "12345,COCR,100.93" + [','] + f3 == "12345,COCR,100.93,980";
  }

  lemma ExampleRecord()
    ensures EncodeRecord(["12345", "COCR", "100.93", "980", "Transfer, to card \"32\" **********"], ',') ==
      "12345,COCR,100.93,980," + "\"Transfer, to card \"\"32\"\" **********\""
  {
    var head := ["12345", "COCR", "100.93", "980"];
    var f4 := "Transfer, to card \"32\" **********";
    EncodeRecordSnoc(head, f4, ',');
    assert head + [f4] == ["12345", "COCR", "100.93", "980", f4];
    ExampleHead();
    ExampleLastField();
    ExampleLineText();
  }

  /** c is the separator, and is not the quote that readRowAt tests for first. */
  predicate IsSeparatorChar(c: char, separator: string) {
    c != '"' && [c] == separator
  }

  function QuoteCount(s: string): nat {
    if s == [] then 0 else QuoteCount(s[..|s| - 1]) + (if s[|s| - 1] == '"' then 1 else 0)
  }

  /**
   * The separators of s that stand outside quotes: those with an even number of quotes
   * before them. A quote is never a separator, since readRowAt tests for it first.
   */
  function OutsideSeparators(s: string, separator: string): nat {
    if s == [] then 0
    else
      var init := s[..|s| - 1];
      OutsideSeparators(init, separator) + (if IsSeparatorChar(s[|s| - 1], separator) && QuoteCount(init) % 2 == 0 then 1 else 0)
  }

  /** The tokenizer is inside quotes after an odd number of quotes, and pushes one field per separator outside them. */
  lemma {:induction false} RunCounts(s: string, separator: string)
    ensures Run(Start, s, separator).inQuote <==> QuoteCount(s) % 2 == 1
    ensures |Run(Start, s, separator).fields| == OutsideSeparators(s, separator)
  {
    if s != [] {
      var init := s[..|s| - 1];
      var c := s[|s| - 1];
      RunCounts(init, separator);
      var st := Run(Start, init, separator);
      assert Run(Start, s, separator) == Step(st, c, separator);
      assert QuoteCount(s) == QuoteCount(init) + (if c == '"' then 1 else 0);
      assert OutsideSeparators(s, separator) ==
        OutsideSeparators(init, separator) + (if IsSeparatorChar(c, separator) && QuoteCount(init) % 2 == 0 then 1 else 0);
    }
  }

  /** readRowAt returns one field more than there are separators outside quotes. */
  lemma FieldCount(line: string, separator: string)
    ensures |Fields(line, separator)| == OutsideSeparators(EffectiveLine(line), separator) + 1
  {
    RunCounts(EffectiveLine(line), separator);
  }

  /** The lines of a file of records, each written by EncodeRecord. */
  function EncodedLines(records: seq<seq<string>>, d: char): (lines: seq<string>)
    requires forall k :: 0 <= k < |records| ==> |records[k]| >= 1
    ensures |lines| == |records| && forall k :: 0 <= k < |lines| ==> lines[k] == EncodeRecord(records[k], d)
  {
    seq(|records|, k requires 0 <= k < |records| => EncodeRecord(records[k], d))
  }

  /** A file of records: their lines joined by line feeds. */
  function EncodeFile(records: seq<seq<string>>, d: char): string
    requires forall k :: 0 <= k < |records| ==> |records[k]| >= 1
  {
    if records == [] then "" else Join(EncodedLines(records, d), '\n')
  }

  lemma {:induction false} NoNewlineInRecord(fields: seq<string>, d: char)
    requires d != '\n' && |fields| >= 1 && forall j :: 0 <= j < |fields| ==> '\n' !in fields[j]
    ensures '\n' !in EncodeRecord(fields, d)
  {
    var last := fields[|fields| - 1];
    assert '\n' !in EncodeField(last, d);
    if |fields| > 1 {
      var init := fields[..|fields| - 1];
      assert forall j :: 0 <= j < |init| ==> init[j] == fields[j];
      NoNewlineInRecord(init, d);
    }
  }

  /** Only the record of one empty field is written as an empty line. */
  lemma EncodeRecordNonEmpty(fields: seq<string>, d: char)
    requires |fields| >= 1 && fields != [""]
    ensures EncodeRecord(fields, d) != ""
  {
    if |fields| == 1 {
      assert fields[0] != "";
    }
  }

  /**
   * read() splits at every line feed, inside quotes too: a quoted field holding one
   * becomes two lines, the first ending inside the quotes.
   */
  lemma QuotedLineFeedSplits(a: string, b: string)
    requires '\n' !in a && '\n' !in b
    ensures Split("\"" + a + "\n" + b + "\"", '\n') == ["\"" + a, b + "\""]
  {
    var parts := ["\"" + a, b + "\""];
    assert parts[..1] == ["\"" + a];
    assert Join(parts, '\n') == "\"" + a + "\n" + b + "\"";
    SplitJoin(parts, '\n');
  }

  /** Splitting a file of records at line feeds gives back its lines. */
  lemma LinesOfEncodeFile(records: seq<seq<string>>, d: char)
    requires d != '\n' && |records| >= 1
    requires forall k :: 0 <= k < |records| ==> |records[k]| >= 1
    requires forall k, j :: 0 <= k < |records| && 0 <= j < |records[k]| ==> '\n' !in records[k][j]
    ensures Split(EncodeFile(records, d), '\n') == EncodedLines(records, d)
  {
    var encoded := EncodedLines(records, d);
    forall k | 0 <= k < |encoded|
      ensures '\n' !in encoded[k]
    {
      NoNewlineInRecord(records[k], d);
    }
    SplitJoin(encoded, '\n');
  }

  /**
   * readAllRows without trimming reads back every file of records written with Excel's
   * quoting and line feeds, as long as no field holds a line feed and no record is a
   * single empty field (whose empty line would end the table).
   */
  lemma CsvRoundTrip(records: seq<seq<string>>, d: char)
    requires ValidSeparator(d)
    requires forall k :: 0 <= k < |records| ==> |records[k]| >= 1 && records[k] != [""]
    requires forall k, j :: 0 <= k < |records| && 0 <= j < |records[k]| ==> '\n' !in records[k][j]
    ensures var source := CsvSource(Some(Split(EncodeFile(records, d), '\n')), [d]);
      && Stops(source)
      && TableOf(source, false, false) == Ok(seq(|records|, k requires 0 <= k < |records| => TextRow(records[k])))
  {
    var lines := Split(EncodeFile(records, d), '\n');
    var source := CsvSource(Some(lines), [d]);
    var rows := seq(|records|, k requires 0 <= k < |records| => TextRow(records[k]));
    if records == [] {
      assert lines == [""];
    } else {
      LinesOfEncodeFile(records, d);
      forall k | 0 <= k < |records|
        ensures source(k) == Got(rows[k])
      {
        EncodeRecordNonEmpty(records[k], d);
        FieldsOfEncodeRecord(records[k], d);
      }
    }
    TableOfRows(source, rows, false);
  }

  /** A CSV file; `lines` is None until read() has split it. */
  class CsvReader {
    const file: string
    const separator: string
    var lines: Option<seq<string>>

    constructor(file: string, separator: string)
      ensures this.file == file && this.separator == separator && lines == None
    {
      this.file := file;
      this.separator := separator;
      lines := None;
    }

    /** read(): the lines of the file, split at line feeds. */
    method Read()
      modifies this
      ensures lines == Some(Split(file, '\n'))
    {
      lines := Some(Split(file, '\n'));
    }

    /** readRowAt(i): tokenizes line i character by character. */
    method ReadRowAt(i: nat) returns (r: RowRead)
      ensures r == CsvRowAt(lines, separator, i)
    {
      if lines.None? {
        return Failed(LinesNotRead);
      }
      var ls := lines.value;
      if i >= |ls| || ls[i] == "" {
        return EndOfRows;
      }
      var row := ls[i];
      ghost var line := EffectiveLine(row);
      assert line == row[..|line|] && |line| >= |row| - 1;
      var rowArray: seq<string> := [];
      var cell: string := "";
      var inQuote := false;
      var j := 0;
      while j < |row|
        invariant 0 <= j <= |row|
        invariant Run(Start, line[..Min(j, |line|)], separator) ==
          Lexer(rowArray, cell, inQuote, if Min(j, |line|) == 0 then None else Some(line[Min(j, |line|) - 1]))
      {
        var c := row[j];
        if j == |row| - 1 && c == '\r' {
          j := j + 1;
          continue;
        }
        assert j < |line| && line[j] == c;
        assert line[..j + 1][..j] == line[..j];
        if c == '"' {
          inQuote := !inQuote;
          if inQuote && j > 0 && row[j - 1] == '"' {
            cell := cell + ['"'];
          }
        } else if [c] == separator && !inQuote {
          rowArray := rowArray + [cell];
          cell := "";
        } else {
          cell := cell + [c];
        }
        j := j + 1;
      }
      assert line[..Min(j, |line|)] == line;
      rowArray := rowArray + [cell];
      r := Got(TextRow(rowArray));
    }

    /** readAllRows(trimTable, ignoreRogueSpaces): the shared reader over the lines. */
    method ReadAllRows(trimTable: bool, ignoreRogueSpaces: bool) returns (r: Result<seq<Row>, Error>)
      ensures Stops(CsvSource(lines, separator))
      ensures r == TableOf(CsvSource(lines, separator), trimTable, ignoreRogueSpaces)
    {
      CsvStops(lines, separator);
      r := RowTrimming.ReadAllRows(CsvSource(lines, separator), trimTable, ignoreRogueSpaces);
    }
  }
}
