/** CSV export: field escaping (`csvEscape`) and the document `exportCSV`
    builds. The quoting follows rules 6 and 7 of section 2 of RFC 4180,
    while lines are separated by a bare line feed rather than CRLF. A
    reader for that dialect is defined here only as the partner of the
    export: reading the exported text gives back the header and, for each
    record, its eight fields. */
module Csv {
  import opened Text
  import opened Records

  /** The characters that force a field into quotes. */
  predicate NeedsQuotes(v: string) {
    '"' in v || ',' in v || '\n' in v
  }

  /** `String(value).replace(/"/g, '""')`. */
  function DoubleQuotes(v: string): (r: string)
    ensures '"' !in v ==> r == v
    ensures ',' !in v ==> ',' !in r
    ensures '\n' !in v ==> '\n' !in r
    decreases |v|
  {
    if v == [] then []
    else (if v[0] == '"' then "\"\"" else [v[0]]) + DoubleQuotes(v[1..])
  }

  /** Regrouping a concatenation; stated apart so that the three strings
      stay abstract rather than calls of `DoubleQuotes`. */
  lemma ConcatAssoc(x: string, y: string, z: string)
    ensures x + (y + z) == x + y + z
  {
  }

  /** Quote doubling works character by character, so it distributes over
      concatenation. */
  lemma {:induction false} DoubleQuotesAppend(a: string, b: string)
    ensures DoubleQuotes(a + b) == DoubleQuotes(a) + DoubleQuotes(b)
    decreases |a|
  {
    if a != [] {
      var h: string := if a[0] == '"' then ['"', '"'] else [a[0]];
      assert (a + b)[0] == a[0] && (a + b)[1..] == a[1..] + b;
      DoubleQuotesCons(a + b);
      DoubleQuotesCons(a);
      DoubleQuotesAppend(a[1..], b);
      ConcatAssoc(h, DoubleQuotes(a[1..]), DoubleQuotes(b));
    } else {
      assert a + b == b;
    }
  }

  /** `csvEscape`: a field without a quote, comma or line feed is written
      as is; any other field is wrapped in quotes with its own quotes
      doubled. */
  function Escape(v: string): (r: string)
    ensures !NeedsQuotes(v) ==> r == v
    ensures NeedsQuotes(v) ==> |r| >= 2 && r[0] == '"' && r[|r| - 1] == '"'
  {
    var doubled := DoubleQuotes(v);
    if NeedsQuotes(v) then "\"" + doubled + "\"" else doubled
  }

  function EscapeAll(fields: seq<string>): (r: seq<string>)
    ensures |r| == |fields|
    ensures forall k :: 0 <= k < |fields| ==> r[k] == Escape(fields[k])
  {
    seq(|fields|, k requires 0 <= k < |fields| => Escape(fields[k]))
  }

  /** One CSV line: the escaped fields separated by commas. */
  function Row(fields: seq<string>): string {
    Join(EscapeAll(fields), ",")
  }

  const Headers: seq<string> := [
    "id", "createdAt", "businessName", "contactName", "contactInfo",
    "pictureTitle", "pictureDescription", "tags"]

  /** `headers.join(',')`. */
  const HeaderLine: string := Join(Headers, ",")

  /** The eight exported columns of a record, tags joined with "; ". */
  function Fields(item: Item): (r: seq<string>)
    ensures |r| == |Headers|
  {
    [item.id, item.createdAt, item.businessName, item.contactName, item.contactInfo,
     item.pictureTitle, item.pictureDescription, Join(item.tags, "; ")]
  }

  function Rows(items: seq<Item>): (r: seq<string>)
    ensures |r| == |items|
    ensures forall k :: 0 <= k < |items| ==> r[k] == Row(Fields(items[k]))
  {
    seq(|items|, k requires 0 <= k < |items| => Row(Fields(items[k])))
  }

  /** `exportCSV`: the header line, then one line per record in catalogue
      order, joined with line feeds. */
  function ExportCsv(items: seq<Item>): (r: string)
    ensures |r| >= |HeaderLine| && r[..|HeaderLine|] == HeaderLine
    ensures items == [] <==> r == HeaderLine
  {
    var lines := [HeaderLine] + Rows(items);
    assert lines[1..] == Rows(items);
    Join(lines, "\n")
  }

  // A reader for the exported dialect.

  /** Reads the body of a quoted field, just after its opening quote, up to
      the closing quote; a doubled quote stands for one quote. Returns the
      value and the text after the closing quote. */
  function ReadQuoted(s: string): (r: (string, string))
    ensures |r.1| <= |s|
    decreases |s|
  {
    if s == [] then ([], [])
    else if s[0] == '"' then
      if |s| >= 2 && s[1] == '"' then
        var p := ReadQuoted(s[2..]);
        (['"'] + p.0, p.1)
      else ([], s[1..])
    else
      var p := ReadQuoted(s[1..]);
      ([s[0]] + p.0, p.1)
  }

  /** Reads an unquoted field up to the next comma or line feed. */
  function ReadBare(s: string): (r: (string, string))
    ensures |r.1| <= |s|
    decreases |s|
  {
    if s == [] || s[0] == ',' || s[0] == '\n' then ([], s)
    else
      var p := ReadBare(s[1..]);
      ([s[0]] + p.0, p.1)
  }

  function ReadField(s: string): (r: (string, string))
    ensures |r.1| <= |s|
  {
    if s != [] && s[0] == '"' then ReadQuoted(s[1..]) else ReadBare(s)
  }

  /** Reads comma-separated fields up to a line feed or the end. */
  function ReadRecord(s: string): (r: (seq<string>, string))
    ensures |r.1| <= |s|
    decreases |s|
  {
    var p := ReadField(s);
    if p.1 != [] && p.1[0] == ',' then
      var q := ReadRecord(p.1[1..]);
      ([p.0] + q.0, q.1)
    else ([p.0], p.1)
  }

  /** Reads line-feed-separated records to the end of the text. */
  function ReadDocument(s: string): seq<seq<string>>
    decreases |s|
  {
    var p := ReadRecord(s);
    if p.1 != [] && p.1[0] == '\n' then [p.0] + ReadDocument(p.1[1..]) else [p.0]
  }

  /** What may follow a field: nothing, a comma or a line feed. */
  predicate FieldEnd(tail: string) {
    tail == [] || tail[0] == ',' || tail[0] == '\n'
  }

  lemma ReadQuotedPlainChar(c: char, rest: string)
    requires c != '"'
    ensures ReadQuoted([c] + rest) == ([c] + ReadQuoted(rest).0, ReadQuoted(rest).1)
  {
    assert ([c] + rest)[1..] == rest;
  }

  lemma ReadQuotedPair(rest: string)
    ensures ReadQuoted(['"', '"'] + rest) == (['"'] + ReadQuoted(rest).0, ReadQuoted(rest).1)
  {
    assert (['"', '"'] + rest)[2..] == rest;
  }

  lemma ReadQuotedClose(tail: string)
    requires tail == [] || tail[0] != '"'
    ensures ReadQuoted(['"'] + tail) == ([], tail)
  {
    assert (['"'] + tail)[1..] == tail;
  }

  lemma DoubleQuotesCons(v: string)
    requires v != []
    ensures DoubleQuotes(v) == (if v[0] == '"' then ['"', '"'] else [v[0]]) + DoubleQuotes(v[1..])
  {
  }

  /** One step of reading a doubled value: the first character's encoding
      is consumed and the rest is read as before. */
  lemma DoubledHead(v: string, tail: string)
    requires v != []
    ensures DoubleQuotes(v) + ['"'] + tail ==
      (if v[0] == '"' then ['"', '"'] else [v[0]]) + (DoubleQuotes(v[1..]) + ['"'] + tail)
  {
    DoubleQuotesCons(v);
  }

  lemma ReadQuotedDoubledStep(v: string, tail: string)
    requires v != []
    requires ReadQuoted(DoubleQuotes(v[1..]) + ['"'] + tail) == (v[1..], tail)
    ensures ReadQuoted(DoubleQuotes(v) + ['"'] + tail) == (v, tail)
  {
    var rest := DoubleQuotes(v[1..]) + ['"'] + tail;
    DoubledHead(v, tail);
    if v[0] == '"' {
      ReadQuotedPair(rest);
    } else {
      ReadQuotedPlainChar(v[0], rest);
    }
    assert v == [v[0]] + v[1..];
  }

  lemma {:induction false} ReadQuotedDoubled(v: string, tail: string)
    requires tail == [] || tail[0] != '"'
    ensures ReadQuoted(DoubleQuotes(v) + ['"'] + tail) == (v, tail)
    decreases |v|
  {
    if v == [] {
      assert DoubleQuotes(v) + ['"'] + tail == ['"'] + tail;
      ReadQuotedClose(tail);
    } else {
      ReadQuotedDoubled(v[1..], tail);
      ReadQuotedDoubledStep(v, tail);
    }
  }

  lemma {:induction false} ReadBarePlain(v: string, tail: string)
    requires ',' !in v && '\n' !in v
    requires FieldEnd(tail)
    ensures ReadBare(v + tail) == (v, tail)
    decreases |v|
  {
    if v == [] {
      assert v + tail == tail;
    } else {
      ReadBarePlain(v[1..], tail);
      assert (v + tail)[1..] == v[1..] + tail;
      assert v == [v[0]] + v[1..];
    }
  }

  lemma ReadFieldQuoted(body: string)
    ensures ReadField(['"'] + body) == ReadQuoted(body)
  {
    assert (['"'] + body)[1..] == body;
  }

  lemma EscapeQuotedShape(v: string, tail: string)
    requires NeedsQuotes(v)
    ensures Escape(v) + tail == ['"'] + (DoubleQuotes(v) + ['"'] + tail)
  {
  }

  /** Reading an escaped field gives back the original value and stops
      exactly at the end of the escaped text. */
  lemma EscapeRoundTrip(v: string, tail: string)
    requires FieldEnd(tail)
    ensures ReadField(Escape(v) + tail) == (v, tail)
  {
    if NeedsQuotes(v) {
      EscapeQuotedShape(v, tail);
      ReadFieldQuoted(DoubleQuotes(v) + ['"'] + tail);
      ReadQuotedDoubled(v, tail);
    } else {
      ReadBarePlain(v, tail);
      if v != [] {
        assert v[0] in v;
      }
    }
  }

  /** A field with two quotes, the second followed by a comma. */
  lemma EscapeTwoQuotes(a: string, b: string, c: string)
    requires '"' !in a && '"' !in b && '"' !in c
    ensures Escape(a + "\"" + b + "\"" + c) == "\"" + (a + "\"\"" + b + "\"\"" + c) + "\""
  {
    var q: string := "\"";
    var v := a + q + b + q + c;
    DoubleQuotesAppend(a + q + b + q, c);
    DoubleQuotesAppend(a + q + b, q);
    DoubleQuotesAppend(a + q, b);
    DoubleQuotesAppend(a, q);
    DoubleQuotesCons(q);
    assert q[1..] == [];
    assert DoubleQuotes(q) == "\"\"";
    assert DoubleQuotes(v) == a + "\"\"" + b + "\"\"" + c;
    assert '"' in v by {
      assert v[|a|] == '"';
    }
  }

  /** `csvEscape` of `He said "hi", then left`: the field is quoted and its
      quotes are doubled. */
  lemma EscapeExample()
    ensures Escape("He said \"hi\", then left") == "\"He said \"\"hi\"\", then left\""
  {
    var a, b, c := "He said ", "hi", ", then left";
    assert "He said \"hi\", then left" == a + "\"" + b + "\"" + c;
    assert "\"He said \"\"hi\"\", then left\"" == "\"" + (a + "\"\"" + b + "\"\"" + c) + "\"";
    EscapeTwoQuotes(a, b, c);
  }

  lemma RowCons(fields: seq<string>)
    requires |fields| >= 2
    ensures Row(fields) == Escape(fields[0]) + "," + Row(fields[1..])
  {
    assert EscapeAll(fields)[1..] == EscapeAll(fields[1..]);
  }

  /** A record is read field by field: after the first field and its comma
      the rest of the line is read as a record of its own. */
  lemma ReadRecordCons(s: string, v: string, after: string)
    requires ReadField(s) == (v, "," + after)
    ensures ReadRecord(s) == ([v] + ReadRecord(after).0, ReadRecord(after).1)
  {
    assert ("," + after)[1..] == after;
  }

  /** Regrouping a field, its comma and the rest of the line; stated apart
      so that the field and the rest stay abstract strings. */
  lemma JoinTail(e: string, r: string, tail: string)
    ensures e + "," + r + tail == e + ("," + (r + tail))
  {
  }

  lemma RowRoundTripStep(fields: seq<string>, tail: string)
    requires |fields| >= 2
    requires ReadRecord(Row(fields[1..]) + tail) == (fields[1..], tail)
    ensures ReadRecord(Row(fields) + tail) == (fields, tail)
  {
    var e := Escape(fields[0]);
    var r := Row(fields[1..]);
    var after := r + tail;
    RowCons(fields);
    JoinTail(e, r, tail);
    EscapeRoundTrip(fields[0], "," + after);
    ReadRecordCons(Row(fields) + tail, fields[0], after);
    assert fields == [fields[0]] + fields[1..];
  }

  lemma {:induction false} RowRoundTrip(fields: seq<string>, tail: string)
    requires |fields| >= 1
    requires tail == [] || tail[0] == '\n'
    ensures ReadRecord(Row(fields) + tail) == (fields, tail)
    decreases |fields|
  {
    if |fields| == 1 {
      assert Row(fields) == Escape(fields[0]);
      EscapeRoundTrip(fields[0], tail);
      assert fields == [fields[0]];
    } else {
      RowRoundTrip(fields[1..], tail);
      RowRoundTripStep(fields, tail);
    }
  }

  function RowsOf(records: seq<seq<string>>): (r: seq<string>)
    ensures |r| == |records|
    ensures forall k :: 0 <= k < |records| ==> r[k] == Row(records[k])
  {
    seq(|records|, k requires 0 <= k < |records| => Row(records[k]))
  }

  lemma JoinLinesCons(records: seq<seq<string>>)
    requires |records| >= 2
    ensures Join(RowsOf(records), "\n") == Row(records[0]) + ("\n" + Join(RowsOf(records[1..]), "\n"))
  {
    assert RowsOf(records)[1..] == RowsOf(records[1..]);
  }

  lemma ReadDocumentCons(s: string, rec: seq<string>, after: string)
    requires ReadRecord(s) == (rec, "\n" + after)
    ensures ReadDocument(s) == [rec] + ReadDocument(after)
  {
    assert ("\n" + after)[1..] == after;
  }

  lemma DocumentRoundTripStep(records: seq<seq<string>>)
    requires |records| >= 2 && |records[0]| >= 1
    requires ReadDocument(Join(RowsOf(records[1..]), "\n")) == records[1..]
    ensures ReadDocument(Join(RowsOf(records), "\n")) == records
  {
    var after := Join(RowsOf(records[1..]), "\n");
    JoinLinesCons(records);
    RowRoundTrip(records[0], "\n" + after);
    ReadDocumentCons(Join(RowsOf(records), "\n"), records[0], after);
    assert records == [records[0]] + records[1..];
  }

  lemma {:induction false} DocumentRoundTrip(records: seq<seq<string>>)
    requires |records| >= 1
    requires forall k :: 0 <= k < |records| ==> |records[k]| >= 1
    ensures ReadDocument(Join(RowsOf(records), "\n")) == records
    decreases |records|
  {
    if |records| == 1 {
      RowRoundTrip(records[0], []);
      assert Row(records[0]) + [] == Row(records[0]);
      assert Join(RowsOf(records), "\n") == Row(records[0]);
      assert records == [records[0]];
    } else {
      DocumentRoundTrip(records[1..]);
      DocumentRoundTripStep(records);
    }
  }

  lemma RowOfPlainFields(fields: seq<string>)
    requires forall k :: 0 <= k < |fields| ==> !NeedsQuotes(fields[k])
    ensures Row(fields) == Join(fields, ",")
  {
    assert EscapeAll(fields) == fields;
  }

  lemma HeaderLineIsRow()
    ensures Row(Headers) == HeaderLine
  {
    assert forall k :: 0 <= k < |Headers| ==> !NeedsQuotes(Headers[k]);
    RowOfPlainFields(Headers);
  }

  /** Each record's eight columns, in catalogue order. */
  function FieldsOf(items: seq<Item>): (r: seq<seq<string>>)
    ensures |r| == |items|
    ensures forall k :: 0 <= k < |items| ==> r[k] == Fields(items[k])
  {
    seq(|items|, k requires 0 <= k < |items| => Fields(items[k]))
  }

  /** The header and each record's columns, as the export lays them out. */
  function ExportRecords(items: seq<Item>): (r: seq<seq<string>>)
    ensures |r| == |items| + 1 && r[0] == Headers
    ensures forall k :: 0 <= k < |items| ==> r[k + 1] == Fields(items[k])
    ensures forall k :: 0 <= k < |r| ==> |r[k]| == |Headers|
  {
    [Headers] + FieldsOf(items)
  }

  lemma RowsOfCons(h: seq<string>, rest: seq<seq<string>>)
    ensures RowsOf([h] + rest) == [Row(h)] + RowsOf(rest)
  {
    assert ([h] + rest)[1..] == rest;
  }

  lemma RowsOfFields(items: seq<Item>)
    ensures RowsOf(FieldsOf(items)) == Rows(items)
  {
  }

  lemma RowsOfExportRecords(items: seq<Item>)
    ensures RowsOf(ExportRecords(items)) == [HeaderLine] + Rows(items)
  {
    RowsOfCons(Headers, FieldsOf(items));
    RowsOfFields(items);
    HeaderLineIsRow();
  }

  lemma ExportIsDocument(items: seq<Item>)
    ensures ExportCsv(items) == Join(RowsOf(ExportRecords(items)), "\n")
  {
    RowsOfExportRecords(items);
  }

  /** Reading the export back yields the eight column names, then for each
      record, in catalogue order, its id, creation time, five text fields
      and tags joined with "; ". */
  lemma ExportRoundTrip(items: seq<Item>)
    ensures |ReadDocument(ExportCsv(items))| == |items| + 1
    ensures ReadDocument(ExportCsv(items))[0] == Headers
    ensures forall k :: 0 <= k < |items| ==>
      ReadDocument(ExportCsv(items))[k + 1] ==
        [items[k].id, items[k].createdAt, items[k].businessName, items[k].contactName,
         items[k].contactInfo, items[k].pictureTitle, items[k].pictureDescription,
         Join(items[k].tags, "; ")]
  {
    var records := ExportRecords(items);
    ExportIsDocument(items);
    DocumentRoundTrip(records);
    assert ReadDocument(ExportCsv(items)) == records;
  }
}
