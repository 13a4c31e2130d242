/** The fingerprint store: records kept in a per-type CSV file and a per-type JSON file
    under a data directory, the line-oriented readers of both, and the reduction to the
    latest fingerprint per (type, host, port). The file system is a map from path to
    contents; a missing path is a file that does not exist. */
module FingerprintCommon {
  import opened Wrappers
  import opened Text
  import opened Utils
  import opened KeyOrder

  /** FingerprintRecord; the record's type is the field kind. */
  datatype FingerprintRecord = FingerprintRecord(
    timestamp: string,
    kind: string,
    host: string,
    port: int,
    fingerprint: string)

  /** A value-initialised FingerprintRecord(): empty strings, port 0. */
  const BlankRecord := FingerprintRecord("", "", "", 0, "")

  function KeyOf(r: FingerprintRecord): Key
  {
    (r.kind, r.host, r.port)
  }

  type FileSystem = map<string, string>

  // ---------------------------------------------------------------- lines of a file

  /** The lines std::getline reads from a file's contents. */
  function Lines(content: string): seq<string>
  {
    GetlineSplit(content, '\n')
  }

  /** A file written line by line, each line ended by '\n'. */
  function Unlines(ls: seq<string>): string
  {
    if ls == [] then "" else Unlines(ls[..|ls| - 1]) + ls[|ls| - 1] + "\n"
  }

  predicate NoNewline(ls: seq<string>)
  {
    forall k :: 0 <= k < |ls| ==> '\n' !in ls[k]
  }

  lemma {:induction false} UnlinesJoin(ls: seq<string>)
    requires ls != []
    ensures Unlines(ls) == JoinWith(ls, '\n') + "\n"
    decreases |ls|
  {
    if |ls| > 1 {
      UnlinesJoin(ls[..|ls| - 1]);
    } else {
      assert ls[..0] == [];
    }
  }

  lemma {:induction false} UnlinesAppend(a: seq<string>, b: seq<string>)
    ensures Unlines(a + b) == Unlines(a) + Unlines(b)
    decreases |b|
  {
    if b == [] {
      assert a + b == a;
    } else {
      var b' := b[..|b| - 1];
      assert (a + b)[..|a + b| - 1] == a + b';
      UnlinesAppend(a, b');
    }
  }

  /** Reading back a file written line by line gives its lines. */
  lemma {:induction false} LinesOfUnlines(ls: seq<string>)
    requires NoNewline(ls)
    ensures Lines(Unlines(ls)) == ls
  {
    if ls != [] {
      UnlinesJoin(ls);
      SplitJoin(ls, '\n');
      SplitAllAppend(JoinWith(ls, '\n'), "", '\n');
      assert JoinWith(ls, '\n') + "\n" == JoinWith(ls, '\n') + ['\n'] + "";
      assert (ls + [""])[..|ls|] == ls;
    }
  }

  // ---------------------------------------------------------------- CSVReader::read_all

  const CsvHeader := "timestamp,type,host,port,fingerprint"

  /** One data line: at least five comma-separated tokens and a port std::stoi accepts. */
  function CsvRow(line: string): Option<FingerprintRecord>
  {
    if line == "" then None
    else
      var tokens := GetlineSplit(line, ',');
      if |tokens| < 5 then None
      else match Stoi(tokens[3])
        case None => None
        case Some(port) => Some(FingerprintRecord(tokens[0], tokens[1], tokens[2], port, tokens[4]))
  }

  function OptionToSeq<T>(o: Option<T>): seq<T>
  {
    match o case Some(x) => [x] case None => []
  }

  /** The records of the data lines, in file order. */
  function CsvRows(lines: seq<string>): seq<FingerprintRecord>
    decreases |lines|
  {
    if lines == [] then []
    else CsvRows(lines[..|lines| - 1]) + OptionToSeq(CsvRow(lines[|lines| - 1]))
  }

  /** read_all: the first line is the header and is skipped whatever it holds. */
  function CsvRecords(lines: seq<string>): seq<FingerprintRecord>
  {
    if lines == [] then [] else CsvRows(lines[1..])
  }

  /** CSVReader::read_all, with its first_line flag. */
  method CsvReadAll(lines: seq<string>) returns (records: seq<FingerprintRecord>)
    ensures records == CsvRecords(lines)
  {
    records := [];
    var firstLine := true;
    for i := 0 to |lines|
      invariant firstLine <==> i == 0
      invariant records == CsvRecords(lines[..i])
    {
      var line := lines[i];
      Text.TakeSnoc(lines, i);
      if firstLine {
        firstLine := false;
      } else {
        CsvRecordsSnoc(lines[..i], line);
        if line == "" {
          assert CsvRow(line) == None;
        } else {
          var tokens := Split(line, ',');
          if |tokens| < 5 {
            assert CsvRow(line) == None;
          } else {
            var port := Stoi(tokens[3]);
            if port.Some? {
              var record := FingerprintRecord(tokens[0], tokens[1], tokens[2], port.value, tokens[4]);
              assert CsvRow(line) == Some(record);
              records := records + [record];
            } else {
              assert CsvRow(line) == None;
            }
          }
        }
      }
    }
    assert lines[..|lines|] == lines;
  }

  /** One more line read after the header. */
  lemma {:induction false} CsvRecordsSnoc(ls: seq<string>, line: string)
    requires ls != []
    ensures CsvRecords(ls + [line]) == CsvRecords(ls) + OptionToSeq(CsvRow(line))
  {
    assert (ls + [line])[1..] == ls[1..] + [line];
    assert (ls[1..] + [line])[..|ls| - 1] == ls[1..];
  }

  /** A CSV field the writer emits unescaped: no ',' and no line break. */
  predicate CsvField(s: string) { ',' !in s && '\n' !in s }

  predicate CsvWritable(r: FingerprintRecord)
  {
    CsvField(r.timestamp) && CsvField(r.kind) && CsvField(r.host) && CsvField(r.fingerprint) &&
    r.fingerprint != "" && Int32Min <= r.port <= Int32Max
  }

  /** The line CSVWriter::write_record emits for a record (without its '\n'). */
  function CsvLine(r: FingerprintRecord): string
  {
    r.timestamp + "," + r.kind + "," + r.host + "," + IntToString(r.port) + "," + r.fingerprint
  }

  /** Every FingerprintStorage::save constructs a fresh CSVWriter, whose header_written
      starts false: the header precedes every row of the file. */
  function SavedCsvLines(rs: seq<FingerprintRecord>): (r: seq<string>)
    ensures |r| == 2 * |rs|
  {
    if rs == [] then [] else SavedCsvLines(rs[..|rs| - 1]) + [CsvHeader, CsvLine(rs[|rs| - 1])]
  }

  /** Five fields joined with ','. */
  lemma {:induction false} JoinFive(a: string, b: string, c: string, d: string, e: string)
    ensures JoinWith([a, b, c, d, e], ',') == a + "," + b + "," + c + "," + d + "," + e
  {
    JoinWithSnoc([a], b, ',');
    assert [a] + [b] == [a, b];
    JoinWithSnoc([a, b], c, ',');
    assert [a, b] + [c] == [a, b, c];
    JoinWithSnoc([a, b, c], d, ',');
    assert [a, b, c] + [d] == [a, b, c, d];
    JoinWithSnoc([a, b, c, d], e, ',');
    assert [a, b, c, d] + [e] == [a, b, c, d, e];
  }

  lemma {:induction false} CsvRowOfLine(r: FingerprintRecord)
    requires CsvWritable(r)
    ensures CsvRow(CsvLine(r)) == Some(r)
  {
    var p := IntToString(r.port);
    var parts := [r.timestamp, r.kind, r.host, p, r.fingerprint];
    assert ',' !in p by {
      assert forall k :: 0 <= k < |p| ==> p[k] == '-' || IsDigit(p[k]);
    }
    JoinFive(r.timestamp, r.kind, r.host, p, r.fingerprint);
    SplitJoin(parts, ',');
    StoiIntToString(r.port);
  }

  /** A line whose fourth field has no digit is dropped. */
  lemma {:induction false} CsvRowRejectsPort(a: string, b: string, c: string, d: string, e: string)
    requires ',' !in a && ',' !in b && ',' !in c && ',' !in d && ',' !in e
    requires forall k :: 0 <= k < |d| ==> !IsDigit(d[k])
    ensures CsvRow(a + "," + b + "," + c + "," + d + "," + e) == None
  {
    JoinFive(a, b, c, d, e);
    SplitJoin([a, b, c, d, e], ',');
    StoiNeedsADigit(d);
  }

  /** The header line is dropped wherever it appears: its port token "port" has no digit. */
  lemma {:induction false} CsvRowOfHeader()
    ensures CsvRow(CsvHeader) == None
  {
    assert CsvHeader == "timestamp" + "," + "type" + "," + "host" + "," + "port" + "," + "fingerprint";
    CsvRowRejectsPort("timestamp", "type", "host", "port", "fingerprint");
  }

  /** One save appends a header and a row; only the row yields a record. */
  lemma {:induction false} CsvRowsOfSave(r: FingerprintRecord)
    requires CsvWritable(r)
    ensures CsvRows([CsvHeader, CsvLine(r)]) == [r]
  {
    CsvRowOfHeader();
    CsvRowOfLine(r);
    var ls := [CsvHeader, CsvLine(r)];
    assert ls[..1] == [CsvHeader] && ls[1] == CsvLine(r);
    assert [CsvHeader][..0] == [];
    assert CsvRows([CsvHeader]) == [];
  }

  /** A CSV file built by saving records one by one reads back as those records: the
      repeated header lines are rejected by the port check, the first by first_line. */
  lemma {:induction false} CsvSavedRoundTrip(rs: seq<FingerprintRecord>)
    requires forall k :: 0 <= k < |rs| ==> CsvWritable(rs[k])
    ensures CsvRecords(SavedCsvLines(rs)) == rs
  {
    if rs != [] {
      CsvRecordsOfSaved(rs);
      CsvRowsOfOneLine(rs[0]);
      CsvWritableParts(rs);
      CsvRowsSaved(rs[1..]);
      HeadRest(rs);
    }
  }

  /** Records that can all be written stay so without their first or their last. */
  lemma {:induction false} CsvWritableParts(rs: seq<FingerprintRecord>)
    requires rs != [] && forall k :: 0 <= k < |rs| ==> CsvWritable(rs[k])
    ensures forall k :: 0 <= k < |rs| - 1 ==> CsvWritable(rs[1..][k]) && CsvWritable(rs[..|rs| - 1][k])
  {
    forall k | 0 <= k < |rs| - 1
      ensures CsvWritable(rs[1..][k]) && CsvWritable(rs[..|rs| - 1][k])
    {
      assert rs[1..][k] == rs[k + 1] && rs[..|rs| - 1][k] == rs[k];
    }
  }

  /** Past the first header, saved lines are the first row and then the later saves. */
  lemma {:induction false} CsvRecordsOfSaved(rs: seq<FingerprintRecord>)
    requires rs != []
    ensures CsvRecords(SavedCsvLines(rs)) == CsvRows([CsvLine(rs[0])]) + CsvRows(SavedCsvLines(rs[1..]))
  {
    SavedCsvLinesCons(rs);
    CsvRowsAppend([CsvLine(rs[0])], SavedCsvLines(rs[1..]));
  }

  lemma {:induction false} SavedCsvLinesCons(rs: seq<FingerprintRecord>)
    requires rs != []
    ensures SavedCsvLines(rs)[1..] == [CsvLine(rs[0])] + SavedCsvLines(rs[1..])
  {
    assert rs == [rs[0]] + rs[1..];
    SavedCsvLinesAppend([rs[0]], rs[1..]);
    assert [rs[0]][..0] == [];
  }

  lemma {:induction false} CsvRowsOfOneLine(r: FingerprintRecord)
    requires CsvWritable(r)
    ensures CsvRows([CsvLine(r)]) == [r]
  {
    CsvRowOfLine(r);
    assert [CsvLine(r)][..0] == [];
  }

  lemma {:induction false} SavedCsvLinesAppend(a: seq<FingerprintRecord>, b: seq<FingerprintRecord>)
    ensures SavedCsvLines(a + b) == SavedCsvLines(a) + SavedCsvLines(b)
    decreases |b|
  {
    if b == [] {
      assert a + b == a;
    } else {
      var b' := b[..|b| - 1];
      assert (a + b)[..|a + b| - 1] == a + b';
      SavedCsvLinesAppend(a, b');
    }
  }

  lemma {:induction false} CsvRowsAppend(a: seq<string>, b: seq<string>)
    ensures CsvRows(a + b) == CsvRows(a) + CsvRows(b)
    decreases |b|
  {
    if b == [] {
      assert a + b == a;
    } else {
      var b' := b[..|b| - 1];
      assert (a + b)[..|a + b| - 1] == a + b';
      CsvRowsAppend(a, b');
    }
  }

  /** Every header-then-row pair of saved lines contributes its record. */
  lemma {:induction false} CsvRowsSaved(rs: seq<FingerprintRecord>)
    requires forall k :: 0 <= k < |rs| ==> CsvWritable(rs[k])
    ensures CsvRows(SavedCsvLines(rs)) == rs
    decreases |rs|
  {
    if rs != [] {
      CsvWritableParts(rs);
      CsvRowsSaved(rs[..|rs| - 1]);
      CsvRowsSavedStep(rs);
    }
  }

  /** The last save adds its record after those of the earlier saves. */
  lemma {:induction false} CsvRowsSavedStep(rs: seq<FingerprintRecord>)
    requires rs != [] && CsvWritable(rs[|rs| - 1])
    requires CsvRows(SavedCsvLines(rs[..|rs| - 1])) == rs[..|rs| - 1]
    ensures CsvRows(SavedCsvLines(rs)) == rs
  {
    CsvRowsOfLastSave(rs);
    InitLast(rs);
  }

  /** The rows of saved lines are those of the earlier saves, then those of the last. */
  lemma {:induction false} CsvRowsOfLastSave(rs: seq<FingerprintRecord>)
    requires rs != [] && CsvWritable(rs[|rs| - 1])
    ensures CsvRows(SavedCsvLines(rs)) == CsvRows(SavedCsvLines(rs[..|rs| - 1])) + [rs[|rs| - 1]]
  {
    CsvRowsAppend(SavedCsvLines(rs[..|rs| - 1]), [CsvHeader, CsvLine(rs[|rs| - 1])]);
    CsvRowsOfSave(rs[|rs| - 1]);
  }

  // ---------------------------------------------------------------- JSONWriter::read_all

  /** The reader's state between lines: the records pushed so far, the record being
      filled and whether a record is open. */
  datatype JsonState = JsonState(records: seq<FingerprintRecord>, record: FingerprintRecord, inRecord: bool)

  const JsonStart := JsonState([], BlankRecord, false)

  function DropTrailingComma(v: string): (r: string)
    ensures r == v || (v == r + [','])
  {
    if v != [] && v[|v| - 1] == ',' then v[..|v| - 1] else v
  }

  /** The surrounding '"' pair removed when the value both begins and ends with '"'; a
      lone '"' gives "" (substr(1, npos) of a one-character string). */
  function StripQuotes(v: string): string
  {
    if v != [] && v[0] == '"' && v[|v| - 1] == '"' then (if |v| >= 2 then v[1..|v| - 1] else "") else v
  }

  /** Value cleanup. As written, the quotes are stripped first and the trailing comma
      dropped afterwards; corrected, the comma goes first so that a comma-terminated
      string value also loses its quotes. */
  function CleanValue(v: string, corrected: bool): string
  {
    if corrected then StripQuotes(DropTrailingComma(v)) else DropTrailingComma(StripQuotes(v))
  }

  /** b is a with at most one field set anew. */
  predicate OneFieldSet(a: FingerprintRecord, b: FingerprintRecord)
  {
    b == a.(timestamp := b.timestamp) || b == a.(kind := b.kind) || b == a.(host := b.host) ||
    b == a.(port := b.port) || b == a.(fingerprint := b.fingerprint)
  }

  /** The key matched by substring, first match wins, in the order timestamp, type, host,
      port, fingerprint; a port std::stoi rejects leaves the port as it was. */
  function AssignField(r: FingerprintRecord, key: string, value: string): (r': FingerprintRecord)
    ensures OneFieldSet(r, r')
  {
    if Contains(key, "timestamp") then r.(timestamp := value)
    else if Contains(key, "type") then r.(kind := value)
    else if Contains(key, "host") then r.(host := value)
    else if Contains(key, "port") then (match Stoi(value) case Some(p) => r.(port := p) case None => r)
    else if Contains(key, "fingerprint") then r.(fingerprint := value)
    else r
  }

  /** The key and value of a line holding ':' applied to the record. */
  function ApplyLine(r: FingerprintRecord, line: string, corrected: bool): (r': FingerprintRecord)
    ensures ':' !in line ==> r' == r
    ensures OneFieldSet(r, r')
  {
    match FirstIndexOf(line, ':')
    case None => r
    case Some(c) => AssignField(r, Trim(line[..c]), CleanValue(Trim(line[c + 1..]), corrected))
  }

  /** One line of the file: "{" or a line mentioning "timestamp" in quotes opens a fresh
      record; inside a record a key line fills a field; "}" or "}," pushes the record. */
  function JsonStep(st: JsonState, raw: string, corrected: bool): JsonState
  {
    LineStep(st, Trim(raw), corrected)
  }

  /** The step on a line once trimmed. */
  function LineStep(st: JsonState, line: string, corrected: bool): JsonState
  {
    var st1 := if line == "{" || Contains(line, "\"timestamp\"") then JsonState(st.records, BlankRecord, true) else st;
    if !st1.inRecord then st1
    else
      var record := ApplyLine(st1.record, line, corrected);
      if line == "}" || line == "}," then JsonState(st1.records + [record], record, false)
      else JsonState(st1.records, record, true)
  }

  function JsonRun(st: JsonState, lines: seq<string>, corrected: bool): JsonState
    decreases |lines|
  {
    if lines == [] then st else JsonRun(JsonStep(st, lines[0], corrected), lines[1..], corrected)
  }

  /** The records read_all returns for the lines of an existing file. */
  function JsonRecords(lines: seq<string>, corrected: bool): (rs: seq<FingerprintRecord>)
    ensures |rs| <= |lines|
  {
    JsonRunKeeps(JsonStart, lines, corrected);
    JsonRun(JsonStart, lines, corrected).records
  }

  /** Lines only ever add records, at most one each. */
  lemma {:induction false} JsonRunKeeps(st: JsonState, lines: seq<string>, corrected: bool)
    ensures var st' := JsonRun(st, lines, corrected);
      st.records <= st'.records && |st'.records| <= |st.records| + |lines|
    decreases |lines|
  {
    if lines != [] {
      var next := JsonStep(st, lines[0], corrected);
      LineStepKeeps(st, Trim(lines[0]), corrected);
      JsonRunKeeps(next, lines[1..], corrected);
      assert JsonRun(st, lines, corrected) == JsonRun(next, lines[1..], corrected);
    }
  }

  /** One line adds at most one record. */
  lemma LineStepKeeps(st: JsonState, line: string, corrected: bool)
    ensures var st' := LineStep(st, line, corrected);
      st.records <= st'.records && |st'.records| <= |st.records| + 1
  {
  }

  lemma {:induction false} JsonRunAppend(st: JsonState, a: seq<string>, b: seq<string>, corrected: bool)
    ensures JsonRun(st, a + b, corrected) == JsonRun(JsonRun(st, a, corrected), b, corrected)
    decreases |a|
  {
    if a == [] {
      assert a + b == b;
    } else {
      assert (a + b)[0] == a[0] && (a + b)[1..] == a[1..] + b;
      JsonRunAppend(JsonStep(st, a[0], corrected), a[1..], b, corrected);
    }
  }

  lemma {:induction false} JsonRunSnoc(st: JsonState, a: seq<string>, line: string, corrected: bool)
    ensures JsonRun(st, a + [line], corrected) == JsonStep(JsonRun(st, a, corrected), line, corrected)
  {
    JsonRunAppend(st, a, [line], corrected);
    assert [line][1..] == [];
  }

  /** Reading one more line of a file continues from the state its earlier lines left. */
  lemma {:induction false} JsonRunPrefix(lines: seq<string>, i: nat, corrected: bool)
    requires i < |lines|
    ensures JsonRun(JsonStart, lines[..i + 1], corrected) == JsonStep(JsonRun(JsonStart, lines[..i], corrected), lines[i], corrected)
  {
    assert lines[..i + 1] == lines[..i] + [lines[i]];
    JsonRunSnoc(JsonStart, lines[..i], lines[i], corrected);
  }

  /** The key-value part of the loop body: split at the first ':', trim both sides,
      clean the value and assign the field the key names. */
  method ReadKeyLine(record0: FingerprintRecord, line: string, corrected: bool) returns (record: FingerprintRecord)
    ensures record == ApplyLine(record0, line, corrected)
  {
    record := record0;
    var colon := FirstIndexOf(line, ':');
    if colon.Some? {
      var key := Trim(line[..colon.value]);
      var value := Trim(line[colon.value + 1..]);
      if corrected {
        value := StripQuotes(DropTrailingComma(value));
      } else {
        value := DropTrailingComma(StripQuotes(value));
      }
      record := AssignField(record, key, value);
    }
  }

  /** JSONWriter::read_all over the lines of an existing file, with its mutable record
      and in_record flag; corrected chooses the value cleanup order. */
  method JsonReadAll(lines: seq<string>, corrected: bool) returns (records: seq<FingerprintRecord>)
    ensures records == JsonRecords(lines, corrected)
  {
    records := [];
    var record := BlankRecord;
    var inRecord := false;
    for i := 0 to |lines|
      invariant JsonState(records, record, inRecord) == JsonRun(JsonStart, lines[..i], corrected)
    {
      JsonRunPrefix(lines, i, corrected);
      ghost var next := JsonStep(JsonState(records, record, inRecord), lines[i], corrected);
      var line := Trim(lines[i]);
      if line == "{" || Contains(line, "\"timestamp\"") {
        inRecord := true;
        record := BlankRecord;
      }
      if inRecord {
        record := ReadKeyLine(record, line, corrected);
        if line == "}" || line == "}," {
          records := records + [record];
          inRecord := false;
        }
      }
      assert JsonState(records, record, inRecord) == next;
    }
    assert lines[..|lines|] == lines;
  }

  /** read_all of a path: a missing file has no records. */
  function ReadJson(fs: FileSystem, path: string, corrected: bool): seq<FingerprintRecord>
  {
    if path in fs then JsonRecords(Lines(fs[path]), corrected) else []
  }

  // ---------------------------------------------------------------- JSONWriter::append_record

  function Quote(s: string): (r: string)
    ensures |r| == |s| + 2
  {
    "\"" + s + "\""
  }

  /** An indented "name": value line of the writer. */
  function KeyLine(name: string, value: string): string
  {
    "    \"" + name + "\": " + value
  }

  /** A string-valued line: the value in quotes, followed by ',' unless it is the last. */
  function StringLine(name: string, s: string, comma: bool): string
  {
    KeyLine(name, Quote(s) + (if comma then "," else ""))
  }

  /** The seven lines append_record writes for one record. */
  function RecordLines(r: FingerprintRecord, last: bool): (ls: seq<string>)
    ensures |ls| == 7
  {
    ["  {",
     StringLine("timestamp", r.timestamp, true),
     StringLine("type", r.kind, true),
     StringLine("host", r.host, true),
     KeyLine("port", IntToString(r.port) + ","),
     StringLine("fingerprint", r.fingerprint, false),
     if last then "  }" else "  },"]
  }

  /** The records in order, every one but the last closed by "},". */
  function RecordsLines(rs: seq<FingerprintRecord>): seq<string>
    decreases |rs|
  {
    if rs == [] then [] else RecordLines(rs[0], |rs| == 1) + RecordsLines(rs[1..])
  }

  function JsonFileLines(rs: seq<FingerprintRecord>): seq<string>
  {
    ["["] + RecordsLines(rs) + ["]"]
  }

  /** The whole file append_record writes for a list of records. */
  function JsonFile(rs: seq<FingerprintRecord>): string
  {
    Unlines(JsonFileLines(rs))
  }

  /** append_record: read the existing records (if the file exists), add one, rewrite
      the file; corrected chooses the reader's value cleanup. */
  function AppendRecord(fs: FileSystem, path: string, r: FingerprintRecord, corrected: bool): (fs': FileSystem)
    ensures path in fs' && fs'.Keys == fs.Keys + {path}
    ensures forall q :: q in fs && q != path ==> fs'[q] == fs[q]
  {
    fs[path := JsonFile(ReadJson(fs, path, corrected) + [r])]
  }

  /** A string the writer can emit on its line without breaking the reader's line
      logic: no line break and no "timestamp" inside, which would open a fresh record. */
  predicate SafeField(s: string)
  {
    '\n' !in s && !Contains(s, "timestamp")
  }

  predicate JsonWritable(r: FingerprintRecord)
  {
    '\n' !in r.timestamp && SafeField(r.kind) && SafeField(r.host) && SafeField(r.fingerprint) &&
    Int32Min <= r.port <= Int32Max
  }

  predicate AllJsonWritable(rs: seq<FingerprintRecord>)
  {
    forall k :: 0 <= k < |rs| ==> JsonWritable(rs[k])
  }

  /** What the reader makes of a written record: corrected, the record itself; as
      written, timestamp, type and host keep their quotes (their lines end in ',') and
      the fingerprint loses a trailing ','. */
  function Readback(r: FingerprintRecord, corrected: bool): FingerprintRecord
  {
    if corrected then r
    else FingerprintRecord(Quote(r.timestamp), Quote(r.kind), Quote(r.host), r.port, DropTrailingComma(r.fingerprint))
  }

  function ReadbackAll(rs: seq<FingerprintRecord>, corrected: bool): (r: seq<FingerprintRecord>)
    ensures |r| == |rs|
    decreases |rs|
  {
    if rs == [] then [] else [Readback(rs[0], corrected)] + ReadbackAll(rs[1..], corrected)
  }

  // ---- reading a written line

  /** White space in front of text whose ends are not white space is all trim removes. */
  lemma {:induction false} TrimPadded(pre: string, t: string)
    requires AllTrimSpace(pre) && t != [] && !IsTrimSpace(t[0]) && !IsTrimSpace(t[|t| - 1])
    ensures Trim(pre + t) == t
  {
    var s := pre + t;
    assert s[|pre|..|pre| + |t|] == t && s[..|pre|] == pre && s[|pre| + |t|..] == [];
    TrimUnique(s, |pre|, t);
  }

  lemma {:induction false} TrimKeyLine(name: string, v: string)
    requires ':' !in name && v != [] && !IsTrimSpace(v[0]) && !IsTrimSpace(v[|v| - 1])
    ensures Trim(KeyLine(name, v)) == Quote(name) + ": " + v
  {
    var t := Quote(name) + ": " + v;
    assert KeyLine(name, v) == "    " + t;
    assert t[|t| - 1] == v[|v| - 1];
    TrimPadded("    ", t);
  }

  lemma {:induction false} KeyLineColon(name: string, v: string)
    requires ':' !in name
    ensures FirstIndexOf(Quote(name) + ": " + v, ':') == Some(|name| + 2)
  {
    var q := Quote(name);
    assert q + ": " + v == q + [':'] + (" " + v);
    FirstIndexAfter(q, ':', " " + v);
  }

  lemma {:induction false} KeyLineKey(name: string, v: string)
    ensures Trim((Quote(name) + ": " + v)[..|name| + 2]) == Quote(name)
  {
    var q := Quote(name);
    assert (q + ": " + v)[..|name| + 2] == "" + q == q;
    TrimPadded("", q);
  }

  lemma {:induction false} KeyLineValue(name: string, v: string)
    requires v != [] && !IsTrimSpace(v[0]) && !IsTrimSpace(v[|v| - 1])
    ensures Trim((Quote(name) + ": " + v)[|name| + 3..]) == v
  {
    assert (Quote(name) + ": " + v)[|name| + 3..] == " " + v;
    TrimPadded(" ", v);
  }

  /** The key line's trimmed text is applied to the record as its key and cleaned value. */
  lemma {:induction false} ApplyKeyLine(rec: FingerprintRecord, name: string, v: string, corrected: bool)
    requires ':' !in name && v != [] && !IsTrimSpace(v[0]) && !IsTrimSpace(v[|v| - 1])
    ensures ApplyLine(rec, Quote(name) + ": " + v, corrected) == AssignField(rec, Quote(name), CleanValue(v, corrected))
  {
    KeyLineColon(name, v);
    KeyLineKey(name, v);
    KeyLineValue(name, v);
  }

  lemma {:induction false} CleanStringValue(s: string, comma: bool, corrected: bool)
    ensures CleanValue(Quote(s) + (if comma then "," else ""), corrected) ==
      if corrected then s else if comma then Quote(s) else DropTrailingComma(s)
  {
    var q := Quote(s);
    assert q[1..|q| - 1] == s;
    if comma {
      var v := q + ",";
      assert v[..|v| - 1] == q;
    } else {
      assert q + "" == q;
    }
  }

  lemma {:induction false} CleanPortValue(p: int, corrected: bool)
    ensures CleanValue(IntToString(p) + ",", corrected) == IntToString(p)
  {
    var t := IntToString(p);
    var v := t + ",";
    assert v[0] == t[0] && v[..|v| - 1] == t;
    assert t[0] == '-' || IsDigit(t[0]);
  }

  /** "timestamp" cannot begin or end inside a '"', so the quoted key or value on a
      line of the writer contains it only if the name or the text itself does. */
  lemma {:induction false} NoTimestampInStringLine(name: string, s: string, comma: bool, missing: char)
    requires missing in "timestamp" && missing !in name && ':' !in name
    requires !Contains(s, "timestamp")
    ensures !Contains(Quote(name) + ": " + (Quote(s) + (if comma then "," else "")), "\"timestamp\"")
  {
    var a := "\"" + name + "\": \"";
    var b := "\"" + (if comma then "," else "");
    assert Quote(name) + ": " + (Quote(s) + (if comma then "," else "")) == a + s + b;
    MissingCharNotContained(a, "timestamp", missing);
    MissingCharNotContained(b, "timestamp", 'i');
    NotContainedAcross(a, s, b, "timestamp");
    if Contains(a + s + b, "\"timestamp\"") {
      assert "\"timestamp\""[1..10] == "timestamp";
      ContainsPiece(a + s + b, "\"timestamp\"", 1, "timestamp");
    }
  }

  // ---- reading a written record

  lemma {:induction false} JsonRunCons(st: JsonState, line: string, ls: seq<string>, corrected: bool)
    ensures JsonRun(st, [line] + ls, corrected) == JsonRun(JsonStep(st, line, corrected), ls, corrected)
  {
    assert ([line] + ls)[0] == line && ([line] + ls)[1..] == ls;
  }

  /** Inside a record, a key line that neither opens nor closes a record only fills a field. */
  lemma {:induction false} LineStepKey(st: JsonState, line: string, corrected: bool)
    requires st.inRecord && line != "{" && line != "}" && line != "},"
    requires !Contains(line, "\"timestamp\"")
    ensures LineStep(st, line, corrected) == JsonState(st.records, ApplyLine(st.record, line, corrected), true)
  {
  }

  /** A line naming "timestamp" in quotes starts a fresh record and fills it. */
  lemma {:induction false} LineStepTimestamp(st: JsonState, line: string, corrected: bool)
    requires line != "}" && line != "}," && Contains(line, "\"timestamp\"")
    ensures LineStep(st, line, corrected) == JsonState(st.records, ApplyLine(BlankRecord, line, corrected), true)
  {
  }

  /** A written key line is, once trimmed, its quoted key, ": " and its value. */
  lemma {:induction false} JsonStepKeyLine(st: JsonState, name: string, v: string, corrected: bool)
    requires ':' !in name && v != [] && !IsTrimSpace(v[0]) && !IsTrimSpace(v[|v| - 1])
    ensures JsonStep(st, KeyLine(name, v), corrected) == LineStep(st, Quote(name) + ": " + v, corrected)
  {
    TrimKeyLine(name, v);
  }

  lemma {:induction false} LineStepField(st: JsonState, name: string, v: string, corrected: bool)
    requires st.inRecord
    requires ':' !in name && v != [] && !IsTrimSpace(v[0]) && !IsTrimSpace(v[|v| - 1])
    requires !Contains(Quote(name) + ": " + v, "\"timestamp\"")
    ensures LineStep(st, Quote(name) + ": " + v, corrected) ==
      JsonState(st.records, AssignField(st.record, Quote(name), CleanValue(v, corrected)), true)
  {
    var t := Quote(name) + ": " + v;
    assert t[0] == '"';
    LineStepKey(st, t, corrected);
    ApplyKeyLine(st.record, name, v, corrected);
  }

  lemma TrimOpen() ensures Trim("  {") == "{"
  {
    var s := "  {";
    assert s[2..3] == "{" && s[..2] == "  " && s[3..] == [];
    TrimUnique(s, 2, "{");
  }

  lemma TrimClose() ensures Trim("  }") == "}"
  {
    var s := "  }";
    assert s[2..3] == "}" && s[..2] == "  " && s[3..] == [];
    TrimUnique(s, 2, "}");
  }

  lemma TrimCloseComma() ensures Trim("  },") == "},"
  {
    var s := "  },";
    assert s[2..4] == "}," && s[..2] == "  " && s[4..] == [];
    TrimUnique(s, 2, "},");
  }

  lemma TrimSingle(c: char)
    requires !IsTrimSpace(c)
    ensures Trim([c]) == [c]
  {
    var s := [c];
    assert s[0..1] == s && s[..0] == [] && s[1..] == [];
    TrimUnique(s, 0, s);
  }

  /** A line without ':' or "timestamp" that is neither "{" nor a closing brace leaves a
      closed reader as it was. */
  lemma {:induction false} JsonStepIdle(st: JsonState, raw: string, corrected: bool)
    requires !st.inRecord && (raw == "[" || raw == "]")
    ensures JsonStep(st, raw, corrected) == st
  {
    assert Trim(raw) == raw by {
      assert raw == [raw[0]];
      TrimSingle(raw[0]);
    }
    assert !Contains(raw, "\"timestamp\"") by { MissingCharNotContained(raw, "\"timestamp\"", 'i'); }
    LineStepIdle(st, raw, corrected);
  }

  /** Outside a record, a line that opens none is skipped. */
  lemma LineStepIdle(st: JsonState, line: string, corrected: bool)
    requires !st.inRecord && line != "{" && !Contains(line, "\"timestamp\"")
    ensures LineStep(st, line, corrected) == st
  {
  }

  lemma {:induction false} JsonStepOpen(st: JsonState, corrected: bool)
    ensures JsonStep(st, "  {", corrected) == JsonState(st.records, BlankRecord, true)
  {
    TrimOpen();
    MissingCharNotContained("{", "\"timestamp\"", 'i');
    assert ':' !in "{";
  }

  lemma {:induction false} JsonStepCloseLast(st: JsonState, corrected: bool)
    requires st.inRecord
    ensures JsonStep(st, "  }", corrected) == JsonState(st.records + [st.record], st.record, false)
  {
    TrimClose();
    MissingCharNotContained("}", "\"timestamp\"", 'i');
    assert ':' !in "}";
    LineStepClose(st, "}", corrected);
  }

  lemma {:induction false} JsonStepCloseMore(st: JsonState, corrected: bool)
    requires st.inRecord
    ensures JsonStep(st, "  },", corrected) == JsonState(st.records + [st.record], st.record, false)
  {
    TrimCloseComma();
    CloseCommaPlain();
    LineStepClose(st, "},", corrected);
  }

  /** "}," names no field. */
  lemma CloseCommaPlain()
    ensures !Contains("},", "\"timestamp\"") && ':' !in "},"
  {
    MissingCharNotContained("},", "\"timestamp\"", 'i');
  }

  /** A closing line inside a record pushes the record unchanged. */
  lemma LineStepClose(st: JsonState, line: string, corrected: bool)
    requires st.inRecord && (line == "}" || line == "},")
    requires !Contains(line, "\"timestamp\"") && ':' !in line
    ensures LineStep(st, line, corrected) == JsonState(st.records + [st.record], st.record, false)
  {
  }

  lemma {:induction false} JsonStepTimestamp(st: JsonState, s: string, corrected: bool)
    ensures JsonStep(st, StringLine("timestamp", s, true), corrected) ==
      JsonState(st.records, BlankRecord.(timestamp := if corrected then s else Quote(s)), true)
  {
    var v := Quote(s) + ",";
    JsonStepKeyLine(st, "timestamp", v, corrected);
    TimestampLineStarts(st, v, corrected);
    TimestampLineApplies(s, corrected);
  }

  /** The timestamp line starts a fresh record, whatever its value. */
  lemma {:induction false} TimestampLineStarts(st: JsonState, v: string, corrected: bool)
    ensures LineStep(st, Quote("timestamp") + ": " + v, corrected) ==
      JsonState(st.records, ApplyLine(BlankRecord, Quote("timestamp") + ": " + v, corrected), true)
  {
    var t := Quote("timestamp") + ": " + v;
    assert t[..11] == "\"timestamp\"";
    assert OccursAt(t, "\"timestamp\"", 0);
    assert t[0] == '"';
    LineStepTimestamp(st, t, corrected);
  }

  /** The timestamp line fills the timestamp of a fresh record. */
  lemma {:induction false} TimestampLineApplies(s: string, corrected: bool)
    ensures ApplyLine(BlankRecord, Quote("timestamp") + ": " + (Quote(s) + ","), corrected) ==
      BlankRecord.(timestamp := if corrected then s else Quote(s))
  {
    var v := Quote(s) + ",";
    ApplyKeyLine(BlankRecord, "timestamp", v, corrected);
    CleanStringValue(s, true, corrected);
    assert OccursAt(Quote("timestamp"), "timestamp", 1);
  }

  lemma {:induction false} JsonStepString(st: JsonState, name: string, s: string, comma: bool, missing: char, corrected: bool)
    requires st.inRecord
    requires missing in "timestamp" && missing !in name && ':' !in name
    requires !Contains(s, "timestamp")
    ensures JsonStep(st, StringLine(name, s, comma), corrected) ==
      JsonState(st.records, AssignField(st.record, Quote(name), CleanValue(Quote(s) + (if comma then "," else ""), corrected)), true)
  {
    var v := Quote(s) + (if comma then "," else "");
    JsonStepKeyLine(st, name, v, corrected);
    NoTimestampInStringLine(name, s, comma, missing);
    LineStepField(st, name, v, corrected);
  }

  lemma {:induction false} PortField(rec: FingerprintRecord, w: string)
    ensures AssignField(rec, Quote("port"), w) == match Stoi(w) case Some(p) => rec.(port := p) case None => rec
  {
    MissingCharNotContained(Quote("port"), "timestamp", 'i');
    MissingCharNotContained(Quote("port"), "type", 'y');
    MissingCharNotContained(Quote("port"), "host", 'h');
    assert OccursAt(Quote("port"), "port", 1);
  }

  /** A port written by IntToString is read back by Stoi. */
  lemma {:induction false} PortKey(rec: FingerprintRecord, p: int, corrected: bool)
    requires Int32Min <= p <= Int32Max
    ensures AssignField(rec, Quote("port"), CleanValue(IntToString(p) + ",", corrected)) == rec.(port := p)
  {
    CleanPortValue(p, corrected);
    StoiIntToString(p);
    PortField(rec, IntToString(p));
  }

  lemma {:induction false} PortLineSafe(p: int)
    ensures IntToString(p) + "," != [] && !IsTrimSpace((IntToString(p) + ",")[0])
    ensures !Contains(Quote("port") + ": " + (IntToString(p) + ","), "\"timestamp\"")
  {
    var d := IntToString(p);
    var v := d + ",";
    assert v[0] == d[0];
    assert d[0] == '-' || IsDigit(d[0]);
    var t := Quote("port") + ": " + v;
    assert 'i' !in d by {
      assert forall k :: 0 <= k < |d| ==> d[k] == '-' || IsDigit(d[k]);
    }
    assert 'i' !in t;
    MissingCharNotContained(t, "\"timestamp\"", 'i');
  }

  lemma {:induction false} JsonStepPort(st: JsonState, p: int, corrected: bool)
    requires st.inRecord && Int32Min <= p <= Int32Max
    ensures JsonStep(st, KeyLine("port", IntToString(p) + ","), corrected) == JsonState(st.records, st.record.(port := p), true)
  {
    var v := IntToString(p) + ",";
    PortLineSafe(p);
    assert v[|v| - 1] == ',';
    JsonStepKeyLine(st, "port", v, corrected);
    LineStepField(st, "port", v, corrected);
    PortKey(st.record, p, corrected);
  }

  /** The fields named type, host and fingerprint each land in their own field. */
  lemma {:induction false} TypeKey(rec: FingerprintRecord, v: string)
    ensures AssignField(rec, Quote("type"), v) == rec.(kind := v)
  {
    MissingCharNotContained(Quote("type"), "timestamp", 'i');
    assert OccursAt(Quote("type"), "type", 1);
  }

  lemma {:induction false} HostKey(rec: FingerprintRecord, v: string)
    ensures AssignField(rec, Quote("host"), v) == rec.(host := v)
  {
    MissingCharNotContained(Quote("host"), "timestamp", 'i');
    MissingCharNotContained(Quote("host"), "type", 'y');
    assert OccursAt(Quote("host"), "host", 1);
  }

  lemma {:induction false} FingerprintKey(rec: FingerprintRecord, v: string)
    ensures AssignField(rec, Quote("fingerprint"), v) == rec.(fingerprint := v)
  {
    MissingCharNotContained(Quote("fingerprint"), "timestamp", 'm');
    MissingCharNotContained(Quote("fingerprint"), "type", 'y');
    MissingCharNotContained(Quote("fingerprint"), "host", 'h');
    MissingCharNotContained(Quote("fingerprint"), "port", 'o');
    assert OccursAt(Quote("fingerprint"), "fingerprint", 1);
  }

  /** One line read: the run over it and the rest is the run over the rest from the
      state the step leads to. */
  lemma {:induction false} JsonRunLine(st: JsonState, line: string, rest: seq<string>, next: JsonState, corrected: bool)
    requires JsonStep(st, line, corrected) == next
    ensures JsonRun(st, [line] + rest, corrected) == JsonRun(next, rest, corrected)
  {
    JsonRunCons(st, line, rest, corrected);
  }

  // Each line of a written record, read in front of any further lines.

  lemma {:induction false} RunOpen(st: JsonState, rest: seq<string>, corrected: bool)
    ensures JsonRun(st, ["  {"] + rest, corrected) == JsonRun(JsonState(st.records, BlankRecord, true), rest, corrected)
  {
    JsonStepOpen(st, corrected);
    JsonRunLine(st, "  {", rest, JsonState(st.records, BlankRecord, true), corrected);
  }

  lemma {:induction false} RunTimestamp(st: JsonState, r: FingerprintRecord, rest: seq<string>, corrected: bool)
    ensures JsonRun(st, [StringLine("timestamp", r.timestamp, true)] + rest, corrected) ==
      JsonRun(JsonState(st.records, BlankRecord.(timestamp := Readback(r, corrected).timestamp), true), rest, corrected)
  {
    var next := JsonState(st.records, BlankRecord.(timestamp := Readback(r, corrected).timestamp), true);
    JsonStepTimestamp(st, r.timestamp, corrected);
    JsonRunLine(st, StringLine("timestamp", r.timestamp, true), rest, next, corrected);
  }

  lemma {:induction false} RunType(st: JsonState, r: FingerprintRecord, rest: seq<string>, corrected: bool)
    requires st.inRecord && JsonWritable(r)
    ensures JsonRun(st, [StringLine("type", r.kind, true)] + rest, corrected) ==
      JsonRun(JsonState(st.records, st.record.(kind := Readback(r, corrected).kind), true), rest, corrected)
  {
    var next := JsonState(st.records, st.record.(kind := Readback(r, corrected).kind), true);
    JsonStepString(st, "type", r.kind, true, 'i', corrected);
    CleanStringValue(r.kind, true, corrected);
    TypeKey(st.record, Readback(r, corrected).kind);
    JsonRunLine(st, StringLine("type", r.kind, true), rest, next, corrected);
  }

  lemma {:induction false} RunHost(st: JsonState, r: FingerprintRecord, rest: seq<string>, corrected: bool)
    requires st.inRecord && JsonWritable(r)
    ensures JsonRun(st, [StringLine("host", r.host, true)] + rest, corrected) ==
      JsonRun(JsonState(st.records, st.record.(host := Readback(r, corrected).host), true), rest, corrected)
  {
    var next := JsonState(st.records, st.record.(host := Readback(r, corrected).host), true);
    JsonStepString(st, "host", r.host, true, 'i', corrected);
    CleanStringValue(r.host, true, corrected);
    HostKey(st.record, Readback(r, corrected).host);
    JsonRunLine(st, StringLine("host", r.host, true), rest, next, corrected);
  }

  lemma {:induction false} RunPort(st: JsonState, r: FingerprintRecord, rest: seq<string>, corrected: bool)
    requires st.inRecord && JsonWritable(r)
    ensures JsonRun(st, [KeyLine("port", IntToString(r.port) + ",")] + rest, corrected) ==
      JsonRun(JsonState(st.records, st.record.(port := r.port), true), rest, corrected)
  {
    JsonStepPort(st, r.port, corrected);
    JsonRunLine(st, KeyLine("port", IntToString(r.port) + ","), rest, JsonState(st.records, st.record.(port := r.port), true), corrected);
  }

  lemma {:induction false} RunFingerprint(st: JsonState, r: FingerprintRecord, rest: seq<string>, corrected: bool)
    requires st.inRecord && JsonWritable(r)
    ensures JsonRun(st, [StringLine("fingerprint", r.fingerprint, false)] + rest, corrected) ==
      JsonRun(JsonState(st.records, st.record.(fingerprint := Readback(r, corrected).fingerprint), true), rest, corrected)
  {
    var next := JsonState(st.records, st.record.(fingerprint := Readback(r, corrected).fingerprint), true);
    JsonStepString(st, "fingerprint", r.fingerprint, false, 'm', corrected);
    CleanStringValue(r.fingerprint, false, corrected);
    FingerprintKey(st.record, Readback(r, corrected).fingerprint);
    JsonRunLine(st, StringLine("fingerprint", r.fingerprint, false), rest, next, corrected);
  }

  lemma {:induction false} RunClose(st: JsonState, last: bool, rest: seq<string>, corrected: bool)
    requires st.inRecord
    ensures JsonRun(st, [if last then "  }" else "  },"] + rest, corrected) ==
      JsonRun(JsonState(st.records + [st.record], st.record, false), rest, corrected)
  {
    var next := JsonState(st.records + [st.record], st.record, false);
    if last {
      JsonStepCloseLast(st, corrected);
      JsonRunLine(st, "  }", rest, next, corrected);
    } else {
      JsonStepCloseMore(st, corrected);
      JsonRunLine(st, "  },", rest, next, corrected);
    }
  }

  /** The seven lines of one written record add that record, as the reader sees it. */
  lemma {:induction false} JsonReadRecord(st: JsonState, r: FingerprintRecord, last: bool, rest: seq<string>, corrected: bool)
    requires JsonWritable(r)
    ensures JsonRun(st, RecordLines(r, last) + rest, corrected) ==
      JsonRun(JsonState(st.records + [Readback(r, corrected)], Readback(r, corrected), false), rest, corrected)
  {
    var ls := RecordLines(r, last);
    var b := Readback(r, corrected);
    var t6 := [ls[6]] + rest;
    var t5 := [ls[5]] + t6;
    var t4 := [ls[4]] + t5;
    var t3 := [ls[3]] + t4;
    var t2 := [ls[2]] + t3;
    var t1 := [ls[1]] + t2;
    assert ls + rest == [ls[0]] + t1;
    var s1 := JsonState(st.records, BlankRecord, true);
    RunOpen(st, t1, corrected);
    var s2 := JsonState(st.records, BlankRecord.(timestamp := b.timestamp), true);
    RunTimestamp(s1, r, t2, corrected);
    var s3 := JsonState(st.records, s2.record.(kind := b.kind), true);
    RunType(s2, r, t3, corrected);
    var s4 := JsonState(st.records, s3.record.(host := b.host), true);
    RunHost(s3, r, t4, corrected);
    var s5 := JsonState(st.records, s4.record.(port := r.port), true);
    RunPort(s4, r, t5, corrected);
    var s6 := JsonState(st.records, s5.record.(fingerprint := b.fingerprint), true);
    RunFingerprint(s5, r, t6, corrected);
    assert s6.record == b;
    RunClose(s6, last, rest, corrected);
  }

  lemma {:induction false} RunBracket(st: JsonState, raw: string, rest: seq<string>, corrected: bool)
    requires !st.inRecord && (raw == "[" || raw == "]")
    ensures JsonRun(st, [raw] + rest, corrected) == JsonRun(st, rest, corrected)
  {
    JsonStepIdle(st, raw, corrected);
    JsonRunLine(st, raw, rest, st, corrected);
  }

  lemma {:induction false} AllJsonWritableTail(rs: seq<FingerprintRecord>)
    requires rs != [] && AllJsonWritable(rs)
    ensures JsonWritable(rs[0]) && AllJsonWritable(rs[1..])
  {
    assert JsonWritable(rs[0]);
    forall k | 0 <= k < |rs| - 1 ensures JsonWritable(rs[1..][k]) {
      assert rs[1..][k] == rs[k + 1];
    }
  }

  /** The first of the written records is read in front of the others. */
  lemma {:induction false} JsonReadFirst(st: JsonState, rs: seq<FingerprintRecord>, rest: seq<string>, corrected: bool)
    requires rs != [] && JsonWritable(rs[0])
    ensures JsonRun(st, RecordsLines(rs) + rest, corrected) ==
      JsonRun(JsonState(st.records + [Readback(rs[0], corrected)], Readback(rs[0], corrected), false), RecordsLines(rs[1..]) + rest, corrected)
  {
    var tail := RecordsLines(rs[1..]);
    assert RecordsLines(rs) + rest == RecordLines(rs[0], |rs| == 1) + (tail + rest);
    JsonReadRecord(st, rs[0], |rs| == 1, tail + rest, corrected);
  }

  lemma {:induction false} ReadbackAllCons(pre: seq<FingerprintRecord>, rs: seq<FingerprintRecord>, corrected: bool)
    requires rs != []
    ensures (pre + [Readback(rs[0], corrected)]) + ReadbackAll(rs[1..], corrected) == pre + ReadbackAll(rs, corrected)
  {
  }

  lemma {:induction false} JsonReadLast(st: JsonState, rs: seq<FingerprintRecord>, corrected: bool)
    requires |rs| == 1 && JsonWritable(rs[0])
    ensures JsonRun(st, RecordsLines(rs), corrected) ==
      JsonState(st.records + ReadbackAll(rs, corrected), Readback(rs[0], corrected), false)
  {
    var b := Readback(rs[0], corrected);
    JsonReadHead(st, rs, corrected);
    ReadbackAllCons(st.records, rs, corrected);
    assert (st.records + [b]) + [] == st.records + [b];
  }

  lemma {:induction false} JsonReadHead(st: JsonState, rs: seq<FingerprintRecord>, corrected: bool)
    requires rs != [] && JsonWritable(rs[0])
    ensures JsonRun(st, RecordsLines(rs), corrected) ==
      JsonRun(JsonState(st.records + [Readback(rs[0], corrected)], Readback(rs[0], corrected), false), RecordsLines(rs[1..]), corrected)
  {
    JsonReadFirst(st, rs, [], corrected);
    assert RecordsLines(rs) + [] == RecordsLines(rs);
    assert RecordsLines(rs[1..]) + [] == RecordsLines(rs[1..]);
  }

  /** The records written one after another are read back in order, each as the reader
      sees it. */
  lemma {:induction false} JsonReadRecords(st: JsonState, rs: seq<FingerprintRecord>, corrected: bool)
    requires rs != [] && AllJsonWritable(rs)
    ensures JsonRun(st, RecordsLines(rs), corrected) ==
      JsonState(st.records + ReadbackAll(rs, corrected), Readback(rs[|rs| - 1], corrected), false)
    decreases |rs|
  {
    AllJsonWritableTail(rs);
    if |rs| == 1 {
      JsonReadLast(st, rs, corrected);
    } else {
      var b := Readback(rs[0], corrected);
      var rs' := rs[1..];
      var last := rs[|rs| - 1];
      assert rs'[|rs'| - 1] == last;
      var mid := JsonState(st.records + [b], b, false);
      assert JsonRun(st, RecordsLines(rs), corrected) == JsonRun(mid, RecordsLines(rs'), corrected) by {
        JsonReadHead(st, rs, corrected);
      }
      assert JsonRun(mid, RecordsLines(rs'), corrected) ==
        JsonState(mid.records + ReadbackAll(rs', corrected), Readback(last, corrected), false) by {
        JsonReadRecords(mid, rs', corrected);
      }
      ReadbackAllCons(st.records, rs, corrected);
    }
  }

  lemma {:induction false} StringLineNoNewline(name: string, s: string, comma: bool)
    requires '\n' !in name && '\n' !in s
    ensures '\n' !in StringLine(name, s, comma)
  {
    assert StringLine(name, s, comma) == "    \"" + name + "\": \"" + s + "\"" + (if comma then "," else "");
  }

  lemma {:induction false} RecordLinesNoNewline(r: FingerprintRecord, last: bool)
    requires JsonWritable(r)
    ensures NoNewline(RecordLines(r, last))
  {
    StringLineNoNewline("timestamp", r.timestamp, true);
    StringLineNoNewline("type", r.kind, true);
    StringLineNoNewline("host", r.host, true);
    var d := IntToString(r.port);
    assert '\n' !in d by {
      assert forall k :: 0 <= k < |d| ==> d[k] == '-' || IsDigit(d[k]);
    }
    assert KeyLine("port", d + ",") == "    \"port\": " + d + ",";
    StringLineNoNewline("fingerprint", r.fingerprint, false);
  }

  lemma {:induction false} RecordsLinesNoNewline(rs: seq<FingerprintRecord>)
    requires AllJsonWritable(rs)
    ensures NoNewline(RecordsLines(rs))
    decreases |rs|
  {
    if rs != [] {
      AllJsonWritableTail(rs);
      RecordLinesNoNewline(rs[0], |rs| == 1);
      RecordsLinesNoNewline(rs[1..]);
      var a := RecordLines(rs[0], |rs| == 1);
      var b := RecordsLines(rs[1..]);
      forall k | 0 <= k < |a + b| ensures '\n' !in (a + b)[k] {
        if k < |a| { assert (a + b)[k] == a[k]; } else { assert (a + b)[k] == b[k - |a|]; }
      }
    }
  }

  /** The lines of a written file are "[", the record lines and "]". */
  lemma JsonFileLinesRead(rs: seq<FingerprintRecord>)
    requires AllJsonWritable(rs)
    ensures Lines(JsonFile(rs)) == ["["] + (RecordsLines(rs) + ["]"])
  {
    var body := RecordsLines(rs);
    var ls := JsonFileLines(rs);
    RecordsLinesNoNewline(rs);
    forall k | 0 <= k < |ls| ensures '\n' !in ls[k] {
      if 0 < k < |ls| - 1 { assert ls[k] == body[k - 1]; }
    }
    LinesOfUnlines(ls);
    assert ls == ["["] + (body + ["]"]);
  }

  /** A file append_record writes reads back as its records, as the reader sees them. */
  lemma {:induction false} JsonFileRead(rs: seq<FingerprintRecord>, corrected: bool)
    requires AllJsonWritable(rs)
    ensures JsonRecords(Lines(JsonFile(rs)), corrected) == ReadbackAll(rs, corrected)
  {
    JsonFileLinesRead(rs);
    JsonBodyRead(rs, corrected);
  }

  /** "[", the record lines and "]" read back as the records. */
  lemma JsonBodyRead(rs: seq<FingerprintRecord>, corrected: bool)
    requires AllJsonWritable(rs)
    ensures JsonRecords(["["] + (RecordsLines(rs) + ["]"]), corrected) == ReadbackAll(rs, corrected)
  {
    var body := RecordsLines(rs);
    RunBracket(JsonStart, "[", body + ["]"], corrected);
    JsonRunAppend(JsonStart, body, ["]"], corrected);
    var fin := JsonRun(JsonStart, body, corrected);
    if rs != [] {
      JsonReadRecords(JsonStart, rs, corrected);
      assert [] + ReadbackAll(rs, corrected) == ReadbackAll(rs, corrected);
    }
    assert !fin.inRecord && fin.records == ReadbackAll(rs, corrected);
    RunFinalBracket(fin, corrected);
  }

  /** A closing "]" outside a record changes nothing. */
  lemma RunFinalBracket(st: JsonState, corrected: bool)
    requires !st.inRecord
    ensures JsonRun(st, ["]"], corrected) == st
  {
    var close: seq<string> := ["]"];
    assert close + [] == close;
    RunBracket(st, "]", [], corrected);
  }

  /** The corrected reader returns what was written. */
  lemma {:induction false} ReadbackCorrected(rs: seq<FingerprintRecord>)
    ensures ReadbackAll(rs, true) == rs
    decreases |rs|
  {
    if rs != [] {
      ReadbackCorrected(rs[1..]);
    }
  }

  /** Saving to a file that holds the given records, or to no file when there are none,
      leaves a file holding them followed by the new record. */
  lemma {:induction false} AppendRoundTrip(fs: FileSystem, path: string, rs: seq<FingerprintRecord>, r: FingerprintRecord)
    requires if path in fs then fs[path] == JsonFile(rs) else rs == []
    requires AllJsonWritable(rs) && JsonWritable(r)
    ensures AppendRecord(fs, path, r, true)[path] == JsonFile(rs + [r])
    ensures ReadJson(AppendRecord(fs, path, r, true), path, true) == rs + [r]
  {
    if path in fs {
      JsonFileRead(rs, true);
    }
    ReadbackCorrected(rs);
    assert AllJsonWritable(rs + [r]) by {
      forall k | 0 <= k < |rs| + 1 ensures JsonWritable((rs + [r])[k]) {
        if k < |rs| { assert (rs + [r])[k] == rs[k]; }
      }
    }
    JsonFileRead(rs + [r], true);
    ReadbackCorrected(rs + [r]);
  }

  /** As written, a saved record does not read back as saved: timestamp, type and host
      come back inside their quotes. */
  lemma {:induction false} AsWrittenSaveQuotes(fs: FileSystem, path: string, r: FingerprintRecord)
    requires path !in fs && JsonWritable(r)
    ensures ReadJson(AppendRecord(fs, path, r, false), path, false) == [Readback(r, false)]
    ensures ReadJson(AppendRecord(fs, path, r, false), path, false)[0].kind == Quote(r.kind) != r.kind
  {
    assert [] + [r] == [r];
    AllJsonWritableOne(r);
    JsonFileRead([r], false);
    assert |Quote(r.kind)| != |r.kind|;
  }

  /** Quoting keeps a field writable: '"' is not in "timestamp", so the added quotes
      cannot complete one. */
  lemma {:induction false} QuoteSafe(s: string)
    requires SafeField(s)
    ensures SafeField(Quote(s))
  {
    MissingCharNotContained("\"", "timestamp", 't');
    NotContainedAcross("\"", s, "\"", "timestamp");
  }

  /** Dropping a trailing ',' keeps a field writable. */
  lemma {:induction false} DropCommaSafe(v: string)
    requires SafeField(v)
    ensures SafeField(DropTrailingComma(v))
  {
    var u := DropTrailingComma(v);
    forall i | 0 <= i <= |u| ensures !OccursAt(u, "timestamp", i) {
      if i + 9 <= |u| {
        assert u[i..i + 9] == v[i..i + 9];
        assert !OccursAt(v, "timestamp", i);
      }
    }
  }

  /** What the reader returns of a writable record can be written again. */
  lemma {:induction false} ReadbackWritable(r: FingerprintRecord)
    requires JsonWritable(r)
    ensures JsonWritable(Readback(r, false))
  {
    QuoteSafe(r.kind);
    QuoteSafe(r.host);
    DropCommaSafe(r.fingerprint);
  }

  lemma {:induction false} AllJsonWritableOne(r: FingerprintRecord)
    requires JsonWritable(r)
    ensures AllJsonWritable([r])
  {
  }

  /** As written, each append rewrites the earlier records as the reader saw them, so
      every save adds one more pair of quotes around their timestamp, type and host. */
  lemma {:induction false} AsWrittenAppendRequotes(fs: FileSystem, path: string, rs: seq<FingerprintRecord>, r: FingerprintRecord)
    requires path in fs && fs[path] == JsonFile(rs) && AllJsonWritable(rs)
    ensures AppendRecord(fs, path, r, false)[path] == JsonFile(ReadbackAll(rs, false) + [r])
  {
    JsonFileRead(rs, false);
  }

  /** As written, appending to a file of writable records reads back as the earlier
      records quoted twice and the new one quoted once. */
  lemma {:induction false} AsWrittenAppendRead(fs: FileSystem, path: string, rs: seq<FingerprintRecord>, r: FingerprintRecord)
    requires path in fs && fs[path] == JsonFile(rs) && AllJsonWritable(rs)
    requires AllJsonWritable(ReadbackAll(rs, false)) && JsonWritable(r)
    ensures ReadJson(AppendRecord(fs, path, r, false), path, false) == ReadbackAll(ReadbackAll(rs, false) + [r], false)
  {
    var saved := ReadbackAll(rs, false) + [r];
    AsWrittenAppendRequotes(fs, path, rs, r);
    AllJsonWritableSnoc(ReadbackAll(rs, false), r);
    JsonFileRead(saved, false);
  }

  lemma {:induction false} AllJsonWritableSnoc(rs: seq<FingerprintRecord>, r: FingerprintRecord)
    requires AllJsonWritable(rs) && JsonWritable(r)
    ensures AllJsonWritable(rs + [r])
  {
    forall k | 0 <= k < |rs| + 1 ensures JsonWritable((rs + [r])[k]) {
      if k < |rs| { assert (rs + [r])[k] == rs[k]; } else { assert (rs + [r])[k] == r; }
    }
  }

  // ---------------------------------------------------------------- the store

  /** get_csv_path: data_dir + "/" + lower-cased type + "_fingerprints.csv". */
  function CsvPath(dataDir: string, kind: string): string
  {
    dataDir + "/" + ToLower(kind) + "_fingerprints.csv"
  }

  /** get_json_path: the same name ending in ".json". */
  function JsonPath(dataDir: string, kind: string): string
  {
    dataDir + "/" + ToLower(kind) + "_fingerprints.json"
  }

  /** The two files of one type are distinct, and so are the JSON files of TLS and SSH;
      the type's letter case does not matter. */
  lemma {:induction false} StorePaths(dataDir: string, kind: string)
    ensures CsvPath(dataDir, kind) != JsonPath(dataDir, kind)
    ensures JsonPath(dataDir, "TLS") != JsonPath(dataDir, "SSH")
    ensures JsonPath(dataDir, ToLower(kind)) == JsonPath(dataDir, kind)
    ensures CsvPath(dataDir, ToLower(kind)) == CsvPath(dataDir, kind)
  {
    var c := CsvPath(dataDir, kind);
    var j := JsonPath(dataDir, kind);
    assert |c| != |j|;
    assert ToLower("TLS") == "tls" && ToLower("SSH") == "ssh";
    var t := JsonPath(dataDir, "TLS");
    assert t[|dataDir| + 1] == 't' && JsonPath(dataDir, "SSH")[|dataDir| + 1] == 's';
    ToLowerIdempotent(kind);
  }

  /** load_all: the TLS file for "TLS", the SSH file for "SSH", both in that order for
      the empty type, nothing for any other type. */
  function LoadAll(fs: FileSystem, dataDir: string, kind: string): (r: seq<FingerprintRecord>)
    ensures kind != "TLS" && kind != "SSH" && kind != "" ==> r == []
  {
    (if kind == "TLS" || kind == "" then ReadJson(fs, JsonPath(dataDir, "TLS"), true) else []) +
    (if kind == "SSH" || kind == "" then ReadJson(fs, JsonPath(dataDir, "SSH"), true) else [])
  }

  /** A store whose TLS and SSH files were written from the given records loads them
      back: each type alone, or TLS then SSH. */
  lemma {:induction false} LoadAllWritten(fs: FileSystem, dataDir: string, tls: seq<FingerprintRecord>, ssh: seq<FingerprintRecord>)
    requires AllJsonWritable(tls) && AllJsonWritable(ssh)
    requires if JsonPath(dataDir, "TLS") in fs then fs[JsonPath(dataDir, "TLS")] == JsonFile(tls) else tls == []
    requires if JsonPath(dataDir, "SSH") in fs then fs[JsonPath(dataDir, "SSH")] == JsonFile(ssh) else ssh == []
    ensures LoadAll(fs, dataDir, "TLS") == tls
    ensures LoadAll(fs, dataDir, "SSH") == ssh
    ensures LoadAll(fs, dataDir, "") == tls + ssh
  {
    if JsonPath(dataDir, "TLS") in fs {
      JsonFileRead(tls, true);
      ReadbackCorrected(tls);
    }
    if JsonPath(dataDir, "SSH") in fs {
      JsonFileRead(ssh, true);
      ReadbackCorrected(ssh);
    }
    assert tls + [] == tls && [] + ssh == ssh;
  }

  // ---------------------------------------------------------------- load_latest

  /** The index of the record whose fingerprint load_latest keeps for each key: a later
      record replaces the kept one only with a strictly greater timestamp. */
  function LatestIndex(rs: seq<FingerprintRecord>): (m: map<Key, nat>)
    ensures forall k :: k in m ==> m[k] < |rs| && KeyOf(rs[m[k]]) == k
    decreases |rs|
  {
    if rs == [] then map[]
    else
      var m := LatestIndex(rs[..|rs| - 1]);
      var n := |rs| - 1;
      var k := KeyOf(rs[n]);
      if k !in m || StrLess(rs[m[k]].timestamp, rs[n].timestamp) then m[k := n] else m
  }

  /** The map load_latest returns. */
  function Latest(rs: seq<FingerprintRecord>): (latest: map<Key, string>)
    ensures forall k :: k in latest <==> HasKey(rs, k)
    ensures forall k :: k in latest ==> exists i :: 0 <= i < |rs| && KeyOf(rs[i]) == k && rs[i].fingerprint == latest[k]
  {
    LatestIndexKeys(rs);
    var m := LatestIndex(rs);
    map k | k in m :: rs[m[k]].fingerprint
  }

  /** Record i holds the greatest timestamp among the records with key k, and every
      earlier one with that key has a strictly smaller timestamp: the first of the latest. */
  predicate FirstLatest(rs: seq<FingerprintRecord>, k: Key, i: nat)
  {
    i < |rs| && KeyOf(rs[i]) == k &&
    (forall j :: 0 <= j < |rs| && KeyOf(rs[j]) == k ==> !StrLess(rs[i].timestamp, rs[j].timestamp)) &&
    (forall j :: 0 <= j < i && KeyOf(rs[j]) == k ==> StrLess(rs[j].timestamp, rs[i].timestamp))
  }

  predicate HasKey(rs: seq<FingerprintRecord>, k: Key)
  {
    exists i :: 0 <= i < |rs| && KeyOf(rs[i]) == k
  }

  /** One entry per key present. */
  lemma {:induction false} LatestIndexKeys(rs: seq<FingerprintRecord>)
    ensures forall k :: k in LatestIndex(rs) <==> HasKey(rs, k)
    decreases |rs|
  {
    if rs != [] {
      var pre := rs[..|rs| - 1];
      LatestIndexKeys(pre);
      forall k ensures k in LatestIndex(rs) <==> HasKey(rs, k) {
        if HasKey(rs, k) && k != KeyOf(rs[|rs| - 1]) {
          var i :| 0 <= i < |rs| && KeyOf(rs[i]) == k;
          assert pre[i] == rs[i];
        }
        if HasKey(pre, k) {
          var i :| 0 <= i < |pre| && KeyOf(pre[i]) == k;
          assert rs[i] == pre[i];
        }
      }
    }
  }

  /** Each entry's index is the first record with the greatest timestamp for its key. */
  lemma {:induction false} LatestIndexCorrect(rs: seq<FingerprintRecord>)
    ensures forall k :: k in LatestIndex(rs) ==> FirstLatest(rs, k, LatestIndex(rs)[k])
    decreases |rs|
  {
    if rs != [] {
      var pre := rs[..|rs| - 1];
      var r := rs[|rs| - 1];
      LatestIndexCorrect(pre);
      LatestIndexKeys(pre);
      assert pre + [r] == rs;
      forall k | k in LatestIndex(rs) ensures FirstLatest(rs, k, LatestIndex(rs)[k]) {
        LatestStep(pre, r, LatestIndex(pre), k);
      }
    }
  }

  lemma {:induction false} LatestStep(pre: seq<FingerprintRecord>, r: FingerprintRecord, m: map<Key, nat>, k: Key)
    requires m == LatestIndex(pre)
    requires forall k :: k in m <==> HasKey(pre, k)
    requires forall k :: k in m ==> FirstLatest(pre, k, m[k])
    requires k in LatestIndex(pre + [r])
    ensures FirstLatest(pre + [r], k, LatestIndex(pre + [r])[k])
  {
    LatestIndexOfSnoc(pre, r);
    if k != KeyOf(r) {
      FirstLatestKept(pre, r, k, m[k]);
    } else if k !in m {
      FirstLatestNew(pre, r);
    } else if StrLess(pre[m[k]].timestamp, r.timestamp) {
      FirstLatestReplaced(pre, r, m[k]);
    } else {
      FirstLatestKept(pre, r, k, m[k]);
    }
  }

  /** A record that does not beat the kept one leaves it the first of the latest. */
  lemma FirstLatestKept(pre: seq<FingerprintRecord>, r: FingerprintRecord, k: Key, i: nat)
    requires FirstLatest(pre, k, i)
    requires KeyOf(r) == k ==> !StrLess(pre[i].timestamp, r.timestamp)
    ensures FirstLatest(pre + [r], k, i)
  {
    var rs := pre + [r];
    Snoc(pre, r);
    forall j | 0 <= j < |rs| && KeyOf(rs[j]) == k ensures !StrLess(rs[i].timestamp, rs[j].timestamp) {
      if j < |pre| { assert rs[j] == pre[j]; }
    }
    forall j | 0 <= j < i && KeyOf(rs[j]) == k ensures StrLess(rs[j].timestamp, rs[i].timestamp) {
      assert rs[j] == pre[j];
    }
  }

  /** The first record with a new key is the first of the latest for it. */
  lemma FirstLatestNew(pre: seq<FingerprintRecord>, r: FingerprintRecord)
    requires !HasKey(pre, KeyOf(r))
    ensures FirstLatest(pre + [r], KeyOf(r), |pre|)
  {
    var rs := pre + [r];
    Snoc(pre, r);
    forall j | 0 <= j < |pre| ensures KeyOf(rs[j]) != KeyOf(r) {
      assert rs[j] == pre[j];
    }
    StrLessIrreflexive(r.timestamp);
  }

  /** A record with a strictly greater timestamp than the kept one becomes the first
      of the latest. */
  lemma FirstLatestReplaced(pre: seq<FingerprintRecord>, r: FingerprintRecord, i: nat)
    requires FirstLatest(pre, KeyOf(r), i)
    requires StrLess(pre[i].timestamp, r.timestamp)
    ensures FirstLatest(pre + [r], KeyOf(r), |pre|)
  {
    var rs := pre + [r];
    var k := KeyOf(r);
    var w := pre[i].timestamp;
    Snoc(pre, r);
    forall j | 0 <= j < |pre| && KeyOf(rs[j]) == k ensures StrLess(rs[j].timestamp, r.timestamp) {
      assert rs[j] == pre[j];
      StrLessTotal(w, rs[j].timestamp);
      if rs[j].timestamp != w {
        StrLessTransitive(rs[j].timestamp, w, r.timestamp);
      }
    }
    forall j | 0 <= j < |rs| && KeyOf(rs[j]) == k ensures !StrLess(r.timestamp, rs[j].timestamp) {
      if j < |pre| {
        StrLessAsymmetric(rs[j].timestamp, r.timestamp);
      } else {
        StrLessIrreflexive(r.timestamp);
      }
    }
  }

  lemma LatestIndexOfSnoc(pre: seq<FingerprintRecord>, r: FingerprintRecord)
    ensures LatestIndex(pre + [r]) ==
      var m := LatestIndex(pre);
      var k := KeyOf(r);
      if k !in m || StrLess(pre[m[k]].timestamp, r.timestamp) then m[k := |pre|] else m
  {
    Snoc(pre, r);
  }

  /** load_latest's result: one fingerprint per key present, from the first record with
      the greatest timestamp for that key. */
  lemma {:induction false} LatestCorrect(rs: seq<FingerprintRecord>, k: Key)
    ensures k in Latest(rs) <==> HasKey(rs, k)
    ensures k in Latest(rs) ==> exists i: nat :: FirstLatest(rs, k, i) && Latest(rs)[k] == rs[i].fingerprint
  {
    LatestIndexKeys(rs);
    LatestIndexCorrect(rs);
    if k in Latest(rs) {
      var i := LatestIndex(rs)[k];
      assert FirstLatest(rs, k, i);
    }
  }

  /** There is only one first-of-the-latest record for a key, so the result is
      determined by the records. */
  lemma {:induction false} FirstLatestUnique(rs: seq<FingerprintRecord>, k: Key, i: nat, i': nat)
    requires FirstLatest(rs, k, i) && FirstLatest(rs, k, i')
    ensures i == i'
  {
  }

  lemma {:induction false} LatestIndexSnoc(rs: seq<FingerprintRecord>, i: nat)
    requires i < |rs|
    ensures LatestIndex(rs[..i + 1]) ==
      var m := LatestIndex(rs[..i]);
      var k := KeyOf(rs[i]);
      if k !in m || StrLess(rs[m[k]].timestamp, rs[i].timestamp) then m[k := i] else m
  {
    assert rs[..i + 1][..i] == rs[..i];
  }

  /** FingerprintStorage::load_latest: the loop over the loaded records keeping
      (timestamp, fingerprint) per key, then the fingerprints alone. */
  method LoadLatest(fs: FileSystem, dataDir: string, kind: string) returns (result: map<Key, string>)
    ensures result == Latest(LoadAll(fs, dataDir, kind))
  {
    var records := LoadAll(fs, dataDir, kind);
    result := KeepLatest(records);
  }

  /** The loop of load_latest over the loaded records. */
  method KeepLatest(records: seq<FingerprintRecord>) returns (result: map<Key, string>)
    ensures result == Latest(records)
  {
    var latest: map<Key, (string, string)> := map[];
    ghost var index: map<Key, nat> := map[];
    for i := 0 to |records|
      invariant index == LatestIndex(records[..i])
      invariant latest.Keys == index.Keys
      invariant forall k :: k in index ==> latest[k] == (records[index[k]].timestamp, records[index[k]].fingerprint)
    {
      var record := records[i];
      var key := KeyOf(record);
      LatestIndexSnoc(records, i);
      if key !in latest || StrLess(latest[key].0, record.timestamp) {
        latest := latest[key := (record.timestamp, record.fingerprint)];
        index := index[key := i];
      }
    }
    assert records[..|records|] == records;
    result := map k | k in latest :: latest[k].1;
    LatestOfPairs(records, index, latest);
  }

  lemma LatestOfPairs(records: seq<FingerprintRecord>, index: map<Key, nat>, latest: map<Key, (string, string)>)
    requires index == LatestIndex(records)
    requires latest.Keys == index.Keys
    requires forall k :: k in index ==> latest[k] == (records[index[k]].timestamp, records[index[k]].fingerprint)
    ensures (map k | k in latest :: latest[k].1) == Latest(records)
  {
  }
}
