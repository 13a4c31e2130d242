/** The baseline tool: the baseline file (the latest fingerprint per (type, host, port)
    written as JSON), reading it back into a map, classifying current fingerprints against
    it, and the diff command's exit code and alert decision. */
module BaselineDiff {
  import opened Wrappers
  import opened Text
  import opened Utils
  import opened KeyOrder
  import opened FingerprintCommon

  type Fingerprints = map<Key, string>

  // ---------------------------------------------------------------- load_baseline

  /** The map load_baseline builds: each record sets its key, a later record
      overwriting an earlier one. */
  function BaselineOf(rs: seq<FingerprintRecord>): (b: Fingerprints)
    ensures rs != [] ==> var last := rs[|rs| - 1]; KeyOf(last) in b && b[KeyOf(last)] == last.fingerprint
    decreases |rs|
  {
    if rs == [] then map[]
    else BaselineOf(rs[..|rs| - 1])[KeyOf(rs[|rs| - 1]) := rs[|rs| - 1].fingerprint]
  }

  /** The last record with a key decides its fingerprint. */
  predicate LastWithKey(rs: seq<FingerprintRecord>, k: Key, i: nat)
  {
    i < |rs| && KeyOf(rs[i]) == k && forall j :: i < j < |rs| ==> KeyOf(rs[j]) != k
  }

  lemma {:induction false} BaselineOfCorrect(rs: seq<FingerprintRecord>, k: Key)
    ensures k in BaselineOf(rs) <==> HasKey(rs, k)
    ensures k in BaselineOf(rs) ==> exists i: nat :: LastWithKey(rs, k, i) && BaselineOf(rs)[k] == rs[i].fingerprint
    decreases |rs|
  {
    if rs != [] {
      var pre := rs[..|rs| - 1];
      var n := |rs| - 1;
      BaselineOfCorrect(pre, k);
      if KeyOf(rs[n]) == k {
        assert LastWithKey(rs, k, n);
      } else {
        if HasKey(rs, k) {
          var i :| 0 <= i < |rs| && KeyOf(rs[i]) == k;
          assert pre[i] == rs[i];
        }
        if HasKey(pre, k) {
          var i :| 0 <= i < |pre| && KeyOf(pre[i]) == k;
          assert rs[i] == pre[i];
          var w: nat :| LastWithKey(pre, k, w) && BaselineOf(pre)[k] == pre[w].fingerprint;
          assert rs[w] == pre[w];
          forall j | w < j < |rs| ensures KeyOf(rs[j]) != k {
            if j < n { assert rs[j] == pre[j]; }
          }
          assert LastWithKey(rs, k, w);
        }
      }
    }
  }

  lemma {:induction false} BaselineOfSnoc(rs: seq<FingerprintRecord>, i: nat)
    requires i < |rs|
    ensures BaselineOf(rs[..i + 1]) == BaselineOf(rs[..i])[KeyOf(rs[i]) := rs[i].fingerprint]
  {
    assert rs[..i + 1][..i] == rs[..i];
  }

  /** The baseline held at path: empty when there is no file. */
  function BaselineAt(fs: FileSystem, path: string): (b: Fingerprints)
    ensures path !in fs ==> b == map[]
  {
    if path in fs then BaselineOf(ReadJson(fs, path, true)) else map[]
  }

  /** BaselineManager::load_baseline: no file gives the empty map; otherwise the records
      of the file, read with the corrected value cleanup, fill the map in order. */
  method LoadBaseline(fs: FileSystem, path: string) returns (baseline: Fingerprints)
    ensures path !in fs ==> baseline == map[]
    ensures path in fs ==> baseline == BaselineOf(ReadJson(fs, path, true))
    ensures baseline == BaselineAt(fs, path)
  {
    baseline := map[];
    if path !in fs {
      return;
    }
    var records := JsonReadAll(Lines(fs[path]), true);
    baseline := FillBaseline(records);
  }

  /** load_baseline's loop: each record in turn sets its key. */
  method FillBaseline(records: seq<FingerprintRecord>) returns (baseline: Fingerprints)
    ensures baseline == BaselineOf(records)
  {
    baseline := map[];
    for i := 0 to |records|
      invariant baseline == BaselineOf(records[..i])
    {
      BaselineOfSnoc(records, i);
      var record := records[i];
      baseline := baseline[KeyOf(record) := record.fingerprint];
    }
    assert records[..|records|] == records;
  }

  // ---------------------------------------------------------------- the baseline file

  /** The seven lines create_baseline writes per record: type, host, port, fingerprint
      (followed by ','), and the record's timestamp as baseline_date. */
  function BaselineRecordLines(r: FingerprintRecord, last: bool): (ls: seq<string>)
    ensures |ls| == 7
  {
    ["  {",
     StringLine("type", r.kind, true),
     StringLine("host", r.host, true),
     KeyLine("port", IntToString(r.port) + ","),
     StringLine("fingerprint", r.fingerprint, true),
     StringLine("baseline_date", r.timestamp, false),
     if last then "  }" else "  },"]
  }

  function BaselineRecordsLines(rs: seq<FingerprintRecord>): seq<string>
    decreases |rs|
  {
    if rs == [] then [] else BaselineRecordLines(rs[0], |rs| == 1) + BaselineRecordsLines(rs[1..])
  }

  function BaselineFileLines(rs: seq<FingerprintRecord>): seq<string>
  {
    ["["] + BaselineRecordsLines(rs) + ["]"]
  }

  /** The whole baseline file for a list of records. */
  function BaselineFile(rs: seq<FingerprintRecord>): string
  {
    Unlines(BaselineFileLines(rs))
  }

  /** The records create_baseline writes: one per entry of the latest map, in ascending
      key order, each stamped with the current time. */
  ghost function BaselineRecords(latest: Fingerprints, now: string): (rs: seq<FingerprintRecord>)
    ensures |rs| == |latest|
  {
    var ks := Ascending(latest.Keys);
    seq(|ks|, i requires 0 <= i < |ks| => FingerprintRecord(now, ks[i].0, ks[i].1, ks[i].2, latest[ks[i]]))
  }

  predicate BaselineWritable(r: FingerprintRecord)
  {
    JsonWritable(r) && !Contains(r.timestamp, "timestamp")
  }

  predicate AllBaselineWritable(rs: seq<FingerprintRecord>)
  {
    forall k :: 0 <= k < |rs| ==> BaselineWritable(rs[k])
  }

  /** What the reader makes of a baseline record: no timestamp (baseline_date matches no
      field); corrected, the rest as written; as written, type, host and fingerprint inside
      their quotes, since all three lines end in ','. */
  function BaselineReadback(r: FingerprintRecord, corrected: bool): FingerprintRecord
  {
    if corrected then r.(timestamp := "")
    else FingerprintRecord("", Quote(r.kind), Quote(r.host), r.port, Quote(r.fingerprint))
  }

  function BaselineReadbackAll(rs: seq<FingerprintRecord>, corrected: bool): (r: seq<FingerprintRecord>)
    ensures |r| == |rs|
    decreases |rs|
  {
    if rs == [] then [] else [BaselineReadback(rs[0], corrected)] + BaselineReadbackAll(rs[1..], corrected)
  }

  /** A field name holding a letter that "baseline_date" lacks is not found in its key. */
  lemma {:induction false} DateKeyMisses(p: string, c: char)
    requires c in p && c != '"' && c !in "baseline_date"
    ensures !Contains(Quote("baseline_date"), p)
  {
    var q := Quote("baseline_date");
    forall k | 0 <= k < |q| ensures q[k] != c {
      if 0 < k < |q| - 1 { assert q[k] == "baseline_date"[k - 1]; }
    }
    MissingCharNotContained(q, p, c);
  }

  /** The baseline_date key names none of the fields the reader knows. */
  lemma {:induction false} DateKey(rec: FingerprintRecord, v: string)
    ensures AssignField(rec, Quote("baseline_date"), v) == rec
  {
    assert !Contains(Quote("baseline_date"), "timestamp") by { DateKeyMisses("timestamp", 'm'); }
    assert !Contains(Quote("baseline_date"), "type") by { DateKeyMisses("type", 'y'); }
    assert !Contains(Quote("baseline_date"), "host") by { DateKeyMisses("host", 'h'); }
    assert !Contains(Quote("baseline_date"), "port") by { DateKeyMisses("port", 'o'); }
    assert !Contains(Quote("baseline_date"), "fingerprint") by { DateKeyMisses("fingerprint", 'f'); }
  }

  lemma {:induction false} RunFingerprintComma(st: JsonState, r: FingerprintRecord, rest: seq<string>, corrected: bool)
    requires st.inRecord && JsonWritable(r)
    ensures JsonRun(st, [StringLine("fingerprint", r.fingerprint, true)] + rest, corrected) ==
      JsonRun(JsonState(st.records, st.record.(fingerprint := BaselineReadback(r, corrected).fingerprint), true), rest, corrected)
  {
    var v := BaselineReadback(r, corrected).fingerprint;
    var next := JsonState(st.records, st.record.(fingerprint := v), true);
    JsonStepString(st, "fingerprint", r.fingerprint, true, 'm', corrected);
    CleanStringValue(r.fingerprint, true, corrected);
    FingerprintKey(st.record, v);
    JsonRunLine(st, StringLine("fingerprint", r.fingerprint, true), rest, next, corrected);
  }

  lemma {:induction false} RunBaselineDate(st: JsonState, r: FingerprintRecord, rest: seq<string>, corrected: bool)
    requires st.inRecord && BaselineWritable(r)
    ensures JsonRun(st, [StringLine("baseline_date", r.timestamp, false)] + rest, corrected) == JsonRun(st, rest, corrected)
  {
    JsonStepString(st, "baseline_date", r.timestamp, false, 'm', corrected);
    DateKey(st.record, CleanValue(Quote(r.timestamp), corrected));
    assert Quote(r.timestamp) + "" == Quote(r.timestamp);
    JsonRunLine(st, StringLine("baseline_date", r.timestamp, false), rest, st, corrected);
  }

  /** The seven lines of one baseline record add that record, as the reader sees it. */
  lemma {:induction false} BaselineReadRecord(st: JsonState, r: FingerprintRecord, last: bool, rest: seq<string>, corrected: bool)
    requires BaselineWritable(r)
    ensures JsonRun(st, BaselineRecordLines(r, last) + rest, corrected) ==
      JsonRun(JsonState(st.records + [BaselineReadback(r, corrected)], BaselineReadback(r, corrected), false), rest, corrected)
  {
    var ls := BaselineRecordLines(r, last);
    var b := BaselineReadback(r, corrected);
    var t6 := [ls[6]] + rest;
    var t5 := [ls[5]] + t6;
    var t4 := [ls[4]] + t5;
    var t3 := [ls[3]] + t4;
    var t2 := [ls[2]] + t3;
    var t1 := [ls[1]] + t2;
    assert ls + rest == [ls[0]] + t1;
    var s1 := JsonState(st.records, BlankRecord, true);
    RunOpen(st, t1, corrected);
    var s2 := JsonState(st.records, s1.record.(kind := b.kind), true);
    RunType(s1, r, t2, corrected);
    var s3 := JsonState(st.records, s2.record.(host := b.host), true);
    RunHost(s2, r, t3, corrected);
    var s4 := JsonState(st.records, s3.record.(port := r.port), true);
    RunPort(s3, r, t4, corrected);
    var s5 := JsonState(st.records, s4.record.(fingerprint := b.fingerprint), true);
    RunFingerprintComma(s4, r, t5, corrected);
    RunBaselineDate(s5, r, t6, corrected);
    assert s5.record == b;
    RunClose(s5, last, rest, corrected);
  }

  lemma {:induction false} BaselineReadbackAllCons(pre: seq<FingerprintRecord>, rs: seq<FingerprintRecord>, corrected: bool)
    requires rs != []
    ensures (pre + [BaselineReadback(rs[0], corrected)]) + BaselineReadbackAll(rs[1..], corrected) ==
      pre + BaselineReadbackAll(rs, corrected)
  {
  }

  lemma {:induction false} AllBaselineWritableTail(rs: seq<FingerprintRecord>)
    requires rs != [] && AllBaselineWritable(rs)
    ensures BaselineWritable(rs[0]) && AllBaselineWritable(rs[1..])
  {
    assert BaselineWritable(rs[0]);
    forall k | 0 <= k < |rs| - 1 ensures BaselineWritable(rs[1..][k]) {
      assert rs[1..][k] == rs[k + 1];
    }
  }

  lemma {:induction false} BaselineReadFirst(st: JsonState, rs: seq<FingerprintRecord>, rest: seq<string>, corrected: bool)
    requires rs != [] && BaselineWritable(rs[0])
    ensures JsonRun(st, BaselineRecordsLines(rs) + rest, corrected) ==
      JsonRun(JsonState(st.records + [BaselineReadback(rs[0], corrected)], BaselineReadback(rs[0], corrected), false),
              BaselineRecordsLines(rs[1..]) + rest, corrected)
  {
    var tail := BaselineRecordsLines(rs[1..]);
    assert BaselineRecordsLines(rs) + rest == BaselineRecordLines(rs[0], |rs| == 1) + (tail + rest);
    BaselineReadRecord(st, rs[0], |rs| == 1, tail + rest, corrected);
  }

  lemma {:induction false} BaselineReadHead(st: JsonState, rs: seq<FingerprintRecord>, corrected: bool)
    requires rs != [] && BaselineWritable(rs[0])
    ensures JsonRun(st, BaselineRecordsLines(rs), corrected) ==
      JsonRun(JsonState(st.records + [BaselineReadback(rs[0], corrected)], BaselineReadback(rs[0], corrected), false),
              BaselineRecordsLines(rs[1..]), corrected)
  {
    BaselineReadFirst(st, rs, [], corrected);
    assert BaselineRecordsLines(rs) + [] == BaselineRecordsLines(rs);
    assert BaselineRecordsLines(rs[1..]) + [] == BaselineRecordsLines(rs[1..]);
  }

  lemma {:induction false} BaselineReadLast(st: JsonState, rs: seq<FingerprintRecord>, corrected: bool)
    requires |rs| == 1 && BaselineWritable(rs[0])
    ensures JsonRun(st, BaselineRecordsLines(rs), corrected) ==
      JsonState(st.records + BaselineReadbackAll(rs, corrected), BaselineReadback(rs[0], corrected), false)
  {
    var b := BaselineReadback(rs[0], corrected);
    BaselineReadHead(st, rs, corrected);
    BaselineReadbackAllCons(st.records, rs, corrected);
    assert (st.records + [b]) + [] == st.records + [b];
  }

  lemma {:induction false} BaselineReadRecords(st: JsonState, rs: seq<FingerprintRecord>, corrected: bool)
    requires rs != [] && AllBaselineWritable(rs)
    ensures JsonRun(st, BaselineRecordsLines(rs), corrected) ==
      JsonState(st.records + BaselineReadbackAll(rs, corrected), BaselineReadback(rs[|rs| - 1], corrected), false)
    decreases |rs|, 1
  {
    if |rs| == 1 {
      BaselineReadLast(st, rs, corrected);
    } else {
      BaselineReadMore(st, rs, corrected);
    }
  }

  lemma {:induction false} BaselineReadMore(st: JsonState, rs: seq<FingerprintRecord>, corrected: bool)
    requires |rs| > 1 && AllBaselineWritable(rs)
    ensures JsonRun(st, BaselineRecordsLines(rs), corrected) ==
      JsonState(st.records + BaselineReadbackAll(rs, corrected), BaselineReadback(rs[|rs| - 1], corrected), false)
    decreases |rs|, 0
  {
    assert BaselineWritable(rs[0]) && AllBaselineWritable(rs[1..]) by { AllBaselineWritableTail(rs); }
    var b := BaselineReadback(rs[0], corrected);
    var rs' := rs[1..];
    var s1 := JsonState(st.records + [b], b, false);
    assert JsonRun(st, BaselineRecordsLines(rs), corrected) == JsonRun(s1, BaselineRecordsLines(rs'), corrected) by {
      BaselineReadHead(st, rs, corrected);
    }
    assert JsonRun(s1, BaselineRecordsLines(rs'), corrected) ==
      JsonState(s1.records + BaselineReadbackAll(rs', corrected), BaselineReadback(rs'[|rs'| - 1], corrected), false) by {
      BaselineReadRecords(s1, rs', corrected);
    }
    assert s1.records + BaselineReadbackAll(rs', corrected) == st.records + BaselineReadbackAll(rs, corrected) by {
      BaselineReadbackAllCons(st.records, rs, corrected);
    }
    assert rs'[|rs'| - 1] == rs[|rs| - 1];
  }

  lemma {:induction false} BaselineRecordLinesNoNewline(r: FingerprintRecord, last: bool)
    requires BaselineWritable(r)
    ensures NoNewline(BaselineRecordLines(r, last))
  {
    StringLineNoNewline("type", r.kind, true);
    StringLineNoNewline("host", r.host, true);
    var d := IntToString(r.port);
    assert '\n' !in d by {
      assert forall k :: 0 <= k < |d| ==> d[k] == '-' || IsDigit(d[k]);
    }
    assert KeyLine("port", d + ",") == "    \"port\": " + d + ",";
    StringLineNoNewline("fingerprint", r.fingerprint, true);
    StringLineNoNewline("baseline_date", r.timestamp, false);
  }

  lemma {:induction false} BaselineRecordsLinesNoNewline(rs: seq<FingerprintRecord>)
    requires AllBaselineWritable(rs)
    ensures NoNewline(BaselineRecordsLines(rs))
    decreases |rs|
  {
    if rs != [] {
      AllBaselineWritableTail(rs);
      BaselineRecordLinesNoNewline(rs[0], |rs| == 1);
      BaselineRecordsLinesNoNewline(rs[1..]);
      var a := BaselineRecordLines(rs[0], |rs| == 1);
      var b := BaselineRecordsLines(rs[1..]);
      forall k | 0 <= k < |a + b| ensures '\n' !in (a + b)[k] {
        if k < |a| { assert (a + b)[k] == a[k]; } else { assert (a + b)[k] == b[k - |a|]; }
      }
    }
  }

  /** The record lines of a baseline file leave the reader outside a record, holding the
      records as it sees them. */
  lemma {:induction false} BaselineBodyRead(rs: seq<FingerprintRecord>, corrected: bool)
    requires AllBaselineWritable(rs)
    ensures JsonRun(JsonStart, BaselineRecordsLines(rs), corrected).records == BaselineReadbackAll(rs, corrected)
    ensures !JsonRun(JsonStart, BaselineRecordsLines(rs), corrected).inRecord
  {
    if rs != [] {
      BaselineReadRecords(JsonStart, rs, corrected);
    }
  }

  lemma {:induction false} BaselineFileLinesSplit(rs: seq<FingerprintRecord>)
    requires AllBaselineWritable(rs)
    ensures Lines(BaselineFile(rs)) == ["["] + (BaselineRecordsLines(rs) + ["]"])
  {
    var body := BaselineRecordsLines(rs);
    var ls := BaselineFileLines(rs);
    BaselineRecordsLinesNoNewline(rs);
    forall k | 0 <= k < |ls| ensures '\n' !in ls[k] {
      if 0 < k < |ls| - 1 { assert ls[k] == body[k - 1]; }
    }
    LinesOfUnlines(ls);
    assert ls == ["["] + (body + ["]"]);
  }

  /** Between the opening and closing bracket lines, the reader keeps what the lines in
      between give it. */
  lemma {:induction false} BracketedRun(st: JsonState, body: seq<string>, corrected: bool)
    requires !st.inRecord && !JsonRun(st, body, corrected).inRecord
    ensures JsonRun(st, ["["] + (body + ["]"]), corrected) == JsonRun(st, body, corrected)
  {
    var fin := JsonRun(st, body, corrected);
    RunBracket(st, "[", body + ["]"], corrected);
    JsonRunAppend(st, body, ["]"], corrected);
    RunCloseBracket(fin, corrected);
  }

  /** The closing bracket line alone changes nothing. */
  lemma {:induction false} RunCloseBracket(st: JsonState, corrected: bool)
    requires !st.inRecord
    ensures JsonRun(st, ["]"], corrected) == st
  {
    assert ["]"] == ["]"] + [];
    RunBracket(st, "]", [], corrected);
  }

  /** A baseline file reads back as its records, as the reader sees them. */
  lemma {:induction false} BaselineFileRead(rs: seq<FingerprintRecord>, corrected: bool)
    requires AllBaselineWritable(rs)
    ensures JsonRecords(Lines(BaselineFile(rs)), corrected) == BaselineReadbackAll(rs, corrected)
  {
    BaselineFileLinesSplit(rs);
    BaselineBodyRead(rs, corrected);
    BracketedRun(JsonStart, BaselineRecordsLines(rs), corrected);
  }

  lemma {:induction false} BaselineReadbackAllAt(rs: seq<FingerprintRecord>, corrected: bool, i: nat)
    requires i < |rs|
    ensures BaselineReadbackAll(rs, corrected)[i] == BaselineReadback(rs[i], corrected)
    decreases i
  {
    if i > 0 {
      BaselineReadbackAllAt(rs[1..], corrected, i - 1);
    }
  }

  // ---------------------------------------------------------------- compare

  datatype DiffResult = DiffResult(changed: seq<FingerprintRecord>, newRecords: seq<FingerprintRecord>, unchangedRecords: seq<FingerprintRecord>)

  /** Which list of a DiffResult a key belongs to. */
  datatype Verdict = Changed | New | Unchanged

  /** A key absent from the baseline is new; present with another fingerprint, changed;
      present with the same one, unchanged. */
  function VerdictFor(baseline: Fingerprints, k: Key, fp: string): Verdict
  {
    if k !in baseline then New else if baseline[k] != fp then Changed else Unchanged
  }

  function Selected(d: DiffResult, v: Verdict): seq<FingerprintRecord>
  {
    match v
    case Changed => d.changed
    case New => d.newRecords
    case Unchanged => d.unchangedRecords
  }

  /** d with r put in front of list v. */
  function AddFront(d: DiffResult, v: Verdict, r: FingerprintRecord): (e: DiffResult)
    ensures forall w :: Selected(e, w) == if w == v then [r] + Selected(d, w) else Selected(d, w)
    ensures |e.changed| + |e.newRecords| + |e.unchangedRecords| == |d.changed| + |d.newRecords| + |d.unchangedRecords| + 1
  {
    match v
    case Changed => d.(changed := [r] + d.changed)
    case New => d.(newRecords := [r] + d.newRecords)
    case Unchanged => d.(unchangedRecords := [r] + d.unchangedRecords)
  }

  /** d with r put at the end of list v. */
  function AddBack(d: DiffResult, v: Verdict, r: FingerprintRecord): (e: DiffResult)
    ensures forall w :: Selected(e, w) == if w == v then Selected(d, w) + [r] else Selected(d, w)
  {
    match v
    case Changed => d.(changed := d.changed + [r])
    case New => d.(newRecords := d.newRecords + [r])
    case Unchanged => d.(unchangedRecords := d.unchangedRecords + [r])
  }

  /** The record compare reports for a key: no timestamp, the current fingerprint. */
  function RecordFor(k: Key, fp: string): (r: FingerprintRecord)
    ensures KeyOf(r) == k && r.fingerprint == fp && r.timestamp == ""
  {
    FingerprintRecord("", k.0, k.1, k.2, fp)
  }

  /** The three lists compare produces for the keys ks of current, in the order of ks. */
  function Classify(baseline: Fingerprints, current: Fingerprints, ks: seq<Key>): (d: DiffResult)
    requires forall i :: 0 <= i < |ks| ==> ks[i] in current
    ensures |d.changed| + |d.newRecords| + |d.unchangedRecords| == |ks|
    decreases |ks|
  {
    if ks == [] then DiffResult([], [], [])
    else AddFront(Classify(baseline, current, ks[1..]), VerdictFor(baseline, ks[0], current[ks[0]]),
                  RecordFor(ks[0], current[ks[0]]))
  }

  /** What compare returns: the keys of current visited in ascending order. */
  ghost function Diff(baseline: Fingerprints, current: Fingerprints): (d: DiffResult)
    ensures |d.changed| + |d.newRecords| + |d.unchangedRecords| == |current|
  {
    Classify(baseline, current, Ascending(current.Keys))
  }

  function Concat(a: DiffResult, b: DiffResult): DiffResult
  {
    DiffResult(a.changed + b.changed, a.newRecords + b.newRecords, a.unchangedRecords + b.unchangedRecords)
  }

  function Keys(rs: seq<FingerprintRecord>): (ks: seq<Key>)
    ensures |ks| == |rs| && forall i :: 0 <= i < |rs| ==> ks[i] == KeyOf(rs[i])
  {
    seq(|rs|, i requires 0 <= i < |rs| => KeyOf(rs[i]))
  }

  /** Every record reports its key's current fingerprint, without a timestamp. */
  predicate Reports(rs: seq<FingerprintRecord>, current: Fingerprints)
  {
    forall i :: 0 <= i < |rs| ==>
      (rs[i].timestamp == "" && KeyOf(rs[i]) in current && rs[i].fingerprint == current[KeyOf(rs[i])])
  }

  predicate Increasing(ks: seq<Key>)
  {
    forall i, j :: 0 <= i < j < |ks| ==> KeyLess(ks[i], ks[j])
  }

  lemma {:induction false} ReportsCons(r: FingerprintRecord, rs: seq<FingerprintRecord>, current: Fingerprints)
    requires Reports([r], current) && Reports(rs, current)
    ensures Reports([r] + rs, current)
  {
    forall i | 0 <= i < |[r] + rs| ensures ([r] + rs)[i] == (if i == 0 then r else rs[i - 1]) {}
  }

  lemma {:induction false} KeysCons(r: FingerprintRecord, rs: seq<FingerprintRecord>)
    ensures Keys([r] + rs) == [KeyOf(r)] + Keys(rs)
  {
  }

  /** Each key of ks lands in exactly one list, the one its verdict names, as a record
      reporting its current fingerprint. */
  lemma {:induction false} ClassifyPartition(baseline: Fingerprints, current: Fingerprints, ks: seq<Key>)
    requires forall i :: 0 <= i < |ks| ==> ks[i] in current
    ensures var d := Classify(baseline, current, ks);
      |d.changed| + |d.newRecords| + |d.unchangedRecords| == |ks|
    ensures var d := Classify(baseline, current, ks);
      forall v :: Reports(Selected(d, v), current)
    ensures var d := Classify(baseline, current, ks);
      forall v, k :: k in Keys(Selected(d, v)) <==> k in ks && VerdictFor(baseline, k, current[k]) == v
    decreases |ks|
  {
    if ks != [] {
      var d := Classify(baseline, current, ks[1..]);
      ClassifyPartition(baseline, current, ks[1..]);
      var k0 := ks[0];
      var v0 := VerdictFor(baseline, k0, current[k0]);
      var r := RecordFor(k0, current[k0]);
      assert Reports([r], current);
      forall v ensures Reports(Selected(Classify(baseline, current, ks), v), current)
        && Keys(Selected(Classify(baseline, current, ks), v)) ==
          if v == v0 then [k0] + Keys(Selected(d, v)) else Keys(Selected(d, v))
      {
        if v == v0 {
          ReportsCons(r, Selected(d, v), current);
          KeysCons(r, Selected(d, v));
        }
      }
      assert forall k :: k in ks <==> k == k0 || k in ks[1..];
    }
  }

  lemma {:induction false} IncreasingCons(k: Key, ks: seq<Key>)
    requires Increasing(ks) && forall j :: 0 <= j < |ks| ==> KeyLess(k, ks[j])
    ensures Increasing([k] + ks)
  {
    forall i, j | 0 <= i < j < |[k] + ks| ensures KeyLess(([k] + ks)[i], ([k] + ks)[j]) {
      assert ([k] + ks)[j] == ks[j - 1];
      if i > 0 { assert ([k] + ks)[i] == ks[i - 1]; }
    }
  }

  lemma {:induction false} IncreasingTail(ks: seq<Key>)
    requires Increasing(ks) && ks != []
    ensures Increasing(ks[1..]) && forall k :: k in ks[1..] ==> KeyLess(ks[0], k)
  {
    forall i, j | 0 <= i < j < |ks[1..]| ensures KeyLess(ks[1..][i], ks[1..][j]) {
      assert ks[1..][i] == ks[i + 1] && ks[1..][j] == ks[j + 1];
    }
    forall k | k in ks[1..] ensures KeyLess(ks[0], k) {
      var j :| 0 <= j < |ks[1..]| && ks[1..][j] == k;
      assert ks[1..][j] == ks[j + 1];
    }
  }

  /** A key below every key of rest may go in front of increasing keys drawn from rest. */
  lemma {:induction false} IncreasingPush(k: Key, ks: seq<Key>, rest: seq<Key>)
    requires Increasing(ks) && forall k' :: k' in rest ==> KeyLess(k, k')
    requires forall k' :: k' in ks ==> k' in rest
    ensures Increasing([k] + ks)
  {
    forall j | 0 <= j < |ks| ensures KeyLess(k, ks[j]) {
      assert ks[j] in ks;
    }
    IncreasingCons(k, ks);
  }

  /** Keys visited in increasing order give three lists in increasing key order. */
  lemma {:induction false} ClassifyOrdered(baseline: Fingerprints, current: Fingerprints, ks: seq<Key>)
    requires forall i :: 0 <= i < |ks| ==> ks[i] in current
    requires Increasing(ks)
    ensures forall v :: Increasing(Keys(Selected(Classify(baseline, current, ks), v)))
    decreases |ks|
  {
    if ks != [] {
      var rest := ks[1..];
      var d := Classify(baseline, current, rest);
      IncreasingTail(ks);
      ClassifyOrdered(baseline, current, rest);
      ClassifyPartition(baseline, current, rest);
      var k0 := ks[0];
      var v0 := VerdictFor(baseline, k0, current[k0]);
      var r := RecordFor(k0, current[k0]);
      forall v ensures Increasing(Keys(Selected(Classify(baseline, current, ks), v))) {
        if v == v0 {
          KeysCons(r, Selected(d, v));
          IncreasingPush(k0, Keys(Selected(d, v)), rest);
        }
      }
    }
  }

  /** Each key of current is in the list its verdict names, and in no other. */
  ghost predicate Partitions(d: DiffResult, baseline: Fingerprints, current: Fingerprints)
  {
    forall v, k :: k in Keys(Selected(d, v)) <==> k in current && VerdictFor(baseline, k, current[k]) == v
  }

  lemma {:induction false} DiffMembers(baseline: Fingerprints, current: Fingerprints)
    ensures Partitions(Diff(baseline, current), baseline, current)
    ensures var d := Diff(baseline, current);
      |d.changed| + |d.newRecords| + |d.unchangedRecords| == |current| && forall v :: Reports(Selected(d, v), current)
  {
    ClassifyPartition(baseline, current, Ascending(current.Keys));
  }

  lemma {:induction false} DiffOrdered(baseline: Fingerprints, current: Fingerprints)
    ensures forall v :: Increasing(Keys(Selected(Diff(baseline, current), v)))
  {
    AscendingIncreases(current.Keys);
    ClassifyOrdered(baseline, current, Ascending(current.Keys));
  }

  /** The verdicts spelled out list by list. */
  lemma {:induction false} PartitionsSpelled(d: DiffResult, baseline: Fingerprints, current: Fingerprints)
    requires Partitions(d, baseline, current)
    ensures forall k ::
      (k in Keys(d.changed) <==> k in current && k in baseline && baseline[k] != current[k]) &&
      (k in Keys(d.newRecords) <==> k in current && k !in baseline) &&
      (k in Keys(d.unchangedRecords) <==> k in current && k in baseline && baseline[k] == current[k])
  {
    assert d.changed == Selected(d, Changed) && d.newRecords == Selected(d, New) && d.unchangedRecords == Selected(d, Unchanged);
    forall k
      ensures (k in Keys(d.changed) <==> k in current && k in baseline && baseline[k] != current[k]) &&
        (k in Keys(d.newRecords) <==> k in current && k !in baseline) &&
        (k in Keys(d.unchangedRecords) <==> k in current && k in baseline && baseline[k] == current[k])
    {
      assert k in Keys(Selected(d, Changed)) <==> k in current && VerdictFor(baseline, k, current[k]) == Changed;
      assert k in Keys(Selected(d, New)) <==> k in current && VerdictFor(baseline, k, current[k]) == New;
      assert k in Keys(Selected(d, Unchanged)) <==> k in current && VerdictFor(baseline, k, current[k]) == Unchanged;
    }
  }

  lemma {:induction false} SelectedSpelled(d: DiffResult, current: Fingerprints)
    requires forall v :: Reports(Selected(d, v), current) && Increasing(Keys(Selected(d, v)))
    ensures Reports(d.changed, current) && Reports(d.newRecords, current) && Reports(d.unchangedRecords, current)
    ensures Increasing(Keys(d.changed)) && Increasing(Keys(d.newRecords)) && Increasing(Keys(d.unchangedRecords))
  {
    assert d.changed == Selected(d, Changed) && d.newRecords == Selected(d, New) && d.unchangedRecords == Selected(d, Unchanged);
  }

  /** compare partitions the keys of current: the three sizes add up to |current|, each key
      is in the list its baseline entry calls for (and so in no other), keys only in the
      baseline appear nowhere, every record carries the current fingerprint, and every list
      is in ascending key order. */
  lemma {:induction false} DiffPartition(baseline: Fingerprints, current: Fingerprints)
    ensures var d := Diff(baseline, current);
      |d.changed| + |d.newRecords| + |d.unchangedRecords| == |current| &&
      Reports(d.changed, current) && Reports(d.newRecords, current) && Reports(d.unchangedRecords, current)
    ensures var d := Diff(baseline, current);
      forall k :: (k in Keys(d.changed) <==> k in current && k in baseline && baseline[k] != current[k]) &&
        (k in Keys(d.newRecords) <==> k in current && k !in baseline) &&
        (k in Keys(d.unchangedRecords) <==> k in current && k in baseline && baseline[k] == current[k])
    ensures var d := Diff(baseline, current);
      Increasing(Keys(d.changed)) && Increasing(Keys(d.newRecords)) && Increasing(Keys(d.unchangedRecords))
  {
    var d := Diff(baseline, current);
    DiffMembers(baseline, current);
    DiffOrdered(baseline, current);
    PartitionsSpelled(d, baseline, current);
    SelectedSpelled(d, current);
  }

  /** Appending at the back of the visited part is putting in front of what is left. */
  lemma {:induction false} ConcatShift(a: DiffResult, v: Verdict, r: FingerprintRecord, b: DiffResult)
    ensures Concat(AddBack(a, v, r), b) == Concat(a, AddFront(b, v, r))
  {
  }

  lemma {:induction false} CompareStep(baseline: Fingerprints, current: Fingerprints, remaining: set<Key>, k: Key, result: DiffResult)
    requires remaining <= current.Keys && IsLeast(k, remaining)
    ensures Concat(result, Classify(baseline, current, Ascending(remaining))) ==
      Concat(AddBack(result, VerdictFor(baseline, k, current[k]), RecordFor(k, current[k])),
             Classify(baseline, current, Ascending(remaining - {k})))
  {
    AscendingFromLeast(remaining, k);
    var ks := Ascending(remaining);
    assert ks[0] == k && ks[1..] == Ascending(remaining - {k});
    ConcatShift(result, VerdictFor(baseline, k, current[k]), RecordFor(k, current[k]),
                Classify(baseline, current, Ascending(remaining - {k})));
  }

  /** Nothing appended yet in front of a result leaves it as it is. */
  lemma {:induction false} ConcatEmpty(b: DiffResult)
    ensures Concat(DiffResult([], [], []), b) == b
  {
    assert [] + b.changed == b.changed && [] + b.newRecords == b.newRecords;
    assert [] + b.unchangedRecords == b.unchangedRecords;
  }

  lemma {:induction false} CompareDone(baseline: Fingerprints, current: Fingerprints, remaining: set<Key>, result: DiffResult, target: DiffResult)
    requires remaining == {} && Concat(result, Classify(baseline, current, Ascending(remaining))) == target
    ensures result == target
  {
    assert Ascending(remaining) == [];
    assert Concat(result, DiffResult([], [], [])) == result;
  }

  /** BaselineManager::compare: visits the keys of current in ascending order, appending
      each key's record to changed, unchanged or new_records. */
  method Compare(baseline: Fingerprints, current: Fingerprints) returns (result: DiffResult)
    ensures result == Diff(baseline, current)
  {
    result := DiffResult([], [], []);
    var remaining := current.Keys;
    ghost var target := Diff(baseline, current);
    ConcatEmpty(target);
    while remaining != {}
      invariant remaining <= current.Keys
      invariant Concat(result, Classify(baseline, current, Ascending(remaining))) == target
      decreases |remaining|
    {
      LeastExists(remaining);
      var k :| k in remaining && IsLeast(k, remaining);
      CompareStep(baseline, current, remaining, k, result);
      ghost var before := result;
      var record := RecordFor(k, current[k]);
      if k in baseline {
        var baselineFp := baseline[k];
        if baselineFp != current[k] {
          result := result.(changed := result.changed + [record]);
        } else {
          result := result.(unchangedRecords := result.unchangedRecords + [record]);
        }
      } else {
        result := result.(newRecords := result.newRecords + [record]);
      }
      assert result == AddBack(before, VerdictFor(baseline, k, current[k]), record);
      remaining := remaining - {k};
    }
    CompareDone(baseline, current, remaining, result, target);
  }

  // ---------------------------------------------------------------- the diff action

  lemma {:induction false} EmptyKeys(rs: seq<FingerprintRecord>)
    ensures rs == [] <==> forall k :: k !in Keys(rs)
  {
    if rs != [] {
      assert Keys(rs)[0] in Keys(rs);
    }
  }

  /** Some key of current has another fingerprint in the baseline. */
  predicate SomeChanged(baseline: Fingerprints, current: Fingerprints)
  {
    exists k :: k in current && k in baseline && baseline[k] != current[k]
  }

  /** Some key of current is missing from the baseline or has another fingerprint there. */
  predicate SomeDifferent(baseline: Fingerprints, current: Fingerprints)
  {
    exists k :: k in current && (k !in baseline || baseline[k] != current[k])
  }

  /** changed is empty exactly when no key of current has another fingerprint in the
      baseline; changed and new are both empty exactly when every key of current has the
      same fingerprint in the baseline. */
  lemma {:induction false} DiffOutcome(baseline: Fingerprints, current: Fingerprints)
    ensures Diff(baseline, current).changed != [] <==> SomeChanged(baseline, current)
    ensures Diff(baseline, current).changed != [] || Diff(baseline, current).newRecords != [] <==>
      SomeDifferent(baseline, current)
  {
    var d := Diff(baseline, current);
    DiffPartition(baseline, current);
    EmptyKeys(d.changed);
    EmptyKeys(d.newRecords);
  }

  /** The options that ask for alerts; each needs a value after it. */
  predicate IsAlertOption(arg: string)
  {
    arg == "--alert-config" || arg == "--alert-webhook"
  }

  /** Some alert option after the action has a value after it. */
  predicate AlertsAsked(args: seq<string>)
  {
    exists i :: 2 <= i && i + 1 < |args| && IsAlertOption(args[i])
  }

  /** The alert-option scan of main: walks the arguments after the action, consuming the
      value after each alert option; alerts are requested exactly when some alert option
      after the action has a value after it. */
  method AlertRequested(args: seq<string>) returns (sendAlerts: bool)
    ensures sendAlerts <==> AlertsAsked(args)
  {
    sendAlerts := false;
    var i := 2;
    while i < |args|
      invariant 2 <= i
      invariant sendAlerts <==> exists j :: 2 <= j < i && j + 1 < |args| && IsAlertOption(args[j])
      decreases |args| - i
    {
      if IsAlertOption(args[i]) && i + 1 < |args| {
        sendAlerts := true;
        i := i + 1;
      }
      i := i + 1;
    }
  }

  /** The diff action of main: an empty (or missing) baseline exits 1 with nothing sent;
      otherwise the latest fingerprints are compared with it, an alert goes out when alerts
      were requested and something changed or is new, and the exit code is 1 exactly when
      some fingerprint changed. */
  method DiffAction(fs: FileSystem, baselineFile: string, dataDir: string, kind: string, args: seq<string>)
    returns (code: int, alertSent: bool)
    ensures code == 0 || code == 1
    ensures var baseline := BaselineAt(fs, baselineFile);
      code == 1 <==> baseline == map[] || SomeChanged(baseline, Latest(LoadAll(fs, dataDir, kind)))
    ensures var baseline := BaselineAt(fs, baselineFile);
      alertSent <==> baseline != map[] && AlertsAsked(args) && SomeDifferent(baseline, Latest(LoadAll(fs, dataDir, kind)))
  {
    var baseline := LoadBaseline(fs, baselineFile);
    if baseline == map[] {
      return 1, false;
    }
    var current := LoadLatest(fs, dataDir, kind);
    var result := Compare(baseline, current);
    DiffOutcome(baseline, current);
    var sendAlerts := AlertRequested(args);
    alertSent := sendAlerts && (result.changed != [] || result.newRecords != []);
    code := if result.changed == [] then 0 else 1;
  }

  // ---------------------------------------------------------------- create, then diff

  /** What create_baseline can write so that the reader finds its lines again. */
  predicate LatestWritable(latest: Fingerprints, now: string)
  {
    '\n' !in now && !Contains(now, "timestamp") &&
    forall k :: k in latest ==>
      SafeField(k.0) && SafeField(k.1) && Int32Min <= k.2 <= Int32Max && SafeField(latest[k])
  }

  lemma {:induction false} BaselineRecordsWritable(latest: Fingerprints, now: string)
    requires LatestWritable(latest, now)
    ensures AllBaselineWritable(BaselineRecords(latest, now))
  {
    var rs := BaselineRecords(latest, now);
    var ks := Ascending(latest.Keys);
    forall i | 0 <= i < |rs| ensures BaselineWritable(rs[i]) {
      assert ks[i] in latest;
    }
  }

  /** A map of records keyed into m, with every key of m present, builds m. */
  lemma {:induction false} BaselineOfKeyed(rs: seq<FingerprintRecord>, m: Fingerprints)
    requires forall i :: 0 <= i < |rs| ==> KeyOf(rs[i]) in m && rs[i].fingerprint == m[KeyOf(rs[i])]
    requires forall k :: k in m ==> HasKey(rs, k)
    ensures BaselineOf(rs) == m
  {
    forall k | k in BaselineOf(rs) || k in m
      ensures k in BaselineOf(rs) && k in m && BaselineOf(rs)[k] == m[k]
    {
      BaselineOfCorrect(rs, k);
      if k in BaselineOf(rs) {
        var i: nat :| LastWithKey(rs, k, i) && BaselineOf(rs)[k] == rs[i].fingerprint;
      }
    }
  }

  /** The baseline create_baseline writes, read back with the corrected cleanup, is the map
      it was written from. */
  lemma {:induction false} BaselineRoundTrip(fs: FileSystem, path: string, latest: Fingerprints, now: string)
    requires LatestWritable(latest, now)
    ensures BaselineAt(fs[path := BaselineFile(BaselineRecords(latest, now))], path) == latest
  {
    var rs := BaselineRecords(latest, now);
    var ks := Ascending(latest.Keys);
    var fs' := fs[path := BaselineFile(rs)];
    BaselineRecordsWritable(latest, now);
    BaselineFileRead(rs, true);
    var rb := BaselineReadbackAll(rs, true);
    assert ReadJson(fs', path, true) == rb;
    ReadbackAgrees(latest, now);
    ReadbackCovers(latest, now);
    BaselineOfKeyed(rb, latest);
  }

  /** Each record read back with the corrected cleanup carries its key's fingerprint. */
  lemma {:induction false} ReadbackAgrees(latest: Fingerprints, now: string)
    ensures var rb := BaselineReadbackAll(BaselineRecords(latest, now), true);
      forall i :: 0 <= i < |rb| ==> KeyOf(rb[i]) in latest && rb[i].fingerprint == latest[KeyOf(rb[i])]
  {
    var rs := BaselineRecords(latest, now);
    var ks := Ascending(latest.Keys);
    var rb := BaselineReadbackAll(rs, true);
    forall i | 0 <= i < |rb| ensures KeyOf(rb[i]) in latest && rb[i].fingerprint == latest[KeyOf(rb[i])] {
      BaselineReadbackAllAt(rs, true, i);
      assert ks[i] in latest;
    }
  }

  /** Every key is read back with the corrected cleanup. */
  lemma {:induction false} ReadbackCovers(latest: Fingerprints, now: string)
    ensures forall k :: k in latest ==> HasKey(BaselineReadbackAll(BaselineRecords(latest, now), true), k)
  {
    var rs := BaselineRecords(latest, now);
    var ks := Ascending(latest.Keys);
    var rb := BaselineReadbackAll(rs, true);
    forall k | k in latest ensures HasKey(rb, k) {
      var i :| 0 <= i < |ks| && ks[i] == k;
      BaselineReadbackAllAt(rs, true, i);
    }
  }

  /** Diffing fingerprints against a baseline of themselves: all unchanged. */
  lemma {:induction false} DiffAgainstItself(latest: Fingerprints)
    ensures Diff(latest, latest).changed == [] && Diff(latest, latest).newRecords == []
    ensures |Diff(latest, latest).unchangedRecords| == |latest|
  {
    var d := Diff(latest, latest);
    DiffPartition(latest, latest);
    EmptyKeys(d.changed);
    EmptyKeys(d.newRecords);
  }

  /** A baseline created from the latest fingerprints and diffed against the same
      fingerprints reports them all unchanged. */
  lemma {:induction false} CreateThenDiff(fs: FileSystem, path: string, latest: Fingerprints, now: string)
    requires LatestWritable(latest, now)
    ensures var d := Diff(BaselineAt(fs[path := BaselineFile(BaselineRecords(latest, now))], path), latest);
      d.changed == [] && d.newRecords == [] && |d.unchangedRecords| == |latest|
  {
    BaselineRoundTrip(fs, path, latest, now);
    DiffAgainstItself(latest);
  }

  /** As written, the baseline reader keeps the quotes around type, host and fingerprint:
      every key of the baseline it loads has a type starting with '"', and a baseline of
      some fingerprints is not empty. */
  lemma {:induction false} AsWrittenBaselineQuoted(fs: FileSystem, path: string, latest: Fingerprints, now: string)
    requires LatestWritable(latest, now)
    ensures var b := BaselineOf(ReadJson(fs[path := BaselineFile(BaselineRecords(latest, now))], path, false));
      (latest != map[] ==> b != map[]) && forall k :: k in b ==> |k.0| > 0 && k.0[0] == '"'
  {
    var rs := BaselineRecords(latest, now);
    BaselineRecordsWritable(latest, now);
    BaselineFileRead(rs, false);
    var rb := BaselineReadbackAll(rs, false);
    var b := BaselineOf(rb);
    assert ReadJson(fs[path := BaselineFile(rs)], path, false) == rb;
    forall k | k in b ensures |k.0| > 0 && k.0[0] == '"' {
      ReadbackKeyQuoted(rs, k);
    }
    if latest != map[] {
      assert |rb| > 0;
      BaselineOfCorrect(rb, KeyOf(rb[0]));
    }
  }

  /** As written, every key of a baseline read back has a type starting with '"'. */
  lemma {:induction false} ReadbackKeyQuoted(rs: seq<FingerprintRecord>, k: Key)
    requires k in BaselineOf(BaselineReadbackAll(rs, false))
    ensures |k.0| > 0 && k.0[0] == '"'
  {
    var rb := BaselineReadbackAll(rs, false);
    BaselineOfCorrect(rb, k);
    var i :| 0 <= i < |rb| && KeyOf(rb[i]) == k;
    BaselineReadbackAllAt(rs, false, i);
  }

  /** A key with its type and host inside quotes, as the reader leaves them as written. */
  function QuoteKey(k: Key): (q: Key)
    ensures q.2 == k.2 && |q.0| == |k.0| + 2 && q.0[0] == '"'
  {
    (Quote(k.0), Quote(k.1), k.2)
  }

  lemma QuoteKeyInjective()
    ensures forall a, b :: QuoteKey(a) == QuoteKey(b) ==> a == b
  {
    forall a: Key, b: Key | QuoteKey(a) == QuoteKey(b)
      ensures a == b
    {
      assert a.0 == Quote(a.0)[1..|a.0| + 1] && b.0 == Quote(b.0)[1..|b.0| + 1];
      assert a.1 == Quote(a.1)[1..|a.1| + 1] && b.1 == Quote(b.1)[1..|b.1| + 1];
    }
  }

  /** The fingerprints with every key and fingerprint quoted. */
  function QuotedBaseline(latest: Fingerprints): (q: Fingerprints)
    ensures forall k :: k in latest ==> QuoteKey(k) in q && q[QuoteKey(k)] == Quote(latest[k])
    ensures forall k :: k in q ==> exists x :: x in latest && k == QuoteKey(x)
  {
    QuoteKeyInjective();
    map x | x in latest :: QuoteKey(x) := Quote(latest[x])
  }

  /** As written, the baseline create_baseline writes reads back quoted: each key's type and
      host and its fingerprint come back inside their quotes, since all three lines end in ','. */
  lemma {:induction false} AsWrittenBaselineRead(fs: FileSystem, path: string, latest: Fingerprints, now: string)
    requires LatestWritable(latest, now)
    ensures BaselineOf(ReadJson(fs[path := BaselineFile(BaselineRecords(latest, now))], path, false)) == QuotedBaseline(latest)
  {
    var rs := BaselineRecords(latest, now);
    var ks := Ascending(latest.Keys);
    BaselineRecordsWritable(latest, now);
    BaselineFileRead(rs, false);
    var rb := BaselineReadbackAll(rs, false);
    assert ReadJson(fs[path := BaselineFile(rs)], path, false) == rb;
    var q := QuotedBaseline(latest);
    QuotedReadbackAgrees(latest, now);
    QuotedReadbackCovers(latest, now);
    BaselineOfKeyed(rb, q);
  }

  /** As written, each record read back carries its key quoted and its fingerprint quoted. */
  lemma {:induction false} QuotedReadbackAgrees(latest: Fingerprints, now: string)
    ensures var rb := BaselineReadbackAll(BaselineRecords(latest, now), false);
      var q := QuotedBaseline(latest);
      forall i :: 0 <= i < |rb| ==> KeyOf(rb[i]) in q && rb[i].fingerprint == q[KeyOf(rb[i])]
  {
    var rs := BaselineRecords(latest, now);
    var ks := Ascending(latest.Keys);
    var rb := BaselineReadbackAll(rs, false);
    forall i | 0 <= i < |rb|
      ensures KeyOf(rb[i]) in QuotedBaseline(latest) && rb[i].fingerprint == QuotedBaseline(latest)[KeyOf(rb[i])]
    {
      QuotedReadbackAt(latest, now, i);
    }
  }

  /** As written, every quoted key is read back. */
  lemma {:induction false} QuotedReadbackCovers(latest: Fingerprints, now: string)
    ensures forall k :: k in QuotedBaseline(latest) ==> HasKey(BaselineReadbackAll(BaselineRecords(latest, now), false), k)
  {
    var rs := BaselineRecords(latest, now);
    var ks := Ascending(latest.Keys);
    var rb := BaselineReadbackAll(rs, false);
    forall k | k in QuotedBaseline(latest)
      ensures HasKey(rb, k)
    {
      var x :| x in latest && k == QuoteKey(x);
      QuotedReadbackOf(latest, now, x);
    }
  }

  /** As written, the record of key x reads back under x quoted. */
  lemma {:induction false} QuotedReadbackOf(latest: Fingerprints, now: string, x: Key)
    requires x in latest
    ensures HasKey(BaselineReadbackAll(BaselineRecords(latest, now), false), QuoteKey(x))
  {
    var ks := Ascending(latest.Keys);
    var i :| 0 <= i < |ks| && ks[i] == x;
    QuotedReadbackAt(latest, now, i);
  }

  /** As written, record i reads back with the i-th key and its fingerprint quoted. */
  lemma {:induction false} QuotedReadbackAt(latest: Fingerprints, now: string, i: nat)
    requires i < |latest|
    ensures var ks := Ascending(latest.Keys);
      var rb := BaselineReadbackAll(BaselineRecords(latest, now), false);
      i < |rb| && ks[i] in latest && KeyOf(rb[i]) == QuoteKey(ks[i]) && rb[i].fingerprint == Quote(latest[ks[i]])
  {
    var ks := Ascending(latest.Keys);
    BaselineReadbackAllAt(BaselineRecords(latest, now), false, i);
    assert ks[i] in latest;
  }

  /** As written, a diff against a baseline created from the latest fingerprints finds no
      change as long as no current key is a latest key with quotes added, which holds when
      no (type, host, port) was saved in two records: every current key is then new and the
      diff exits 0 whatever the fingerprints have become. */
  lemma {:induction false} AsWrittenDiffAllNew(fs: FileSystem, path: string, latest: Fingerprints, now: string, current: Fingerprints)
    requires LatestWritable(latest, now)
    requires forall k :: k in latest ==> QuoteKey(k) !in current
    ensures var b := BaselineOf(ReadJson(fs[path := BaselineFile(BaselineRecords(latest, now))], path, false));
      var d := Diff(b, current);
      !SomeChanged(b, current) && d.changed == [] && d.unchangedRecords == [] && |d.newRecords| == |current|
  {
    var b := BaselineOf(ReadJson(fs[path := BaselineFile(BaselineRecords(latest, now))], path, false));
    AsWrittenBaselineRead(fs, path, latest, now);
    QuotedBaselineMisses(latest, current);
    DiffNoneKnown(b, current);
  }

  /** No current key is in the quoted baseline when no quoted key is current. */
  lemma QuotedBaselineMisses(latest: Fingerprints, current: Fingerprints)
    requires forall k :: k in latest ==> QuoteKey(k) !in current
    ensures forall k :: k in current ==> k !in QuotedBaseline(latest)
  {
    forall k | k in current ensures k !in QuotedBaseline(latest) {
      assert forall x :: x in latest ==> k != QuoteKey(x);
    }
  }

  /** Against a baseline holding none of the current keys, every key is new. */
  lemma {:induction false} DiffNoneKnown(b: Fingerprints, current: Fingerprints)
    requires forall k :: k in current ==> k !in b
    ensures var d := Diff(b, current);
      !SomeChanged(b, current) && d.changed == [] && d.unchangedRecords == [] && |d.newRecords| == |current|
  {
    var d := Diff(b, current);
    DiffPartition(b, current);
    EmptyKeys(d.changed);
    EmptyKeys(d.unchangedRecords);
  }

  /** As written, a store holding one save whose fingerprints are made the baseline and
      then diffed: the key is reported new, none changed, and the diff exits 0. */
  lemma {:induction false} AsWrittenOneSaveAllNew(store: string, baselineFile: string, r: FingerprintRecord, now: string)
    requires JsonWritable(r) && '\n' !in now && !Contains(now, "timestamp")
    ensures var fs := AppendRecord(map[], store, r, false);
      var current := Latest(ReadJson(fs, store, false));
      var b := BaselineOf(ReadJson(fs[baselineFile := BaselineFile(BaselineRecords(current, now))], baselineFile, false));
      var d := Diff(b, current);
      !SomeChanged(b, current) && d.changed == [] && |d.newRecords| == 1
  {
    var fs := AppendRecord(map[], store, r, false);
    AsWrittenSaveQuotes(map[], store, r);
    var a := Readback(r, false);
    LatestOfOne(a);
    var current := map[KeyOf(a) := a.fingerprint];
    ReadbackWritable(r);
    assert LatestWritable(current, now);
    assert |QuoteKey(KeyOf(a)).0| != |KeyOf(a).0|;
    assert current.Keys == {KeyOf(a)};
    AsWrittenDiffAllNew(fs, baselineFile, current, now, current);
  }

  /** The latest fingerprints of one record. */
  lemma LatestOfOne(a: FingerprintRecord)
    ensures Latest([a]) == map[KeyOf(a) := a.fingerprint]
  {
    var l := Latest([a]);
    assert HasKey([a], KeyOf(a));
  }

  /** The latest fingerprints of two records with different keys. */
  lemma LatestOfTwo(a: FingerprintRecord, c: FingerprintRecord)
    requires KeyOf(a) != KeyOf(c)
    ensures Latest([a, c]) == map[KeyOf(a) := a.fingerprint, KeyOf(c) := c.fingerprint]
  {
    var l := Latest([a, c]);
    assert [a, c][0] == a && [a, c][1] == c;
    assert HasKey([a, c], KeyOf(a)) && HasKey([a, c], KeyOf(c));
  }

  /** As written, the same record saved twice comes back as two keys: the first save
      requoted and the second quoted once. A baseline created from those fingerprints maps
      the requoted key to the fingerprint in quotes, so diffing the same fingerprints against
      it reports a change, and the diff exits 1, although nothing changed. */
  lemma {:induction false} AsWrittenResavedKeyChanges(store: string, baselineFile: string, r1: FingerprintRecord, r2: FingerprintRecord, now: string)
    requires JsonWritable(r1) && JsonWritable(r2)
    requires KeyOf(r1) == KeyOf(r2) && r1.fingerprint == r2.fingerprint
    requires '\n' !in now && !Contains(now, "timestamp")
    ensures var fs := AppendRecord(AppendRecord(map[], store, r1, false), store, r2, false);
      var current := Latest(ReadJson(fs, store, false));
      var b := BaselineOf(ReadJson(fs[baselineFile := BaselineFile(BaselineRecords(current, now))], baselineFile, false));
      SomeChanged(b, current) && Diff(b, current).changed != []
  {
    var fs := AppendRecord(AppendRecord(map[], store, r1, false), store, r2, false);
    TwoSavesRead(store, r1, r2);
    ReadbackWritable(r1);
    var a := Readback(Readback(r1, false), false);
    var c := Readback(r2, false);
    ReadbackWritable(Readback(r1, false));
    ReadbackWritable(r2);
    assert |KeyOf(a).0| != |KeyOf(c).0|;
    LatestOfTwo(a, c);
    var current := map[KeyOf(a) := a.fingerprint, KeyOf(c) := c.fingerprint];
    TwoLatestWritable(a, c, now);
    AsWrittenBaselineRead(fs, baselineFile, current, now);
    RequotedFingerprintDiffers(r1.fingerprint);
    ResavedPairCompared(a, c);
  }

  /** The fingerprint read back twice is shorter than the one read back once, quoted. */
  lemma RequotedFingerprintDiffers(f: string)
    ensures DropTrailingComma(DropTrailingComma(f)) != Quote(DropTrailingComma(f))
  {
    assert |DropTrailingComma(DropTrailingComma(f))| <= |DropTrailingComma(f)|;
  }

  /** Two records whose keys are one the other quoted, against the baseline of their
      fingerprints as written. */
  lemma ResavedPairCompared(a: FingerprintRecord, c: FingerprintRecord)
    requires QuoteKey(KeyOf(c)) == KeyOf(a) && a.fingerprint != Quote(c.fingerprint)
    ensures var current := map[KeyOf(a) := a.fingerprint, KeyOf(c) := c.fingerprint];
      SomeChanged(QuotedBaseline(current), current) && Diff(QuotedBaseline(current), current).changed != []
  {
    var current := map[KeyOf(a) := a.fingerprint, KeyOf(c) := c.fingerprint];
    assert |KeyOf(a).0| != |KeyOf(c).0|;
    assert current[KeyOf(a)] == a.fingerprint && current[KeyOf(c)] == c.fingerprint;
    ResavedKeyCompared(KeyOf(c), current);
  }

  /** Two writable records with different keys give writable latest fingerprints. */
  lemma TwoLatestWritable(a: FingerprintRecord, c: FingerprintRecord, now: string)
    requires JsonWritable(a) && JsonWritable(c) && KeyOf(a) != KeyOf(c)
    requires '\n' !in now && !Contains(now, "timestamp")
    ensures LatestWritable(map[KeyOf(a) := a.fingerprint, KeyOf(c) := c.fingerprint], now)
  {
  }

  /** As written, two saves read back as the first requoted and the second quoted once. */
  lemma {:induction false} TwoSavesRead(store: string, r1: FingerprintRecord, r2: FingerprintRecord)
    requires JsonWritable(r1) && JsonWritable(r2)
    ensures ReadJson(AppendRecord(AppendRecord(map[], store, r1, false), store, r2, false), store, false) ==
      [Readback(Readback(r1, false), false), Readback(r2, false)]
  {
    SecondSaveRead(store, r1, r2);
    ReadbackTwice(r1, r2);
  }

  /** The second save reads back as the reader's view of the first save's view and r2. */
  lemma {:induction false} SecondSaveRead(store: string, r1: FingerprintRecord, r2: FingerprintRecord)
    requires JsonWritable(r1) && JsonWritable(r2)
    ensures ReadJson(AppendRecord(AppendRecord(map[], store, r1, false), store, r2, false), store, false) ==
      ReadbackAll(ReadbackAll([r1], false) + [r2], false)
  {
    FirstSaveFile(store, r1);
    AllJsonWritableOne(r1);
    OnceWritable(r1);
    AsWrittenAppendRead(AppendRecord(map[], store, r1, false), store, [r1], r2);
  }

  lemma {:induction false} OnceWritable(r: FingerprintRecord)
    requires JsonWritable(r)
    ensures AllJsonWritable(ReadbackAll([r], false))
  {
    ReadbackPair(r, r, false);
    ReadbackWritable(r);
    AllJsonWritableOne(Readback(r, false));
  }

  /** The reader's view of [r1] followed by r2, viewed again. */
  lemma ReadbackTwice(r1: FingerprintRecord, r2: FingerprintRecord)
    ensures ReadbackAll(ReadbackAll([r1], false) + [r2], false) == [Readback(Readback(r1, false), false), Readback(r2, false)]
  {
    ReadbackPair(r1, r2, false);
    assert ReadbackAll([r1], false) + [r2] == [Readback(r1, false), r2];
    ReadbackPair(Readback(r1, false), r2, false);
  }

  /** The first save writes a file of the one record. */
  lemma FirstSaveFile(store: string, r: FingerprintRecord)
    ensures AppendRecord(map[], store, r, false)[store] == JsonFile([r])
  {
    assert ReadJson(map[], store, false) + [r] == [r];
  }

  /** The reader's view of one and of two records. */
  lemma ReadbackPair(x: FingerprintRecord, y: FingerprintRecord, corrected: bool)
    ensures ReadbackAll([x], corrected) == [Readback(x, corrected)]
    ensures ReadbackAll([x, y], corrected) == [Readback(x, corrected), Readback(y, corrected)]
  {
    assert [x, y][1..] == [y];
    assert [y][1..] == [];
  }

  /** A key k whose quoted form is also current is compared, as written, with k's fingerprint
      in quotes: a change whenever that differs from the fingerprint under the quoted key. */
  lemma {:induction false} ResavedKeyCompared(k: Key, current: Fingerprints)
    requires k in current && QuoteKey(k) in current && current[QuoteKey(k)] != Quote(current[k])
    ensures SomeChanged(QuotedBaseline(current), current) && Diff(QuotedBaseline(current), current).changed != []
  {
    var b := QuotedBaseline(current);
    var d := Diff(b, current);
    DiffPartition(b, current);
    assert QuoteKey(k) in Keys(d.changed);
  }
}
