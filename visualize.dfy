/** The visualize tool: the timeline (per (type, host, port) key, the number of records
    seen at each timestamp), the per-host summary (TLS and SSH record counts and the
    number of distinct fingerprints), the order both are written in, and the names of
    the files they go to. What is modelled of each JSON document and of the console
    table is the data it carries, in the order it carries it; the text is not. */
module Visualize {
  import opened Wrappers
  import opened KeyOrder
  import opened Utils
  import opened FingerprintCommon
  import Text

  // ---------------------------------------------------------------- sums over maps

  /** The sum of the values of a map. */
  ghost function Sum<K>(m: map<K, nat>): nat
    decreases |m|
  {
    if m == map[] then 0
    else
      var k :| k in m;
      m[k] + Sum(m - {k})
  }

  /** Any entry can be taken out first. */
  lemma {:induction false} SumRemove<K>(m: map<K, nat>, k: K)
    requires k in m
    ensures Sum(m) == m[k] + Sum(m - {k})
    decreases |m|
  {
    var j :| j in m && Sum(m) == m[j] + Sum(m - {j});
    if j != k {
      assert (m - {j}).Keys == m.Keys - {j} && (m - {k}).Keys == m.Keys - {k};
      SumRemove(m - {j}, k);
      SumRemove(m - {k}, j);
      assert m - {j} - {k} == m - {k} - {j};
    }
  }

  /** Setting one entry changes the sum by the difference between the new value and the
      old one (0 for an entry that was missing). */
  lemma {:induction false} SumUpdate<K>(m: map<K, nat>, k: K, v: nat)
    ensures Sum(m[k := v]) + (if k in m then m[k] else 0) == Sum(m) + v
  {
    var m' := m[k := v];
    SumRemove(m', k);
    assert m' - {k} == m - {k};
    if k in m {
      SumRemove(m, k);
    } else {
      assert m - {k} == m;
    }
  }

  // ---------------------------------------------------------------- what is counted

  /** The number of records with key k stamped t. */
  function CountAt(rs: seq<FingerprintRecord>, k: Key, t: string): nat
  {
    if rs == [] then 0
    else
      var r := rs[|rs| - 1];
      CountAt(rs[..|rs| - 1], k, t) + (if KeyOf(r) == k && r.timestamp == t then 1 else 0)
  }

  /** A count is positive exactly when some record has that key and timestamp. */
  lemma {:induction false} CountAtPositive(rs: seq<FingerprintRecord>, k: Key, t: string)
    ensures CountAt(rs, k, t) > 0 <==> exists i :: 0 <= i < |rs| && KeyOf(rs[i]) == k && rs[i].timestamp == t
    decreases |rs|
  {
    if rs != [] {
      var pre := rs[..|rs| - 1];
      CountAtPositive(pre, k, t);
      if exists i :: 0 <= i < |pre| && KeyOf(pre[i]) == k && pre[i].timestamp == t {
        var i :| 0 <= i < |pre| && KeyOf(pre[i]) == k && pre[i].timestamp == t;
        assert rs[i] == pre[i];
      }
      if exists i :: 0 <= i < |rs| && KeyOf(rs[i]) == k && rs[i].timestamp == t {
        var i :| 0 <= i < |rs| && KeyOf(rs[i]) == k && rs[i].timestamp == t;
        if i < |pre| {
          assert pre[i] == rs[i];
        }
      }
    }
  }

  /** The hosts the records mention. */
  function Hosts(rs: seq<FingerprintRecord>): set<string>
  {
    if rs == [] then {} else Hosts(rs[..|rs| - 1]) + {rs[|rs| - 1].host}
  }

  /** The number of records of the given type for host. */
  function KindCount(rs: seq<FingerprintRecord>, host: string, kind: string): nat
  {
    if rs == [] then 0
    else
      var r := rs[|rs| - 1];
      KindCount(rs[..|rs| - 1], host, kind) + (if r.host == host && r.kind == kind then 1 else 0)
  }

  /** The distinct fingerprints recorded for host. */
  function FingerprintsOf(rs: seq<FingerprintRecord>, host: string): set<string>
  {
    if rs == [] then {}
    else
      var r := rs[|rs| - 1];
      FingerprintsOf(rs[..|rs| - 1], host) + (if r.host == host then {r.fingerprint} else {})
  }

  /** A host is listed exactly when a record names it; a fingerprint is one of a host's
      exactly when a record pairs the two; a host has records of a type exactly when its
      count for that type is positive. */
  lemma {:induction false} MembersOfRecords(rs: seq<FingerprintRecord>, host: string, kind: string, fp: string)
    ensures host in Hosts(rs) <==> exists i :: 0 <= i < |rs| && rs[i].host == host
    ensures fp in FingerprintsOf(rs, host) <==> exists i :: 0 <= i < |rs| && rs[i].host == host && rs[i].fingerprint == fp
    ensures KindCount(rs, host, kind) > 0 <==> exists i :: 0 <= i < |rs| && rs[i].host == host && rs[i].kind == kind
  {
    HostsMembers(rs, host);
    FingerprintsMembers(rs, host, fp);
    KindCountMembers(rs, host, kind);
  }

  lemma {:induction false} HostsMembers(rs: seq<FingerprintRecord>, host: string)
    ensures host in Hosts(rs) <==> exists i :: 0 <= i < |rs| && rs[i].host == host
    decreases |rs|
  {
    if rs != [] {
      var pre := rs[..|rs| - 1];
      HostsMembers(pre, host);
      forall i | 0 <= i < |pre| ensures rs[i] == pre[i] {}
      if exists i :: 0 <= i < |rs| && rs[i].host == host {
        var i :| 0 <= i < |rs| && rs[i].host == host;
        assert i < |pre| ==> pre[i].host == host;
      }
    }
  }

  lemma {:induction false} FingerprintsMembers(rs: seq<FingerprintRecord>, host: string, fp: string)
    ensures fp in FingerprintsOf(rs, host) <==> exists i :: 0 <= i < |rs| && rs[i].host == host && rs[i].fingerprint == fp
    decreases |rs|
  {
    if rs != [] {
      var pre := rs[..|rs| - 1];
      FingerprintsMembers(pre, host, fp);
      forall i | 0 <= i < |pre| ensures rs[i] == pre[i] {}
      if exists i :: 0 <= i < |rs| && rs[i].host == host && rs[i].fingerprint == fp {
        var i :| 0 <= i < |rs| && rs[i].host == host && rs[i].fingerprint == fp;
        assert i < |pre| ==> pre[i].host == host && pre[i].fingerprint == fp;
      }
    }
  }

  lemma {:induction false} KindCountMembers(rs: seq<FingerprintRecord>, host: string, kind: string)
    ensures KindCount(rs, host, kind) > 0 <==> exists i :: 0 <= i < |rs| && rs[i].host == host && rs[i].kind == kind
    decreases |rs|
  {
    if rs != [] {
      var pre := rs[..|rs| - 1];
      KindCountMembers(pre, host, kind);
      forall i | 0 <= i < |pre| ensures rs[i] == pre[i] {}
      if exists i :: 0 <= i < |rs| && rs[i].host == host && rs[i].kind == kind {
        var i :| 0 <= i < |rs| && rs[i].host == host && rs[i].kind == kind;
        assert i < |pre| ==> pre[i].host == host && pre[i].kind == kind;
      }
    }
  }

  // ---------------------------------------------------------------- the timeline counter

  /** timeline: for each key, the count per timestamp. */
  type Timeline = map<Key, map<string, nat>>

  /** The count the timeline holds for key k at timestamp t, 0 where it has no entry. */
  function CountIn(tl: Timeline, k: Key, t: string): nat
  {
    if k in tl && t in tl[k] then tl[k][t] else 0
  }

  /** Every group has a point and every point a positive count: entries are created only
      for a record that is then counted. */
  predicate NoEmptyEntries(tl: Timeline)
  {
    forall k :: k in tl ==> tl[k] != map[] && forall t :: t in tl[k] ==> tl[k][t] > 0
  }

  /** The sum of every count of the timeline. */
  ghost function Total(tl: Timeline): nat
  {
    Sum(GroupSums(tl))
  }

  /** The number of records in each key's group. */
  ghost function GroupSums(tl: Timeline): map<Key, nat>
  {
    map k | k in tl :: Sum(tl[k])
  }

  /** Replacing one group replaces only its own sum. */
  lemma {:induction false} GroupSumsUpdate(tl: Timeline, k: Key, points: map<string, nat>)
    ensures GroupSums(tl[k := points]) == GroupSums(tl)[k := Sum(points)]
  {
  }

  /** One record counted: its timestamp's entry in its key's group, created at 0 when
      missing, goes up by one. */
  function Bump(tl: Timeline, k: Key, t: string): Timeline
  {
    var points := if k in tl then tl[k] else map[];
    tl[k := points[t := CountIn(tl, k, t) + 1]]
  }

  /** Counting one record adds one to the total. */
  lemma {:induction false} TotalBump(tl: Timeline, k: Key, t: string)
    ensures Total(Bump(tl, k, t)) == Total(tl) + 1
  {
    var points: map<string, nat> := if k in tl then tl[k] else map[];
    var points' := points[t := CountIn(tl, k, t) + 1];
    SumUpdate(points, t, CountIn(tl, k, t) + 1);
    GroupSumsUpdate(tl, k, points');
    SumUpdate(GroupSums(tl), k, Sum(points'));
    if k !in tl {
      assert Sum(points) == 0;
    }
  }

  /** Counting a record keeps every count equal to the number of records counted so far
      with that key and timestamp, and creates no empty entry. */
  lemma {:induction false} BumpCounts(tl: Timeline, rs: seq<FingerprintRecord>, r: FingerprintRecord)
    requires forall k, t :: CountIn(tl, k, t) == CountAt(rs, k, t)
    requires NoEmptyEntries(tl)
    ensures forall k, t :: CountIn(Bump(tl, KeyOf(r), r.timestamp), k, t) == CountAt(rs + [r], k, t)
    ensures NoEmptyEntries(Bump(tl, KeyOf(r), r.timestamp))
  {
    var rs' := rs + [r];
    assert rs'[..|rs'| - 1] == rs;
    var tl' := Bump(tl, KeyOf(r), r.timestamp);
    forall k, t ensures CountIn(tl', k, t) == CountAt(rs', k, t) {
    }
    forall k | k in tl' ensures tl'[k] != map[] && forall t :: t in tl'[k] ==> tl'[k][t] > 0 {
      if k == KeyOf(r) {
        assert r.timestamp in tl'[k];
      }
    }
  }

  /** generate_timeline_data's counting loop: per record, timeline[key][timestamp] is
      created at 0 when missing and then incremented. Each count is the number of
      records with that key and timestamp, so together they count every record once. */
  method BuildTimeline(records: seq<FingerprintRecord>) returns (timeline: Timeline)
    ensures forall k, t :: CountIn(timeline, k, t) == CountAt(records, k, t)
    ensures NoEmptyEntries(timeline)
    ensures Total(timeline) == |records|
  {
    timeline := map[];
    var i := 0;
    while i < |records|
      invariant i <= |records|
      invariant forall k, t :: CountIn(timeline, k, t) == CountAt(records[..i], k, t)
      invariant NoEmptyEntries(timeline)
      invariant Total(timeline) == i
    {
      var record := records[i];
      var key := KeyOf(record);
      ghost var before := timeline;
      var points := if key in timeline then timeline[key] else map[];
      var n := if record.timestamp in points then points[record.timestamp] else 0;
      BumpInPlace(timeline, key, record.timestamp, points, n);
      points := points[record.timestamp := n + 1];
      timeline := timeline[key := points];
      TimelineStep(before, records, i);
      i := i + 1;
    }
    assert records[..|records|] == records;
  }

  /** The loop's update of the timeline is Bump. */
  lemma BumpInPlace(tl: Timeline, k: Key, t: string, points: map<string, nat>, n: nat)
    requires points == (if k in tl then tl[k] else map[])
    requires n == (if t in points then points[t] else 0)
    ensures tl[k := points[t := n + 1]] == Bump(tl, k, t)
  {
  }

  /** Counting record i keeps the loop's invariant. */
  lemma TimelineStep(tl: Timeline, records: seq<FingerprintRecord>, i: nat)
    requires i < |records|
    requires forall k, t :: CountIn(tl, k, t) == CountAt(records[..i], k, t)
    requires NoEmptyEntries(tl) && Total(tl) == i
    ensures var tl' := Bump(tl, KeyOf(records[i]), records[i].timestamp);
      (forall k, t :: CountIn(tl', k, t) == CountAt(records[..i + 1], k, t)) &&
      NoEmptyEntries(tl') && Total(tl') == i + 1
  {
    TotalBump(tl, KeyOf(records[i]), records[i].timestamp);
    BumpCounts(tl, records[..i], records[i]);
    Text.TakeSnoc(records, i);
  }

  /** The timeline has a group exactly for the keys some record carries. */
  lemma {:induction false} TimelineKeys(records: seq<FingerprintRecord>, timeline: Timeline)
    requires forall k, t :: CountIn(timeline, k, t) == CountAt(records, k, t)
    requires NoEmptyEntries(timeline)
    ensures forall k :: k in timeline <==> HasKey(records, k)
  {
    forall k ensures k in timeline <==> HasKey(records, k) {
      if k in timeline {
        var t :| t in timeline[k];
        assert CountIn(timeline, k, t) > 0;
        CountAtPositive(records, k, t);
      }
      if HasKey(records, k) {
        var i :| 0 <= i < |records| && KeyOf(records[i]) == k;
        CountAtPositive(records, k, records[i].timestamp);
        assert CountIn(timeline, k, records[i].timestamp) > 0;
      }
    }
  }

  // ---------------------------------------------------------------- the summary counters

  /** host_counts: for each host, the number of records per type. */
  type HostCounts = map<string, map<string, nat>>

  /** counts.find(kind) != counts.end() ? counts.at(kind) : 0 for host's counts, and 0
      for a host without counts. */
  function CountOf(hostCounts: HostCounts, host: string, kind: string): nat
  {
    if host in hostCounts && kind in hostCounts[host] then hostCounts[host][kind] else 0
  }

  /** host_counts[host][type]++ */
  function Tally(hostCounts: HostCounts, host: string, kind: string): HostCounts
  {
    var counts := if host in hostCounts then hostCounts[host] else map[];
    hostCounts[host := counts[kind := CountOf(hostCounts, host, kind) + 1]]
  }

  /** host_fingerprints[host].insert(fp) */
  function Note(hostFingerprints: map<string, set<string>>, host: string, fp: string): map<string, set<string>>
  {
    hostFingerprints[host := (if host in hostFingerprints then hostFingerprints[host] else {}) + {fp}]
  }

  /** A host no record names has no count and no fingerprint. */
  lemma {:induction false} AbsentHost(rs: seq<FingerprintRecord>, host: string)
    requires host !in Hosts(rs)
    ensures FingerprintsOf(rs, host) == {}
    ensures forall kind :: KindCount(rs, host, kind) == 0
    decreases |rs|
  {
    if rs != [] {
      AbsentHost(rs[..|rs| - 1], host);
    }
  }

  /** Counting one more record keeps host_counts equal to the per-type counts of the
      records counted so far. */
  lemma {:induction false} TallyStep(hostCounts: HostCounts, records: seq<FingerprintRecord>, i: nat)
    requires i < |records|
    requires hostCounts.Keys == Hosts(records[..i])
    requires forall h, kind :: CountOf(hostCounts, h, kind) == KindCount(records[..i], h, kind)
    ensures Tally(hostCounts, records[i].host, records[i].kind).Keys == Hosts(records[..i + 1])
    ensures forall h, kind :: CountOf(Tally(hostCounts, records[i].host, records[i].kind), h, kind) == KindCount(records[..i + 1], h, kind)
  {
    var r := records[i];
    assert records[..i + 1][..i] == records[..i];
    forall h, kind ensures CountOf(Tally(hostCounts, r.host, r.kind), h, kind) == KindCount(records[..i + 1], h, kind) {
    }
  }

  /** Counting one more record keeps host_fingerprints equal to the fingerprint sets of
      the records counted so far. */
  lemma {:induction false} NoteStep(hostFingerprints: map<string, set<string>>, records: seq<FingerprintRecord>, i: nat)
    requires i < |records|
    requires hostFingerprints.Keys == Hosts(records[..i])
    requires forall h :: h in hostFingerprints ==> hostFingerprints[h] == FingerprintsOf(records[..i], h)
    ensures Note(hostFingerprints, records[i].host, records[i].fingerprint).Keys == Hosts(records[..i + 1])
    ensures forall h :: h in Note(hostFingerprints, records[i].host, records[i].fingerprint) ==>
      Note(hostFingerprints, records[i].host, records[i].fingerprint)[h] == FingerprintsOf(records[..i + 1], h)
  {
    var r := records[i];
    assert records[..i + 1][..i] == records[..i];
    var notes := Note(hostFingerprints, r.host, r.fingerprint);
    forall h | h in notes ensures notes[h] == FingerprintsOf(records[..i + 1], h) {
      if h != r.host {
        assert notes[h] == hostFingerprints[h];
      } else if h !in hostFingerprints {
        AbsentHost(records[..i], h);
      }
    }
  }

  /** generate_summary_data's and print_ascii_summary's counting loop: per record,
      host_counts[host][type] goes up by one and the fingerprint joins
      host_fingerprints[host]. */
  method BuildSummary(records: seq<FingerprintRecord>) returns (hostCounts: HostCounts, hostFingerprints: map<string, set<string>>)
    ensures hostCounts.Keys == Hosts(records) && hostFingerprints.Keys == Hosts(records)
    ensures forall h, kind :: CountOf(hostCounts, h, kind) == KindCount(records, h, kind)
    ensures forall h :: h in hostFingerprints ==> hostFingerprints[h] == FingerprintsOf(records, h)
  {
    hostCounts := map[];
    hostFingerprints := map[];
    var i := 0;
    while i < |records|
      invariant i <= |records|
      invariant hostCounts.Keys == Hosts(records[..i]) && hostFingerprints.Keys == Hosts(records[..i])
      invariant forall h, kind :: CountOf(hostCounts, h, kind) == KindCount(records[..i], h, kind)
      invariant forall h :: h in hostFingerprints ==> hostFingerprints[h] == FingerprintsOf(records[..i], h)
    {
      var record := records[i];
      TallyStep(hostCounts, records, i);
      NoteStep(hostFingerprints, records, i);
      hostCounts := Tally(hostCounts, record.host, record.kind);
      hostFingerprints := Note(hostFingerprints, record.host, record.fingerprint);
      i := i + 1;
    }
    assert records[..|records|] == records;
  }

  // ---------------------------------------------------------------- emission order

  /** A range-for over the keys of a std::map<std::string, ...>: each key once, in
      strictly ascending order. */
  method StringsInOrder(keys: set<string>) returns (xs: seq<string>)
    ensures forall i, j :: 0 <= i < j < |xs| ==> StrLess(xs[i], xs[j])
    ensures forall i :: 0 <= i < |xs| ==> xs[i] in keys
    ensures forall x :: x in keys ==> x in xs
  {
    xs := [];
    var remaining := keys;
    while remaining != {}
      invariant remaining <= keys
      invariant forall i, j :: 0 <= i < j < |xs| ==> StrLess(xs[i], xs[j])
      invariant forall i :: 0 <= i < |xs| ==> xs[i] in keys
      invariant forall i, x :: 0 <= i < |xs| && x in remaining ==> StrLess(xs[i], x)
      invariant forall x :: x in keys ==> x in remaining || x in xs
      decreases |remaining|
    {
      StrLeastExists(remaining);
      var x :| IsLeastStr(x, remaining);
      xs := xs + [x];
      remaining := remaining - {x};
    }
  }

  /** A range-for over the keys of a std::map keyed by (type, host, port): each key once,
      in strictly ascending order. */
  method KeysInOrder(keys: set<Key>) returns (ks: seq<Key>)
    ensures forall i, j :: 0 <= i < j < |ks| ==> KeyLess(ks[i], ks[j])
    ensures forall i :: 0 <= i < |ks| ==> ks[i] in keys
    ensures forall k :: k in keys ==> k in ks
  {
    ks := [];
    var remaining := keys;
    while remaining != {}
      invariant remaining <= keys
      invariant forall i, j :: 0 <= i < j < |ks| ==> KeyLess(ks[i], ks[j])
      invariant forall i :: 0 <= i < |ks| ==> ks[i] in keys
      invariant forall i, k :: 0 <= i < |ks| && k in remaining ==> KeyLess(ks[i], k)
      invariant forall k :: k in keys ==> k in remaining || k in ks
      decreases |remaining|
    {
      LeastExists(remaining);
      var k :| IsLeast(k, remaining);
      ks := ks + [k];
      remaining := remaining - {k};
    }
  }

  /** One timeline point and one timeline group as the JSON document lists them. */
  datatype Point = Point(time: string, count: nat)
  datatype Group = Group(key: Key, points: seq<Point>)

  /** One summary entry (and one row of the console table). */
  datatype SummaryRow = SummaryRow(host: string, tlsCount: nat, sshCount: nat, uniqueFingerprints: nat)

  /** ps lists the entries of m in strictly ascending timestamp order, each once. */
  predicate ListsInOrder(ps: seq<Point>, m: map<string, nat>)
  {
    (forall i, j :: 0 <= i < j < |ps| ==> StrLess(ps[i].time, ps[j].time)) &&
    (forall i :: 0 <= i < |ps| ==> ps[i].time in m && ps[i].count == m[ps[i].time]) &&
    (forall t :: t in m ==> exists i :: 0 <= i < |ps| && ps[i].time == t)
  }

  /** The inner range-for of generate_timeline_data: a key's points, in ascending
      timestamp order. */
  method PointsInOrder(points: map<string, nat>) returns (ps: seq<Point>)
    ensures ListsInOrder(ps, points)
  {
    var times := StringsInOrder(points.Keys);
    ps := seq(|times|, i requires 0 <= i < |times| => Point(times[i], points[times[i]]));
    forall t | t in points ensures exists i :: 0 <= i < |ps| && ps[i].time == t {
      var i :| 0 <= i < |times| && times[i] == t;
      assert ps[i].time == t;
    }
  }

  /** The outer range-for of generate_timeline_data: the groups in ascending key order,
      each with its points in ascending timestamp order. */
  method GroupsInOrder(timeline: Timeline) returns (groups: seq<Group>)
    ensures forall i, j :: 0 <= i < j < |groups| ==> KeyLess(groups[i].key, groups[j].key)
    ensures forall i :: 0 <= i < |groups| ==> groups[i].key in timeline && ListsInOrder(groups[i].points, timeline[groups[i].key])
    ensures forall k :: k in timeline ==> exists i :: 0 <= i < |groups| && groups[i].key == k
  {
    var keys := KeysInOrder(timeline.Keys);
    groups := [];
    var n := 0;
    while n < |keys|
      invariant n <= |keys| && |groups| == n
      invariant forall i :: 0 <= i < n ==> groups[i].key == keys[i] && ListsInOrder(groups[i].points, timeline[keys[i]])
    {
      var ps := PointsInOrder(timeline[keys[n]]);
      groups := groups + [Group(keys[n], ps)];
      n := n + 1;
    }
    forall k | k in timeline ensures exists i :: 0 <= i < |groups| && groups[i].key == k {
      var i :| 0 <= i < |keys| && keys[i] == k;
      assert groups[i].key == k;
    }
  }

  /** The entry generate_summary_data writes for host. */
  function RowOf(hostCounts: HostCounts, hostFingerprints: map<string, set<string>>, host: string): SummaryRow
  {
    SummaryRow(host, CountOf(hostCounts, host, "TLS"), CountOf(hostCounts, host, "SSH"),
      if host in hostFingerprints then |hostFingerprints[host]| else 0)
  }

  /** The range-for over host_counts: one entry per host, in ascending host order. */
  method RowsInOrder(hostCounts: HostCounts, hostFingerprints: map<string, set<string>>) returns (rows: seq<SummaryRow>)
    ensures forall i, j :: 0 <= i < j < |rows| ==> StrLess(rows[i].host, rows[j].host)
    ensures forall i :: 0 <= i < |rows| ==> rows[i].host in hostCounts && rows[i] == RowOf(hostCounts, hostFingerprints, rows[i].host)
    ensures forall h :: h in hostCounts ==> exists i :: 0 <= i < |rows| && rows[i].host == h
  {
    var hosts := StringsInOrder(hostCounts.Keys);
    rows := seq(|hosts|, i requires 0 <= i < |hosts| => RowOf(hostCounts, hostFingerprints, hosts[i]));
    forall h | h in hostCounts ensures exists i :: 0 <= i < |rows| && rows[i].host == h {
      var i :| 0 <= i < |hosts| && hosts[i] == h;
      assert rows[i].host == h;
    }
  }

  // ---------------------------------------------------------------- the two documents

  /** A key's points: strictly ascending timestamps, each with the number of records
      carrying that key and timestamp, and every timestamp such a record carries. */
  ghost predicate PointsFor(ps: seq<Point>, records: seq<FingerprintRecord>, k: Key)
  {
    (forall i, j :: 0 <= i < j < |ps| ==> StrLess(ps[i].time, ps[j].time)) &&
    (forall i :: 0 <= i < |ps| ==> ps[i].count > 0 && ps[i].count == CountAt(records, k, ps[i].time)) &&
    (forall t :: CountAt(records, k, t) > 0 ==> exists i :: 0 <= i < |ps| && ps[i].time == t)
  }

  /** The timeline document of records: one group per key some record carries, in
      strictly ascending key order, each with its points. */
  ghost predicate TimelineOf(groups: seq<Group>, records: seq<FingerprintRecord>)
  {
    (forall i, j :: 0 <= i < j < |groups| ==> KeyLess(groups[i].key, groups[j].key)) &&
    (forall i :: 0 <= i < |groups| ==> HasKey(records, groups[i].key) && PointsFor(groups[i].points, records, groups[i].key)) &&
    (forall k :: HasKey(records, k) ==> exists i :: 0 <= i < |groups| && groups[i].key == k)
  }

  /** The summary entry records call for at host: its TLS and SSH record counts and its
      number of distinct fingerprints. */
  function RowFor(records: seq<FingerprintRecord>, host: string): SummaryRow
  {
    SummaryRow(host, KindCount(records, host, "TLS"), KindCount(records, host, "SSH"), |FingerprintsOf(records, host)|)
  }

  /** The summary document of records: one entry per host some record names, in
      strictly ascending host order, with that host's TLS and SSH record counts (0 for a
      type it has no record of) and its number of distinct fingerprints. */
  predicate SummaryOf(rows: seq<SummaryRow>, records: seq<FingerprintRecord>)
  {
    (forall i, j :: 0 <= i < j < |rows| ==> StrLess(rows[i].host, rows[j].host)) &&
    (forall i :: 0 <= i < |rows| ==> rows[i].host in Hosts(records) && rows[i] == RowFor(records, rows[i].host)) &&
    (forall h :: h in Hosts(records) ==> exists i :: 0 <= i < |rows| && rows[i].host == h)
  }

  /** The points written for a key from the counters are the ones the records call for. */
  lemma {:induction false} PointsFromCounts(records: seq<FingerprintRecord>, timeline: Timeline, k: Key, ps: seq<Point>)
    requires forall k, t :: CountIn(timeline, k, t) == CountAt(records, k, t)
    requires NoEmptyEntries(timeline)
    requires k in timeline && ListsInOrder(ps, timeline[k])
    ensures PointsFor(ps, records, k)
  {
    forall j | 0 <= j < |ps| ensures ps[j].count > 0 && ps[j].count == CountAt(records, k, ps[j].time) {
      assert CountIn(timeline, k, ps[j].time) == ps[j].count;
    }
    forall t | CountAt(records, k, t) > 0 ensures exists j :: 0 <= j < |ps| && ps[j].time == t {
      assert CountIn(timeline, k, t) > 0;
    }
  }

  /** generate_timeline_data: what the document carries. */
  method GenerateTimeline(records: seq<FingerprintRecord>) returns (groups: seq<Group>)
    ensures TimelineOf(groups, records)
  {
    var timeline := BuildTimeline(records);
    TimelineKeys(records, timeline);
    groups := GroupsInOrder(timeline);
    forall i | 0 <= i < |groups| ensures PointsFor(groups[i].points, records, groups[i].key) {
      PointsFromCounts(records, timeline, groups[i].key, groups[i].points);
    }
  }

  /** The entry written from the counters is the one the records call for. */
  lemma {:induction false} RowOfCounts(records: seq<FingerprintRecord>, hostCounts: HostCounts,
                                      hostFingerprints: map<string, set<string>>, host: string)
    requires host in hostCounts && hostFingerprints.Keys == hostCounts.Keys
    requires forall h, kind :: CountOf(hostCounts, h, kind) == KindCount(records, h, kind)
    requires forall h :: h in hostFingerprints ==> hostFingerprints[h] == FingerprintsOf(records, h)
    ensures RowOf(hostCounts, hostFingerprints, host) == RowFor(records, host)
  {
    assert CountOf(hostCounts, host, "TLS") == KindCount(records, host, "TLS");
    assert CountOf(hostCounts, host, "SSH") == KindCount(records, host, "SSH");
  }

  /** generate_summary_data (and the table print_ascii_summary prints): what the document
      carries. */
  method GenerateSummary(records: seq<FingerprintRecord>) returns (rows: seq<SummaryRow>)
    ensures SummaryOf(rows, records)
  {
    var hostCounts, hostFingerprints := BuildSummary(records);
    rows := RowsInOrder(hostCounts, hostFingerprints);
    forall i | 0 <= i < |rows| ensures rows[i].host in Hosts(records) && rows[i] == RowFor(records, rows[i].host) {
      RowOfCounts(records, hostCounts, hostFingerprints, rows[i].host);
    }
  }

  // ---------------------------------------------------------------- output file names

  /** output.substr(0, output.find_last_of('.')) + suffix: everything before the last '.'
      of the whole path (a '.' in a directory name included), or all of output when it
      has no '.' at all. */
  function DerivedName(output: string, suffix: string): (r: string)
    ensures |r| >= |suffix| && r[|r| - |suffix|..] == suffix
    ensures var stem := r[..|r| - |suffix|];
      stem <= output && ('.' !in output ==> stem == output) &&
      ('.' in output ==> |stem| < |output| && output[|stem|] == '.' && '.' !in output[|stem| + 1..])
  {
    match LastIndexOf(output, '.')
    case None => output + suffix
    case Some(i) => output[..i] + suffix
  }

  /** A path without '.' is kept whole; a path with an extension loses the extension. */
  lemma {:induction false} DerivedNameStripsExtension(stem: string, ext: string, suffix: string)
    requires '.' !in ext
    ensures '.' !in stem ==> DerivedName(stem, suffix) == stem + suffix
    ensures DerivedName(stem + ['.'] + ext, suffix) == stem + suffix
  {
    var path := stem + ['.'] + ext;
    assert path[|stem|] == '.';
    assert path[|stem| + 1..] == ext;
    assert path[..|stem|] == stem;
  }

  /** The derivation applied to the file name alone: the directory part, up to and
      including the last '/', is kept as it is. */
  function FileNameDerived(output: string, suffix: string): (r: string)
    ensures |r| >= |suffix| && r[|r| - |suffix|..] == suffix
    ensures var stem := r[..|r| - |suffix|];
      stem <= output && forall j :: 0 <= j < |output| && output[j] == '/' ==> j < |stem|
  {
    match LastIndexOf(output, '/')
    case None => DerivedName(output, suffix)
    case Some(j) =>
      var name := DerivedName(output[j + 1..], suffix);
      SlashesUpTo(output, j);
      PrefixJoin(output, j + 1, name[..|name| - |suffix|]);
      output[..j + 1] + name
  }

  /** No '/' after position j means every '/' is at j or before. */
  lemma SlashesUpTo(output: string, j: nat)
    requires j < |output| && '/' !in output[j + 1..]
    ensures forall i :: 0 <= i < |output| && output[i] == '/' ==> i <= j
  {
    forall i | j < i < |output| ensures output[i] != '/' {
      assert output[i] == output[j + 1..][i - j - 1];
    }
  }

  /** A prefix of what follows position n, put after output's first n characters, is a
      prefix of output. */
  lemma PrefixJoin(output: string, n: nat, stem: string)
    requires n <= |output| && stem <= output[n..]
    ensures output[..n] + stem <= output
  {
    assert output[..n] + stem == output[..n + |stem|];
  }

  /** The corrected derivation leaves the directory of a path alone and derives the name
      within it as main does. */
  lemma {:induction false} FileNameDerivedKeepsDirectory(dir: string, name: string, suffix: string)
    requires '/' !in name
    ensures FileNameDerived(dir + ['/'] + name, suffix) == dir + ['/'] + DerivedName(name, suffix)
  {
    var front := dir + ['/'];
    var path := front + name;
    assert LastIndexOf(path, '/') == Some(|dir|) by {
      LastIndexOfAppend(front, name, '/');
      assert LastIndexOf(front, '/') == Some(|dir|);
    }
    assert path[..|dir| + 1] == front && path[|dir| + 1..] == name;
  }

  /** main's derivation cuts "./" followed by a name without '.' at its only '.': the
      file goes to the bare suffix in the working directory ("./report" gives
      "_timeline.json", not "./report_timeline.json"). */
  lemma {:induction false} DerivedNameDropsDirectory(name: string, suffix: string)
    requires '.' !in name && '/' !in name
    ensures DerivedName("./" + name, suffix) == suffix
  {
    assert LastIndexOf("./" + name, '.') == Some(0) by {
      LastIndexOfAppend("./", name, '.');
      assert LastIndexOf("./", '.') == Some(0);
    }
    assert ("./" + name)[..0] == [];
  }

  /** The corrected derivation keeps that path: "./report" gives "./report_timeline.json". */
  lemma {:induction false} FileNameDerivedKeepsDotSlash(name: string, suffix: string)
    requires '.' !in name && '/' !in name
    ensures FileNameDerived("./" + name, suffix) == "./" + name + suffix
  {
    var dir := ".";
    assert dir + ['/'] == "./";
    FileNameDerivedKeepsDirectory(dir, name, suffix);
    DerivedNameStripsExtension(name, "", suffix);
    Text.AppendAssoc("./", name, suffix);
  }

  /** The timeline file: the --output value, or data/timeline.json without one; with
      "all" and an --output value, that value's stem followed by "_timeline.json". */
  function TimelineFile(chart: string, output: string): (file: string)
    ensures output == "" ==> file == "data/timeline.json"
    ensures chart != "all" && output != "" ==> file == output
    ensures chart == "all" && output != "" ==> |file| >= 14 && file[|file| - 14..] == "_timeline.json"
  {
    if chart == "all" && output != "" then FileNameDerived(output, "_timeline.json")
    else if output == "" then "data/timeline.json"
    else output
  }

  /** The summary file, chosen the same way with "_summary.json". */
  function SummaryFile(chart: string, output: string): (file: string)
    ensures output == "" ==> file == "data/summary.json"
    ensures chart != "all" && output != "" ==> file == output
    ensures chart == "all" && output != "" ==> |file| >= 13 && file[|file| - 13..] == "_summary.json"
  {
    if chart == "all" && output != "" then FileNameDerived(output, "_summary.json")
    else if output == "" then "data/summary.json"
    else output
  }

  /** With "all", the two documents never go to the same file. */
  lemma {:induction false} AllFilesDiffer(output: string)
    ensures TimelineFile("all", output) != SummaryFile("all", output)
  {
    if output != "" {
      var t := TimelineFile("all", output);
      var s := SummaryFile("all", output);
    }
  }

  // ---------------------------------------------------------------- main

  /** main after its arguments are parsed: chart is argv[1] (None when there is none),
      dataDir, kind and output the values of --data-dir, --type and --output. Exit status
      1 without a chart type or without records; otherwise 0, with the timeline for
      "timeline" and "all" and the summary for "summary" and "all", each with its file. */
  method Run(fs: FileSystem, chart: Option<string>, dataDir: string, kind: string, output: string)
    returns (status: int, timeline: Option<(string, seq<Group>)>, summary: Option<(string, seq<SummaryRow>)>)
    ensures status == 1 <==> chart.None? || LoadAll(fs, dataDir, kind) == []
    ensures status == 0 <==> status != 1
    ensures timeline.Some? <==> status == 0 && (chart.value == "timeline" || chart.value == "all")
    ensures summary.Some? <==> status == 0 && (chart.value == "summary" || chart.value == "all")
    ensures timeline.Some? ==> timeline.value.0 == TimelineFile(chart.value, output) &&
                               TimelineOf(timeline.value.1, LoadAll(fs, dataDir, kind))
    ensures summary.Some? ==> summary.value.0 == SummaryFile(chart.value, output) &&
                              SummaryOf(summary.value.1, LoadAll(fs, dataDir, kind))
  {
    timeline := None;
    summary := None;
    if chart.None? {
      return 1, None, None;
    }
    var records := LoadAll(fs, dataDir, kind);
    if records == [] {
      return 1, None, None;
    }
    if chart.value == "timeline" || chart.value == "all" {
      var groups := GenerateTimeline(records);
      timeline := Some((TimelineFile(chart.value, output), groups));
    }
    if chart.value == "summary" || chart.value == "all" {
      var rows := GenerateSummary(records);
      summary := Some((SummaryFile(chart.value, output), rows));
    }
    status := 0;
  }
}
