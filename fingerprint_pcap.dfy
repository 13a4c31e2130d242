/** The per-handshake step of the pcap fingerprinter: every ClientHello's JA3 is remembered
    under its connection's 4-tuple, every ServerHello looks up the reversed 4-tuple to pair
    with it, both are counted, and a record is kept whenever a fingerprint was computed. */
module FingerprintPcap {
  import opened Wrappers
  import opened Bytes
  import opened Text
  import opened Ja3
  import opened PcapReader

  /** JA3Record: one emitted fingerprint line. */
  datatype Ja3Record = Ja3Record(
    ja3: string,
    ja3s: string,
    srcIp: string,
    dstIp: string,
    srcPort: U16,
    dstPort: U16,
    timestamp: string,
    sni: seq<Byte>)

  /** The pairing key "ip:port->ip:port". */
  function ConnectionKey(fromIp: string, fromPort: U16, toIp: string, toPort: U16): string
  {
    fromIp + ":" + Decimal(fromPort) + "->" + toIp + ":" + Decimal(toPort)
  }

  /** The key a ClientHello is remembered under: its own direction. */
  function ClientKey(p: TlsHandshakePacket): string
  {
    ConnectionKey(p.srcIp, p.srcPort, p.dstIp, p.dstPort)
  }

  /** The key a ServerHello looks up: the reversed direction. */
  function ServerLookupKey(p: TlsHandshakePacket): string
  {
    ConnectionKey(p.dstIp, p.dstPort, p.srcIp, p.srcPort)
  }

  /** The fingerprinter's state: the pairing map, the two counters and the records. */
  datatype Tallies = Tallies(
    clientHellos: map<string, string>,
    ja3Counts: map<string, nat>,
    ja3sCounts: map<string, nat>,
    records: seq<Ja3Record>)

  const Empty := Tallies(map[], map[], map[], [])

  function CountOf(counts: map<string, nat>, key: string): nat
  {
    if key in counts then counts[key] else 0
  }

  /** counts[key]++ on a std::map<std::string, int>. */
  function Bump(counts: map<string, nat>, key: string): (r: map<string, nat>)
    ensures CountOf(r, key) == CountOf(counts, key) + 1
    ensures forall k :: k != key ==> CountOf(r, k) == CountOf(counts, k)
    ensures r.Keys == counts.Keys + {key}
  {
    counts[key := CountOf(counts, key) + 1]
  }

  /** The record the callback starts from: addresses, ports and time, no fingerprint yet. */
  function BlankRecord(p: TlsHandshakePacket, stamp: (nat, nat) -> string): Ja3Record
  {
    Ja3Record("", "", p.srcIp, p.dstIp, p.srcPort, p.dstPort, stamp(p.timestampSec, p.timestampUsec), [])
  }

  /** The callback of process_packets on one handshake. MD5 and format_timestamp are parameters. */
  function Step(t: Tallies, p: TlsHandshakePacket, md5: string -> Digest, stamp: (nat, nat) -> string): (t': Tallies)
    ensures t.records <= t'.records && |t'.records| <= |t.records| + 1
    ensures forall i :: |t.records| <= i < |t'.records| ==> t'.records[i].ja3 != "" || t'.records[i].ja3s != ""
    ensures t.clientHellos.Keys <= t'.clientHellos.Keys
  {
    var blank := BlankRecord(p, stamp);
    var (t', record) :=
      if p.isClientHello then
        match ParseClientHelloSpec(p.handshakeData)
        case None => (t, blank)
        case Some(h) =>
          var ja3 := CalculateJa3(h, md5);
          (t.(clientHellos := t.clientHellos[ClientKey(p) := ja3], ja3Counts := Bump(t.ja3Counts, ja3)),
           blank.(ja3 := ja3, sni := h.sni))
      else if p.isServerHello then
        match ParseServerHelloSpec(p.handshakeData)
        case None => (t, blank)
        case Some(h) =>
          var ja3s := CalculateJa3s(h, md5);
          var key := ServerLookupKey(p);
          var ja3 := if key in t.clientHellos then t.clientHellos[key] else "";
          (t.(ja3sCounts := Bump(t.ja3sCounts, ja3s)), blank.(ja3 := ja3, ja3s := ja3s))
      else (t, blank);
    if record.ja3 != "" || record.ja3s != "" then t'.(records := t'.records + [record]) else t'
  }

  /** The callback applied to the handshakes in order. */
  function Run(t: Tallies, ps: seq<TlsHandshakePacket>, md5: string -> Digest, stamp: (nat, nat) -> string): (t': Tallies)
    ensures t.records <= t'.records && |t'.records| <= |t.records| + |ps|
    ensures forall i :: |t.records| <= i < |t'.records| ==> t'.records[i].ja3 != "" || t'.records[i].ja3s != ""
    ensures t.clientHellos.Keys <= t'.clientHellos.Keys
  {
    if ps == [] then t else Step(Run(t, ps[..|ps| - 1], md5, stamp), ps[|ps| - 1], md5, stamp)
  }

  /** One more handshake is one more step. */
  lemma {:induction false} RunSnoc(t: Tallies, ps: seq<TlsHandshakePacket>, p: TlsHandshakePacket, md5: string -> Digest, stamp: (nat, nat) -> string)
    ensures Run(t, ps + [p], md5, stamp) == Step(Run(t, ps, md5, stamp), p, md5, stamp)
  {
    assert (ps + [p])[..|ps|] == ps;
  }

  // ---------------------------------------------------------------- what one step does

  /** A ClientHello that parses is remembered under its key, overwriting what was there, counted,
      and recorded with its JA3 and server name and no JA3S. */
  lemma {:induction false} ClientHelloStep(t: Tallies, p: TlsHandshakePacket, md5: string -> Digest, stamp: (nat, nat) -> string)
    requires p.isClientHello && ParseClientHelloSpec(p.handshakeData).Some?
    ensures var h := ParseClientHelloSpec(p.handshakeData).value;
      var ja3 := CalculateJa3(h, md5);
      var s := Step(t, p, md5, stamp);
      s.clientHellos == t.clientHellos[ClientKey(p) := ja3] &&
      CountOf(s.ja3Counts, ja3) == CountOf(t.ja3Counts, ja3) + 1 && s.ja3sCounts == t.ja3sCounts &&
      s.records == t.records + [BlankRecord(p, stamp).(ja3 := ja3, sni := h.sni)]
  {
    var h := ParseClientHelloSpec(p.handshakeData).value;
    assert |CalculateJa3(h, md5)| == 32;
  }

  /** A ServerHello that parses is counted and recorded with its JA3S, and with the JA3 stored
      under the reversed key if there is one (empty otherwise); the pairing map is left as it
      was, so a later ServerHello on the same connection pairs again. */
  lemma {:induction false} ServerHelloStep(t: Tallies, p: TlsHandshakePacket, md5: string -> Digest, stamp: (nat, nat) -> string)
    requires !p.isClientHello && p.isServerHello && ParseServerHelloSpec(p.handshakeData).Some?
    ensures var ja3s := CalculateJa3s(ParseServerHelloSpec(p.handshakeData).value, md5);
      var key := ServerLookupKey(p);
      var s := Step(t, p, md5, stamp);
      s.clientHellos == t.clientHellos && s.ja3Counts == t.ja3Counts &&
      CountOf(s.ja3sCounts, ja3s) == CountOf(t.ja3sCounts, ja3s) + 1 &&
      s.records == t.records + [BlankRecord(p, stamp).(
        ja3 := if key in t.clientHellos then t.clientHellos[key] else "", ja3s := ja3s)]
  {
    var h := ParseServerHelloSpec(p.handshakeData).value;
    assert |CalculateJa3s(h, md5)| == 32;
  }

  /** A handshake that does not parse changes nothing: no record, no count, no pairing entry. */
  lemma {:induction false} FailedParseStep(t: Tallies, p: TlsHandshakePacket, md5: string -> Digest, stamp: (nat, nat) -> string)
    requires p.isClientHello ==> ParseClientHelloSpec(p.handshakeData).None?
    requires !p.isClientHello && p.isServerHello ==> ParseServerHelloSpec(p.handshakeData).None?
    ensures Step(t, p, md5, stamp) == t
  {
  }

  /** One record per handshake that parses, none for the others. */
  lemma {:induction false} RecordIffParsed(t: Tallies, p: TlsHandshakePacket, md5: string -> Digest, stamp: (nat, nat) -> string)
    ensures var s := Step(t, p, md5, stamp);
      (|s.records| == |t.records| + 1 && s.records[..|t.records|] == t.records) <==>
      ((p.isClientHello && ParseClientHelloSpec(p.handshakeData).Some?) ||
       (!p.isClientHello && p.isServerHello && ParseServerHelloSpec(p.handshakeData).Some?))
    ensures var s := Step(t, p, md5, stamp); |s.records| <= |t.records| + 1
  {
    var s := Step(t, p, md5, stamp);
    if p.isClientHello && ParseClientHelloSpec(p.handshakeData).Some? {
      ClientHelloStep(t, p, md5, stamp);
      assert s.records[..|t.records|] == t.records;
    } else if !p.isClientHello && p.isServerHello && ParseServerHelloSpec(p.handshakeData).Some? {
      ServerHelloStep(t, p, md5, stamp);
      assert s.records[..|t.records|] == t.records;
    } else {
      FailedParseStep(t, p, md5, stamp);
    }
  }

  // ---------------------------------------------------------------- over a whole capture

  /** The JA3 of the last ClientHello in ps that parsed and was seen under key. */
  function LatestClientJa3(ps: seq<TlsHandshakePacket>, key: string, md5: string -> Digest): Option<string>
  {
    if ps == [] then None
    else
      var p := ps[|ps| - 1];
      if p.isClientHello && ParseClientHelloSpec(p.handshakeData).Some? && ClientKey(p) == key then
        Some(CalculateJa3(ParseClientHelloSpec(p.handshakeData).value, md5))
      else LatestClientJa3(ps[..|ps| - 1], key, md5)
  }

  /** The pairing map after a capture holds, for every key, the JA3 of the last ClientHello
      that parsed under that key: last seen wins, and nothing is ever removed. */
  lemma {:induction false} PairingMapIsLatest(ps: seq<TlsHandshakePacket>, key: string, md5: string -> Digest, stamp: (nat, nat) -> string)
    ensures var m := Run(Empty, ps, md5, stamp).clientHellos;
      (key in m <==> LatestClientJa3(ps, key, md5).Some?) &&
      (key in m ==> m[key] == LatestClientJa3(ps, key, md5).value)
    decreases |ps|
  {
    if ps != [] {
      var init := ps[..|ps| - 1];
      var p := ps[|ps| - 1];
      PairingMapIsLatest(init, key, md5, stamp);
      var t := Run(Empty, init, md5, stamp);
      if p.isClientHello && ParseClientHelloSpec(p.handshakeData).Some? {
        ClientHelloStep(t, p, md5, stamp);
      } else if !p.isClientHello && p.isServerHello && ParseServerHelloSpec(p.handshakeData).Some? {
        ServerHelloStep(t, p, md5, stamp);
      } else {
        FailedParseStep(t, p, md5, stamp);
      }
    }
  }

  /** A ServerHello that parses after the handshakes ps is recorded with the JA3 of the last
      ClientHello that parsed on the reversed 4-tuple, or with an empty JA3 if there was none. */
  lemma {:induction false} ServerHelloPairing(ps: seq<TlsHandshakePacket>, p: TlsHandshakePacket, md5: string -> Digest, stamp: (nat, nat) -> string)
    requires !p.isClientHello && p.isServerHello && ParseServerHelloSpec(p.handshakeData).Some?
    ensures var records := Run(Empty, ps + [p], md5, stamp).records;
      records != [] &&
      records[|records| - 1].ja3s == CalculateJa3s(ParseServerHelloSpec(p.handshakeData).value, md5) &&
      records[|records| - 1].ja3 == (match LatestClientJa3(ps, ServerLookupKey(p), md5)
        case Some(ja3) => ja3
        case None => "") &&
      records[|records| - 1].sni == []
  {
    assert (ps + [p])[..|ps|] == ps;
    var t := Run(Empty, ps, md5, stamp);
    ServerHelloStep(t, p, md5, stamp);
    PairingMapIsLatest(ps, ServerLookupKey(p), md5, stamp);
  }

  /** A ClientHello followed by the ServerHello of the same connection, in the other direction:
      the ServerHello's record carries the ClientHello's JA3 next to its own JA3S. */
  lemma {:induction false} ClientThenServerPair(c: TlsHandshakePacket, s: TlsHandshakePacket, md5: string -> Digest, stamp: (nat, nat) -> string)
    requires c.isClientHello && ParseClientHelloSpec(c.handshakeData).Some?
    requires !s.isClientHello && s.isServerHello && ParseServerHelloSpec(s.handshakeData).Some?
    requires s.srcIp == c.dstIp && s.srcPort == c.dstPort && s.dstIp == c.srcIp && s.dstPort == c.srcPort
    ensures var records := Run(Empty, [c, s], md5, stamp).records;
      |records| == 2 &&
      records[1].ja3 == CalculateJa3(ParseClientHelloSpec(c.handshakeData).value, md5) &&
      records[1].ja3s == CalculateJa3s(ParseServerHelloSpec(s.handshakeData).value, md5)
  {
    RunSnoc(Empty, [], c, md5, stamp);
    var t1 := Run(Empty, [c], md5, stamp);
    ClientHelloStep(Empty, c, md5, stamp);
    RunSnoc(Empty, [c], s, md5, stamp);
    assert ServerLookupKey(s) == ClientKey(c);
    ServerHelloStep(t1, s, md5, stamp);
  }

  /** How many ClientHellos in ps parsed with the given JA3. */
  function ClientJa3Count(ps: seq<TlsHandshakePacket>, ja3: string, md5: string -> Digest): nat
  {
    if ps == [] then 0
    else
      var p := ps[|ps| - 1];
      ClientJa3Count(ps[..|ps| - 1], ja3, md5) +
      if p.isClientHello && ParseClientHelloSpec(p.handshakeData).Some? &&
         CalculateJa3(ParseClientHelloSpec(p.handshakeData).value, md5) == ja3 then 1 else 0
  }

  /** How many ServerHellos in ps parsed with the given JA3S. */
  function ServerJa3sCount(ps: seq<TlsHandshakePacket>, ja3s: string, md5: string -> Digest): nat
  {
    if ps == [] then 0
    else
      var p := ps[|ps| - 1];
      ServerJa3sCount(ps[..|ps| - 1], ja3s, md5) +
      if !p.isClientHello && p.isServerHello && ParseServerHelloSpec(p.handshakeData).Some? &&
         CalculateJa3s(ParseServerHelloSpec(p.handshakeData).value, md5) == ja3s then 1 else 0
  }

  /** ja3_counts and ja3s_counts count the hellos that parsed, per fingerprint. */
  lemma {:induction false} CountsCountParsedHellos(ps: seq<TlsHandshakePacket>, fp: string, md5: string -> Digest, stamp: (nat, nat) -> string)
    ensures CountOf(Run(Empty, ps, md5, stamp).ja3Counts, fp) == ClientJa3Count(ps, fp, md5)
    ensures CountOf(Run(Empty, ps, md5, stamp).ja3sCounts, fp) == ServerJa3sCount(ps, fp, md5)
    decreases |ps|
  {
    if ps != [] {
      var init := ps[..|ps| - 1];
      var p := ps[|ps| - 1];
      CountsCountParsedHellos(init, fp, md5, stamp);
      var t := Run(Empty, init, md5, stamp);
      if p.isClientHello && ParseClientHelloSpec(p.handshakeData).Some? {
        ClientHelloStep(t, p, md5, stamp);
      } else if !p.isClientHello && p.isServerHello && ParseServerHelloSpec(p.handshakeData).Some? {
        ServerHelloStep(t, p, md5, stamp);
      } else {
        FailedParseStep(t, p, md5, stamp);
      }
    }
  }

  /** Every record carries a fingerprint, and records only grow at the end. */
  lemma {:induction false} RecordsCarryFingerprints(ps: seq<TlsHandshakePacket>, md5: string -> Digest, stamp: (nat, nat) -> string)
    ensures var records := Run(Empty, ps, md5, stamp).records;
      |records| <= |ps| && forall k :: 0 <= k < |records| ==> records[k].ja3 != "" || records[k].ja3s != ""
    decreases |ps|
  {
    if ps != [] {
      RecordsCarryFingerprints(ps[..|ps| - 1], md5, stamp);
      RecordIffParsed(Run(Empty, ps[..|ps| - 1], md5, stamp), ps[|ps| - 1], md5, stamp);
    }
  }

  // ---------------------------------------------------------------- the fingerprinter

  /** The state main keeps for the callback: the vectors and maps it captures by reference. */
  class Fingerprinter {
    var clientHellos: map<string, string>
    var ja3Counts: map<string, nat>
    var ja3sCounts: map<string, nat>
    var records: seq<Ja3Record>
    const md5: string -> Digest
    const stamp: (nat, nat) -> string

    function State(): Tallies
      reads this
    {
      Tallies(clientHellos, ja3Counts, ja3sCounts, records)
    }

    constructor (md5: string -> Digest, stamp: (nat, nat) -> string)
      ensures State() == Empty && this.md5 == md5 && this.stamp == stamp
    {
      clientHellos := map[];
      ja3Counts := map[];
      ja3sCounts := map[];
      records := [];
      this.md5 := md5;
      this.stamp := stamp;
    }

    /** The lambda main passes to process_packets. */
    method OnHandshake(p: TlsHandshakePacket)
      modifies this
      ensures State() == Step(old(State()), p, md5, stamp)
    {
      var record := BlankRecord(p, stamp);
      if p.isClientHello {
        var ok, hello := ParseClientHello(p.handshakeData);
        if ok {
          record := record.(ja3 := CalculateJa3(hello, md5), sni := hello.sni);
          clientHellos := clientHellos[ClientKey(p) := record.ja3];
          ja3Counts := Bump(ja3Counts, record.ja3);
        }
      } else if p.isServerHello {
        var ok, hello := ParseServerHello(p.handshakeData);
        if ok {
          record := record.(ja3s := CalculateJa3s(hello, md5));
          var key := ServerLookupKey(p);
          if key in clientHellos {
            record := record.(ja3 := clientHellos[key]);
          }
          ja3sCounts := Bump(ja3sCounts, record.ja3s);
        }
      }
      if record.ja3 != "" || record.ja3s != "" {
        records := records + [record];
      }
    }

    /** Feeding the handshakes of a capture to the callback, in order. */
    method OnHandshakes(ps: seq<TlsHandshakePacket>)
      modifies this
      ensures State() == Run(old(State()), ps, md5, stamp)
    {
      var i := 0;
      while i < |ps|
        invariant i <= |ps|
        invariant State() == Run(old(State()), ps[..i], md5, stamp)
      {
        assert ps[..i + 1][..i] == ps[..i];
        OnHandshake(ps[i]);
        i := i + 1;
      }
      assert ps[..|ps|] == ps;
    }
  }

  /** main's pipeline: a fresh fingerprinter fed every handshake the reader delivers. */
  method FingerprintCapture(reader: Reader, frames: seq<CapturedFrame>, end: EndOfCapture,
                            ntop: seq<Byte> -> string, md5: string -> Digest, stamp: (nat, nat) -> string)
    returns (ok: bool, fingerprinter: Fingerprinter)
    requires reader.isOpen
    modifies reader
    ensures ok <==> end.Exhausted?
    ensures fingerprinter.State() == Run(Empty, Delivered(frames, ntop), md5, stamp)
  {
    var delivered;
    ok, delivered := reader.ProcessPackets(frames, end, ntop);
    fingerprinter := new Fingerprinter(md5, stamp);
    fingerprinter.OnHandshakes(delivered);
  }
}
