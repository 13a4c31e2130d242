/** The capture walker: Ethernet II frames carrying IPv4 (section 3.1 of RFC 791) or IPv6
    (section 3 of RFC 8200) and TCP (section 3.1 of RFC 9293), down to a TLS handshake record
    (section 6.2.1 of RFC 5246). Every helper is a function of the captured bytes; the reader
    is a class whose error message and open flag change as it works. */
module PcapReader {
  import opened Wrappers
  import opened Bytes

  const Ipv4: U16 := 0x0800
  const Ipv6: U16 := 0x86DD
  const TcpProtocol: Byte := 6
  const HandshakeContent: Byte := 0x16
  const ClientHelloType: Byte := 1
  const ServerHelloType: Byte := 2

  /** The ethertype of an Ethernet II frame. */
  function EtherType(packet: seq<Byte>): U16
    requires 14 <= |packet|
  {
    BE16(packet, 12)
  }

  /** is_tcp_packet: IPv4 with the protocol byte at 23, or IPv6 with the next-header byte at 20,
      saying TCP, with the whole fixed IP header captured. */
  function IsTcpPacket(packet: seq<Byte>): (r: bool)
    ensures r ==> 14 <= |packet| && (EtherType(packet) == Ipv4 || EtherType(packet) == Ipv6)
    ensures r && EtherType(packet) == Ipv4 ==> 34 <= |packet| && packet[23] == TcpProtocol
    ensures r && EtherType(packet) == Ipv6 ==> 54 <= |packet| && packet[20] == TcpProtocol
  {
    if |packet| < 14 then false
    else if EtherType(packet) == Ipv4 then 34 <= |packet| && packet[14 + 9] == TcpProtocol
    else if EtherType(packet) == Ipv6 then 54 <= |packet| && packet[14 + 6] == TcpProtocol
    else false
  }

  /** The IPv4 header length, from the IHL nibble. */
  function Ipv4HeaderLength(packet: seq<Byte>): (r: nat)
    requires 15 <= |packet|
    ensures r <= 60 && r % 4 == 0
  {
    4 * (packet[14] % 16)
  }

  /** The TCP header length, from the data-offset nibble of the header at t. */
  function TcpHeaderLength(packet: seq<Byte>, t: nat): (r: nat)
    requires t + 13 <= |packet|
    ensures r <= 60 && r % 4 == 0
  {
    4 * (packet[t + 12] / 16)
  }

  /** What extract_ip_ports reports: the raw source and destination addresses (4 or 16 bytes,
      rendered later) and the two ports. */
  datatype Endpoints = Endpoints(srcIp: seq<Byte>, dstIp: seq<Byte>, srcPort: U16, dstPort: U16)

  /** extract_ip_ports: the addresses at their fixed places in the IP header, the ports in the
      first four bytes of the TCP header, which follows the IPv4 header or the 40-byte IPv6 header. */
  function ExtractIpPorts(packet: seq<Byte>): (r: Option<Endpoints>)
    ensures r.Some? ==> 14 <= |packet| && (EtherType(packet) == Ipv4 || EtherType(packet) == Ipv6)
    ensures r.Some? && EtherType(packet) == Ipv4 ==> (34 <= |packet| &&
      var t := 14 + Ipv4HeaderLength(packet);
      t + 4 <= |packet| && |r.value.srcIp| == 4 && |r.value.dstIp| == 4 &&
      r.value.srcPort == BE16(packet, t) && r.value.dstPort == BE16(packet, t + 2))
    ensures r.Some? && EtherType(packet) == Ipv6 ==> (
      58 <= |packet| && |r.value.srcIp| == 16 && |r.value.dstIp| == 16 &&
      r.value.srcPort == BE16(packet, 54) && r.value.dstPort == BE16(packet, 56))
  {
    if |packet| < 14 then None
    else if EtherType(packet) == Ipv4 then
      if |packet| < 14 + 20 then None
      else
        var t := 14 + Ipv4HeaderLength(packet);
        if |packet| < t + 4 then None
        else Some(Endpoints(packet[26..30], packet[30..34], BE16(packet, t), BE16(packet, t + 2)))
    else if EtherType(packet) == Ipv6 then
      if |packet| < 14 + 40 then None
      else if |packet| < 54 + 4 then None
      else Some(Endpoints(packet[22..38], packet[38..54], BE16(packet, 54), BE16(packet, 56)))
    else None
  }

  /** Where extract_tls_handshake puts the TCP header. Unlike extract_ip_ports it does not ask
      for a whole IPv6 header here; the TCP length check that follows covers it. */
  function TcpOffset(packet: seq<Byte>): (r: Option<nat>)
    requires 14 <= |packet|
    ensures r.Some? ==> 14 <= r.value <= 74
  {
    if EtherType(packet) == Ipv4 then
      if |packet| < 14 + 20 then None else Some(14 + Ipv4HeaderLength(packet))
    else if EtherType(packet) == Ipv6 then Some(14 + 40)
    else None
  }

  /** Where the TCP payload starts, once a minimal TCP header has been captured. It may lie
      beyond the captured bytes: the data-offset nibble is not checked against them. */
  function PayloadOffset(packet: seq<Byte>): (r: Option<nat>)
    ensures r.Some? ==> (14 <= |packet| && TcpOffset(packet).Some? &&
      TcpOffset(packet).value + 20 <= |packet| &&
      r.value == TcpOffset(packet).value + TcpHeaderLength(packet, TcpOffset(packet).value))
  {
    if |packet| < 14 then None
    else match TcpOffset(packet)
      case None => None
      case Some(t) => if |packet| < t + 20 then None else Some(t + TcpHeaderLength(packet, t))
  }

  /** A TLS handshake message found in a frame, and which hello it is. */
  datatype Handshake = Handshake(data: seq<Byte>, isClientHello: bool, isServerHello: bool)

  /** A handshake record at po: content type 22, a version from SSL 3.0 to TLS 1.3 and a length
      whose bytes are all captured. */
  predicate RecordAt(packet: seq<Byte>, po: nat, len: nat)
  {
    po + 5 + len <= |packet| && packet[po] == HandshakeContent &&
    0x0300 <= BE16(packet, po + 1) <= 0x0304 && BE16(packet, po + 3) == len
  }

  /** extract_tls_handshake with the bounds the code leaves out: the payload must start inside
      the capture, the record must hold at least the handshake type byte, and the handshake is
      the record's whole body. This is the extraction the rest of the model uses. */
  function ExtractTlsHandshake(packet: seq<Byte>): (r: Option<Handshake>)
    ensures r.Some? ==> PayloadOffset(packet).Some? && RecordAt(packet, PayloadOffset(packet).value, |r.value.data|)
    ensures r.Some? ==> (|r.value.data| >= 1 &&
      r.value.data == packet[PayloadOffset(packet).value + 5..PayloadOffset(packet).value + 5 + |r.value.data|])
    ensures r.Some? ==> ((r.value.isClientHello <==> r.value.data[0] == ClientHelloType) &&
      (r.value.isServerHello <==> r.value.data[0] == ServerHelloType) &&
      r.value.isClientHello != r.value.isServerHello)
  {
    match PayloadOffset(packet)
    case None => None
    case Some(po) =>
      if |packet| < po + 5 then None
      else if packet[po] != HandshakeContent then None
      else
        var version := BE16(packet, po + 1);
        if version < 0x0300 || version > 0x0304 then None
        else
          var len := BE16(packet, po + 3);
          if |packet| - po < 5 + len || len == 0 then None
          else
            var kind := packet[po + 5];
            if kind != ClientHelloType && kind != ServerHelloType then None
            else Some(Handshake(packet[po + 5..po + 5 + len], kind == ClientHelloType, kind == ServerHelloType))
  }

  // ---------------------------------------------------------------- as written

  /** What extract_tls_handshake does as written: it rejects, extracts, or reaches undefined
      behaviour by reading at an index past the capture or copying a reversed range. */
  datatype Extraction =
    | Rejected
    | Extracted(handshake: Handshake)
    | ReadPastCapture(index: nat)
    | ReversedCopy(begin: nat, end: nat)

  /** extract_tls_handshake as written. The payload length is the 32-bit unsigned difference
      of the capture length and the payload offset, so it wraps when the offset lies past the
      capture; a record of length 0 lets the handshake type be read one byte past the
      capture; and the copy ends at offset + record length, five bytes short of the record's
      end, or before its own start when the record is shorter than five bytes. */
  function ExtractTlsHandshakeAsWritten(packet: seq<Byte>): (r: Extraction)
    requires |packet| < 0x1_0000_0000
    ensures r.Extracted? ==> PayloadOffset(packet).Some?
    ensures r.Extracted? ==>
      var po := PayloadOffset(packet).value;
      var h := r.handshake;
      RecordAt(packet, po, |h.data| + 5) && h.data == packet[po + 5..po + |h.data| + 5] &&
      (h.isClientHello <==> packet[po + 5] == ClientHelloType) &&
      (h.isServerHello <==> packet[po + 5] == ServerHelloType) && h.isClientHello != h.isServerHello
    ensures r.ReadPastCapture? ==> r.index >= |packet|
    ensures r.ReversedCopy? ==> r.end < r.begin
  {
    match PayloadOffset(packet)
    case None => Rejected
    case Some(po) =>
      var payloadLength := (|packet| - po) % 0x1_0000_0000;
      if payloadLength < 5 then Rejected
      else if |packet| <= po then ReadPastCapture(po)
      else if packet[po] != HandshakeContent then Rejected
      else
        var version := BE16(packet, po + 1);
        if version < 0x0300 || version > 0x0304 then Rejected
        else
          var len := BE16(packet, po + 3);
          if payloadLength < 5 + len then Rejected
          else if |packet| <= po + 5 then ReadPastCapture(po + 5)
          else
            var kind := packet[po + 5];
            if kind != ClientHelloType && kind != ServerHelloType then Rejected
            else if len < 5 then ReversedCopy(po + 5, po + len)
            else Extracted(Handshake(packet[po + 5..po + len], kind == ClientHelloType, kind == ServerHelloType))
  }

  /** The as-written extraction against the corrected one: wherever the corrected one finds a
      handshake, the code copies it without its last five bytes (or copies a reversed range
      when it has fewer than five); the code extracts nothing the corrected one rejects. */
  lemma {:induction false} AsWrittenDropsFiveBytes(packet: seq<Byte>)
    requires |packet| < 0x1_0000_0000
    ensures ExtractTlsHandshake(packet).Some? ==>
      var h := ExtractTlsHandshake(packet).value;
      var po := PayloadOffset(packet).value;
      ExtractTlsHandshakeAsWritten(packet) ==
        if |h.data| >= 5 then Extracted(h.(data := h.data[..|h.data| - 5]))
        else ReversedCopy(po + 5, po + |h.data|)
    ensures ExtractTlsHandshakeAsWritten(packet).Extracted? ==> ExtractTlsHandshake(packet).Some?
    ensures ExtractTlsHandshakeAsWritten(packet).ReadPastCapture? ==> ExtractTlsHandshake(packet).None?
  {
    match PayloadOffset(packet)
    case None =>
    case Some(po) =>
      if po < |packet| {
        assert (|packet| - po) % 0x1_0000_0000 == |packet| - po;
        if ExtractTlsHandshake(packet).Some? {
          var h := ExtractTlsHandshake(packet).value;
          if |h.data| >= 5 {
            assert packet[po + 5..po + |h.data|] == h.data[..|h.data| - 5];
          }
        }
      }
  }

  /** A 54-byte IPv4 frame whose TCP data offset is 15 words: the payload would start at 94,
      past the capture, the unsigned payload length wraps, and the code reads byte 94. */
  lemma {:induction false} PayloadOffsetPastCapture()
    ensures var packet := seq(54, i => if i == 12 then 8 else if i == 14 then 0x45 else if i == 46 then 0xF0 else 0);
      PayloadOffset(packet) == Some(94) &&
      ExtractTlsHandshakeAsWritten(packet) == ReadPastCapture(94) && ExtractTlsHandshake(packet) == None
  {
    var packet := seq(54, i => if i == 12 then 8 else if i == 14 then 0x45 else if i == 46 then 0xF0 else 0);
    assert EtherType(packet) == Ipv4;
    assert TcpOffset(packet) == Some(34);
    assert TcpHeaderLength(packet, 34) == 60;
  }

  /** A frame ending right after a handshake record header of length 0: the code reads the
      handshake type one byte past the capture. */
  lemma {:induction false} EmptyRecordReadsPastCapture()
    ensures var packet := seq(59, i => if i == 12 then 8 else if i == 14 then 0x45 else if i == 46 then 0x50
      else if i == 54 then 0x16 else if i == 55 then 3 else if i == 56 then 3 else 0);
      ExtractTlsHandshakeAsWritten(packet) == ReadPastCapture(59) && ExtractTlsHandshake(packet) == None
  {
    var packet := seq(59, i => if i == 12 then 8 else if i == 14 then 0x45 else if i == 46 then 0x50
      else if i == 54 then 0x16 else if i == 55 then 3 else if i == 56 then 3 else 0);
    assert EtherType(packet) == Ipv4;
    assert TcpOffset(packet) == Some(34);
    assert PayloadOffset(packet) == Some(54);
    assert BE16(packet, 55) == 0x0303;
    assert BE16(packet, 57) == 0;
  }

  // ---------------------------------------------------------------- frames

  /** The IP layer of a frame: IPv4 with header options, or IPv6. */
  datatype IpHeader =
    | Ipv4Header(src: seq<Byte>, dst: seq<Byte>, options: seq<Byte>)
    | Ipv6Header(src: seq<Byte>, dst: seq<Byte>)

  /** A TCP segment: ports, header options and payload. */
  datatype TcpSegment = TcpSegment(srcPort: U16, dstPort: U16, options: seq<Byte>, payload: seq<Byte>)

  datatype Frame = Frame(ip: IpHeader, tcp: TcpSegment)

  predicate ValidFrame(f: Frame)
  {
    (match f.ip
     case Ipv4Header(src, dst, options) => |src| == 4 && |dst| == 4 && |options| % 4 == 0 && |options| <= 40
     case Ipv6Header(src, dst) => |src| == 16 && |dst| == 16) &&
    |f.tcp.options| % 4 == 0 && |f.tcp.options| <= 40
  }

  /** The IP header: version and length nibble, protocol TCP, the addresses; the fields the
      reader does not look at are zero. */
  function EncodeIpHeader(ip: IpHeader): (r: seq<Byte>)
    requires ip.Ipv4Header? ==> |ip.src| == 4 && |ip.dst| == 4 && |ip.options| % 4 == 0 && |ip.options| <= 40
    requires ip.Ipv6Header? ==> |ip.src| == 16 && |ip.dst| == 16
    ensures ip.Ipv4Header? ==> |r| == 20 + |ip.options|
    ensures ip.Ipv6Header? ==> |r| == 40
  {
    match ip
    case Ipv4Header(src, dst, options) =>
      [0x40 + 5 + |options| / 4, 0, 0, 0, 0, 0, 0, 0, 64, TcpProtocol, 0, 0] + src + dst + options
    case Ipv6Header(src, dst) => [0x60, 0, 0, 0, 0, 0, TcpProtocol, 64] + src + dst
  }

  /** The TCP header: ports, the data offset in words, and the options. */
  function EncodeTcpHeader(t: TcpSegment): (r: seq<Byte>)
    requires |t.options| % 4 == 0 && |t.options| <= 40
    ensures |r| == 20 + |t.options|
  {
    U16Bytes(t.srcPort) + U16Bytes(t.dstPort) + [0, 0, 0, 0, 0, 0, 0, 0] +
    [(5 + |t.options| / 4) * 16, 0x18, 0xFF, 0xFF, 0, 0, 0, 0] + t.options
  }

  function EtherTypeOf(ip: IpHeader): U16
  {
    if ip.Ipv4Header? then Ipv4 else Ipv6
  }

  /** The frame's headers: two zero MAC addresses, the ethertype, then the IP and TCP headers. */
  function FrameHeaders(f: Frame): (r: seq<Byte>)
    requires ValidFrame(f)
    ensures |r| == 14 + |EncodeIpHeader(f.ip)| + 20 + |f.tcp.options|
  {
    seq(12, _ => 0) + U16Bytes(EtherTypeOf(f.ip)) + EncodeIpHeader(f.ip) + EncodeTcpHeader(f.tcp)
  }

  function EncodeFrame(f: Frame): (r: seq<Byte>)
    requires ValidFrame(f)
  {
    FrameHeaders(f) + f.tcp.payload
  }

  /** A TLS record of content type 22 carrying one handshake message. */
  function HandshakeRecord(version: U16, fragment: seq<Byte>): (r: seq<Byte>)
    requires |fragment| < 0x1_0000
    ensures |r| == 5 + |fragment|
  {
    [HandshakeContent] + U16Bytes(version) + U16Bytes(|fragment|) + fragment
  }

  /** The three parts of a concatenation, read back by slicing. */
  lemma {:induction false} ConcatParts(a: seq<Byte>, b: seq<Byte>, c: seq<Byte>)
    ensures (a + b + c)[..|a|] == a && (a + b + c)[|a|..|a| + |b|] == b && (a + b + c)[|a| + |b|..] == c
  {
  }

  lemma {:induction false} SliceOfSlice(p: seq<Byte>, i: nat, j: nat, a: nat, b: nat)
    requires i <= j <= |p| && a <= b <= j - i
    ensures p[i..j][a..b] == p[i + a..i + b]
  {
    assert forall k :: 0 <= k < b - a ==> p[i..j][a..b][k] == p[i + a + k];
  }

  /** A byte inside a slice known to equal s. */
  lemma {:induction false} SliceAt(p: seq<Byte>, i: nat, j: nat, s: seq<Byte>, k: nat)
    requires i <= j <= |p| && p[i..j] == s && k < |s|
    ensures i + k < |p| && p[i + k] == s[k]
  {
    assert p[i..j][k] == p[i + k];
  }

  /** The ethertype of a frame starting with two zero MAC addresses and et. */
  lemma {:induction false} EtherTypeAt(p: seq<Byte>, et: U16)
    requires 14 <= |p| && p[..14] == seq(12, _ => 0) + U16Bytes(et)
    ensures EtherType(p) == et
  {
    var eth := seq(12, _ => 0) + U16Bytes(et);
    assert eth[12..14] == U16Bytes(et);
    SliceAt(p, 0, 14, eth, 12);
    SliceAt(p, 0, 14, eth, 13);
  }

  /** The fields of an encoded IPv4 header found at 14. */
  lemma {:induction false} Ipv4HeaderAt(p: seq<Byte>, t: nat, src: seq<Byte>, dst: seq<Byte>, options: seq<Byte>)
    requires |src| == 4 && |dst| == 4 && |options| % 4 == 0 && |options| <= 40
    requires 14 <= t <= |p| && p[14..t] == EncodeIpHeader(Ipv4Header(src, dst, options))
    ensures p[23] == TcpProtocol && Ipv4HeaderLength(p) == t - 14
    ensures p[26..30] == src && p[30..34] == dst
  {
    var ip := EncodeIpHeader(Ipv4Header(src, dst, options));
    assert t == 34 + |options|;
    assert ip[9] == TcpProtocol && ip[0] % 16 == 5 + |options| / 4;
    SliceAt(p, 14, t, ip, 0);
    SliceAt(p, 14, t, ip, 9);
    assert ip[12..16] == src && ip[16..20] == dst;
    SliceOfSlice(p, 14, t, 12, 16);
    SliceOfSlice(p, 14, t, 16, 20);
  }

  /** The fields of an encoded IPv6 header found at 14. */
  lemma {:induction false} Ipv6HeaderAt(p: seq<Byte>, src: seq<Byte>, dst: seq<Byte>)
    requires |src| == 16 && |dst| == 16
    requires 54 <= |p| && p[14..54] == EncodeIpHeader(Ipv6Header(src, dst))
    ensures p[20] == TcpProtocol && p[22..38] == src && p[38..54] == dst
  {
    var ip := EncodeIpHeader(Ipv6Header(src, dst));
    assert ip[6] == TcpProtocol;
    SliceAt(p, 14, 54, ip, 6);
    assert ip[8..24] == src && ip[24..40] == dst;
    assert p[22..38] == p[14..54][8..24];
    assert p[38..54] == p[14..54][24..40];
  }

  /** The fields of an encoded TCP header found at t. */
  lemma {:induction false} TcpHeaderAt(p: seq<Byte>, t: nat, seg: TcpSegment)
    requires |seg.options| % 4 == 0 && |seg.options| <= 40
    requires t <= |p| && p[t..] == EncodeTcpHeader(seg)
    ensures t + 20 <= |p| && BE16(p, t) == seg.srcPort && BE16(p, t + 2) == seg.dstPort
    ensures TcpHeaderLength(p, t) == 20 + |seg.options|
  {
    var tcp := EncodeTcpHeader(seg);
    assert tcp[..2] == U16Bytes(seg.srcPort);
    assert tcp[2..4] == U16Bytes(seg.dstPort);
    assert tcp[12] == (5 + |seg.options| / 4) * 16;
    SliceAt(p, t, |p|, tcp, 0);
    SliceAt(p, t, |p|, tcp, 1);
    SliceAt(p, t, |p|, tcp, 2);
    SliceAt(p, t, |p|, tcp, 3);
    SliceAt(p, t, |p|, tcp, 12);
  }

  /** Where the headers of an encoded frame put the fields the reader looks at. */
  lemma {:induction false} FrameHeaderFields(f: Frame)
    requires ValidFrame(f)
    ensures var p := FrameHeaders(f);
      var t := 14 + |EncodeIpHeader(f.ip)|;
      EtherType(p) == EtherTypeOf(f.ip) && t + 20 <= |p| &&
      (f.ip.Ipv4Header? ==> (p[23] == TcpProtocol && Ipv4HeaderLength(p) == |EncodeIpHeader(f.ip)| &&
        p[26..30] == f.ip.src && p[30..34] == f.ip.dst)) &&
      (f.ip.Ipv6Header? ==> p[20] == TcpProtocol && p[22..38] == f.ip.src && p[38..54] == f.ip.dst) &&
      BE16(p, t) == f.tcp.srcPort && BE16(p, t + 2) == f.tcp.dstPort &&
      TcpHeaderLength(p, t) == 20 + |f.tcp.options|
  {
    var ip := EncodeIpHeader(f.ip);
    var eth := seq(12, _ => 0) + U16Bytes(EtherTypeOf(f.ip));
    var p := FrameHeaders(f);
    var t := 14 + |ip|;
    assert p == eth + ip + EncodeTcpHeader(f.tcp);
    ConcatParts(eth, ip, EncodeTcpHeader(f.tcp));
    EtherTypeAt(p, EtherTypeOf(f.ip));
    TcpHeaderAt(p, t, f.tcp);
    match f.ip
    case Ipv4Header(src, dst, options) => Ipv4HeaderAt(p, t, src, dst, options);
    case Ipv6Header(src, dst) => Ipv6HeaderAt(p, src, dst);
  }

  /** Reading back an encoded frame: it is TCP, and its addresses and ports are the ones encoded. */
  lemma {:induction false} FrameEndpointsRoundTrip(f: Frame)
    requires ValidFrame(f)
    ensures IsTcpPacket(EncodeFrame(f))
    ensures ExtractIpPorts(EncodeFrame(f)) == Some(Endpoints(f.ip.src, f.ip.dst, f.tcp.srcPort, f.tcp.dstPort))
  {
    var h := FrameHeaders(f);
    FrameHeaderFields(f);
    HeadersPrefix(h, f.tcp.payload);
    FrameHeadersEndpoints(f);
    EndpointsOfPrefix(h, f.tcp.payload);
  }

  /** The endpoints read from the headers alone. */
  lemma {:induction false} FrameHeadersEndpoints(f: Frame)
    requires ValidFrame(f)
    ensures ExtractIpPorts(FrameHeaders(f)) == Some(Endpoints(f.ip.src, f.ip.dst, f.tcp.srcPort, f.tcp.dstPort))
  {
    FrameHeaderFields(f);
  }

  /** extract_ip_ports looks only at the headers, so a payload after them changes nothing. */
  lemma {:induction false} EndpointsOfPrefix(h: seq<Byte>, payload: seq<Byte>)
    requires ExtractIpPorts(h).Some?
    ensures ExtractIpPorts(h + payload) == ExtractIpPorts(h)
  {
    HeadersPrefix(h, payload);
  }

  /** Where an encoded frame's payload starts, as extract_tls_handshake computes it. */
  lemma {:induction false} FramePayloadOffset(f: Frame)
    requires ValidFrame(f)
    ensures PayloadOffset(EncodeFrame(f)) == Some(|FrameHeaders(f)|)
    ensures EncodeFrame(f)[|FrameHeaders(f)|..] == f.tcp.payload
  {
    var h := FrameHeaders(f);
    var p := EncodeFrame(f);
    FrameHeaderFields(f);
    HeadersPrefix(h, f.tcp.payload);
    assert TcpOffset(p) == Some(14 + |EncodeIpHeader(f.ip)|);
  }

  /** A handshake record at the payload offset is extracted as its whole body. */
  lemma {:induction false} RecordExtracted(packet: seq<Byte>, po: nat, version: U16, fragment: seq<Byte>)
    requires PayloadOffset(packet) == Some(po) && po <= |packet|
    requires 0x0300 <= version <= 0x0304 && 1 <= |fragment| < 0x1_0000
    requires fragment[0] == ClientHelloType || fragment[0] == ServerHelloType
    requires packet[po..] == HandshakeRecord(version, fragment)
    ensures ExtractTlsHandshake(packet) ==
      Some(Handshake(fragment, fragment[0] == ClientHelloType, fragment[0] == ServerHelloType))
  {
    var record := HandshakeRecord(version, fragment);
    SliceAt(packet, po, |packet|, record, 0);
    SliceAt(packet, po, |packet|, record, 1);
    SliceAt(packet, po, |packet|, record, 2);
    SliceAt(packet, po, |packet|, record, 3);
    SliceAt(packet, po, |packet|, record, 4);
    SliceAt(packet, po, |packet|, record, 5);
    assert record[5..] == fragment;
    assert packet[po + 5..po + 5 + |fragment|] == packet[po..][5..];
  }

  /** Reading back the TLS record a frame carries: the handshake is the record's body, and the
      code as written copies it without its last five bytes. */
  lemma {:induction false} FrameHandshakeRoundTrip(f: Frame, version: U16, fragment: seq<Byte>)
    requires ValidFrame(f) && 0x0300 <= version <= 0x0304 && 1 <= |fragment| < 0x1_0000
    requires fragment[0] == ClientHelloType || fragment[0] == ServerHelloType
    requires f.tcp.payload == HandshakeRecord(version, fragment)
    ensures ExtractTlsHandshake(EncodeFrame(f)) ==
      Some(Handshake(fragment, fragment[0] == ClientHelloType, fragment[0] == ServerHelloType))
    ensures |EncodeFrame(f)| < 0x1_0000_0000 && |fragment| >= 5 ==>
      ExtractTlsHandshakeAsWritten(EncodeFrame(f)) ==
        Extracted(Handshake(fragment[..|fragment| - 5], fragment[0] == ClientHelloType, fragment[0] == ServerHelloType))
  {
    var p := EncodeFrame(f);
    FramePayloadOffset(f);
    RecordExtracted(p, |FrameHeaders(f)|, version, fragment);
    if |p| < 0x1_0000_0000 && |fragment| >= 5 {
      AsWrittenDropsFiveBytes(p);
    }
  }

  /** The headers' fields read the same once the payload follows them. */
  lemma {:induction false} HeadersPrefix(h: seq<Byte>, payload: seq<Byte>)
    requires 14 <= |h|
    ensures var p := h + payload;
      p[..|h|] == h && EtherType(p) == EtherType(h) &&
      (forall i :: 0 <= i < |h| ==> p[i] == h[i]) &&
      (forall i, j :: 0 <= i <= j <= |h| ==> p[i..j] == h[i..j])
  {
    var p := h + payload;
    forall i, j | 0 <= i <= j <= |h|
      ensures p[i..j] == h[i..j]
    {
      assert p[i..j] == p[..|h|][i..j];
    }
  }

  // ---------------------------------------------------------------- the reader

  /** One captured frame and its capture time. */
  datatype CapturedFrame = CapturedFrame(bytes: seq<Byte>, tsSec: nat, tsUsec: nat)

  /** How pcap_next_ex ended the walk: the file ran out, or it reported an error. */
  datatype EndOfCapture = Exhausted | ReadError(message: string)

  /** TLSHandshakePacket: what the callback receives. */
  datatype TlsHandshakePacket = TlsHandshakePacket(
    handshakeData: seq<Byte>,
    srcPort: U16,
    dstPort: U16,
    srcIp: string,
    dstIp: string,
    timestampSec: nat,
    timestampUsec: nat,
    isClientHello: bool,
    isServerHello: bool)

  predicate IsTlsPort(port: U16) { port == 443 || port == 8443 }

  /** The handshake process_packets hands to its callback for one frame, if any: the frame
      must be TCP, carry extractable ports, one of which is 443 or 8443, and a ClientHello or
      ServerHello record. Addresses are rendered by ntop (inet_ntop). */
  function Deliver(frame: CapturedFrame, ntop: seq<Byte> -> string): (r: Option<TlsHandshakePacket>)
    ensures r.Some? ==> (IsTcpPacket(frame.bytes) && ExtractIpPorts(frame.bytes).Some? &&
      ExtractTlsHandshake(frame.bytes).Some?)
    ensures r.Some? ==> ((IsTlsPort(r.value.srcPort) || IsTlsPort(r.value.dstPort)) &&
      r.value.isClientHello != r.value.isServerHello &&
      r.value.handshakeData == ExtractTlsHandshake(frame.bytes).value.data &&
      r.value.timestampSec == frame.tsSec && r.value.timestampUsec == frame.tsUsec)
  {
    if !IsTcpPacket(frame.bytes) then None
    else match ExtractIpPorts(frame.bytes)
      case None => None
      case Some(ep) =>
        if ep.dstPort != 443 && ep.srcPort != 443 && ep.dstPort != 8443 && ep.srcPort != 8443 then None
        else match ExtractTlsHandshake(frame.bytes)
          case None => None
          case Some(h) =>
            if h.isClientHello || h.isServerHello then
              Some(TlsHandshakePacket(h.data, ep.srcPort, ep.dstPort, ntop(ep.srcIp), ntop(ep.dstIp),
                frame.tsSec, frame.tsUsec, h.isClientHello, h.isServerHello))
            else None
  }

  /** What process_packets does with one frame as written: it delivers a handshake, skips the
      frame, or reaches undefined behaviour inside extract_tls_handshake. */
  datatype Delivery = NotDelivered | DeliveredPacket(packet: TlsHandshakePacket) | Undefined

  /** One frame through the same filters with extract_tls_handshake as written. */
  function DeliverAsWritten(frame: CapturedFrame, ntop: seq<Byte> -> string): (r: Delivery)
    requires |frame.bytes| < 0x1_0000_0000
    ensures r.DeliveredPacket? ==>
      (IsTlsPort(r.packet.srcPort) || IsTlsPort(r.packet.dstPort)) &&
      r.packet.isClientHello != r.packet.isServerHello &&
      r.packet.timestampSec == frame.tsSec && r.packet.timestampUsec == frame.tsUsec
  {
    if !IsTcpPacket(frame.bytes) then NotDelivered
    else match ExtractIpPorts(frame.bytes)
      case None => NotDelivered
      case Some(ep) =>
        if ep.dstPort != 443 && ep.srcPort != 443 && ep.dstPort != 8443 && ep.srcPort != 8443 then NotDelivered
        else match ExtractTlsHandshakeAsWritten(frame.bytes)
          case Rejected => NotDelivered
          case ReadPastCapture(_) => Undefined
          case ReversedCopy(_, _) => Undefined
          case Extracted(h) =>
            if h.isClientHello || h.isServerHello then
              DeliveredPacket(TlsHandshakePacket(h.data, ep.srcPort, ep.dstPort, ntop(ep.srcIp), ntop(ep.dstIp),
                frame.tsSec, frame.tsUsec, h.isClientHello, h.isServerHello))
            else NotDelivered
  }

  /** As written, a frame delivers the handshake Deliver finds without its last five bytes, or
      reaches undefined behaviour when that handshake is shorter than five bytes; the code
      delivers nothing from a frame Deliver skips. */
  lemma DeliverAsWrittenDropsFiveBytes(frame: CapturedFrame, ntop: seq<Byte> -> string)
    requires |frame.bytes| < 0x1_0000_0000
    ensures Deliver(frame, ntop).Some? ==>
      var p := Deliver(frame, ntop).value;
      DeliverAsWritten(frame, ntop) ==
        if |p.handshakeData| >= 5 then DeliveredPacket(p.(handshakeData := p.handshakeData[..|p.handshakeData| - 5]))
        else Undefined
    ensures DeliverAsWritten(frame, ntop).DeliveredPacket? ==> Deliver(frame, ntop).Some?
  {
    AsWrittenDropsFiveBytes(frame.bytes);
  }

  /** Every handshake the callback receives for the frames, in capture order. */
  function Delivered(frames: seq<CapturedFrame>, ntop: seq<Byte> -> string): (r: seq<TlsHandshakePacket>)
    ensures |r| <= |frames|
  {
    if frames == [] then []
    else
      var init := Delivered(frames[..|frames| - 1], ntop);
      match Deliver(frames[|frames| - 1], ntop)
      case None => init
      case Some(packet) => init + [packet]
  }

  /** Everything delivered is a ClientHello or a ServerHello seen on a TLS port. */
  lemma {:induction false} DeliveredAreTlsHellos(frames: seq<CapturedFrame>, ntop: seq<Byte> -> string)
    ensures forall k :: 0 <= k < |Delivered(frames, ntop)| ==>
      var packet := Delivered(frames, ntop)[k];
      (IsTlsPort(packet.srcPort) || IsTlsPort(packet.dstPort)) &&
      packet.isClientHello != packet.isServerHello && packet.handshakeData != [] &&
      packet.handshakeData[0] == (if packet.isClientHello then ClientHelloType else ServerHelloType)
    decreases |frames|
  {
    if frames != [] {
      DeliveredAreTlsHellos(frames[..|frames| - 1], ntop);
    }
  }

  /** A frame that is not TCP, or on no TLS port, delivers nothing. */
  lemma {:induction false} NonTlsFramesIgnored(frame: CapturedFrame, ntop: seq<Byte> -> string)
    requires !IsTcpPacket(frame.bytes) ||
      (ExtractIpPorts(frame.bytes).Some? &&
       !IsTlsPort(ExtractIpPorts(frame.bytes).value.srcPort) && !IsTlsPort(ExtractIpPorts(frame.bytes).value.dstPort))
    ensures Delivered([frame], ntop) == []
  {
    assert [frame][..0] == [];
  }

  /** One turn of process_packets' loop: the TCP test, the ports and their filter, the
      handshake extraction and the hello test, in the code's order. */
  method FilterFrame(frame: CapturedFrame, ntop: seq<Byte> -> string) returns (found: bool, handshake: TlsHandshakePacket)
    ensures Deliver(frame, ntop) == if found then Some(handshake) else None
  {
    handshake := TlsHandshakePacket([], 0, 0, "", "", 0, 0, false, false);
    var packet := frame.bytes;
    if !IsTcpPacket(packet) {
      return false, handshake;
    }
    var ports := ExtractIpPorts(packet);
    if ports.None? {
      return false, handshake;
    }
    var ep := ports.value;
    if ep.dstPort != 443 && ep.srcPort != 443 && ep.dstPort != 8443 && ep.srcPort != 8443 {
      return false, handshake;
    }
    var extracted := ExtractTlsHandshake(packet);
    if extracted.None? {
      return false, handshake;
    }
    var h := extracted.value;
    if !h.isClientHello && !h.isServerHello {
      return false, handshake;
    }
    handshake := TlsHandshakePacket(h.data, ep.srcPort, ep.dstPort, ntop(ep.srcIp), ntop(ep.dstIp),
      frame.tsSec, frame.tsUsec, h.isClientHello, h.isServerHello);
    return true, handshake;
  }

  /** PCAPReader: a handle that is open or not, and the last error message. */
  class Reader {
    var isOpen: bool
    var errorMsg: string

    constructor ()
      ensures !isOpen && errorMsg == ""
    {
      isOpen := false;
      errorMsg := "";
    }

    /** open_file: failure carries pcap_open_offline's error text when the file cannot be opened. */
    method OpenFile(failure: Option<string>) returns (ok: bool)
      modifies this
      ensures ok <==> failure.None?
      ensures isOpen == ok
      ensures errorMsg == if ok then "" else "Failed to open PCAP file: " + failure.value
    {
      if failure.Some? {
        errorMsg := "Failed to open PCAP file: " + failure.value;
        isOpen := false;
        return false;
      }
      isOpen := true;
      errorMsg := "";
      return true;
    }

    method Close()
      modifies this
      ensures !isOpen && errorMsg == old(errorMsg)
    {
      isOpen := false;
    }

    /** process_packets: the frames pcap_next_ex returns, in order, each passed through the
        TCP, port and hello filters; the handshakes found are what the callback receives. */
    method ProcessPackets(frames: seq<CapturedFrame>, end: EndOfCapture, ntop: seq<Byte> -> string)
      returns (ok: bool, delivered: seq<TlsHandshakePacket>)
      modifies this
      ensures isOpen == old(isOpen)
      ensures !old(isOpen) ==> !ok && delivered == [] && errorMsg == "PCAP file not open"
      ensures old(isOpen) ==> delivered == Delivered(frames, ntop) && (ok <==> end.Exhausted?)
      ensures old(isOpen) ==> errorMsg == if end.ReadError? then "Error reading PCAP: " + end.message else old(errorMsg)
    {
      if !isOpen {
        errorMsg := "PCAP file not open";
        return false, [];
      }
      delivered := [];
      var i := 0;
      while i < |frames|
        invariant i <= |frames|
        invariant delivered == Delivered(frames[..i], ntop)
        invariant isOpen && errorMsg == old(errorMsg)
      {
        assert frames[..i + 1][..i] == frames[..i];
        var found, handshake := FilterFrame(frames[i], ntop);
        if found {
          delivered := delivered + [handshake];
        }
        i := i + 1;
      }
      assert frames[..|frames|] == frames;
      if end.ReadError? {
        errorMsg := "Error reading PCAP: " + end.message;
        return false, delivered;
      }
      return true, delivered;
    }
  }
}
