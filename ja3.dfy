/** The JA3 / JA3S fingerprinter: ClientHello and ServerHello handshake bodies
    (section 7.4.1.2 and 7.4.1.3 of RFC 5246) read with a byte cursor, and the comma and dash
    separated strings whose MD5 digest, in lower-case hexadecimal, is the fingerprint. */
module Ja3 {
  import opened Wrappers
  import opened Bytes
  import opened Text

  /** TLSClientHello: what the parser keeps of a ClientHello. */
  datatype ClientHello = ClientHello(
    version: U16,
    ciphers: seq<U16>,
    extensions: seq<U16>,
    curves: seq<U16>,
    pointFormats: seq<Byte>,
    sni: seq<Byte>)

  /** TLSServerHello: what the parser keeps of a ServerHello. */
  datatype ServerHello = ServerHello(version: U16, cipher: U16, extensions: seq<U16>)

  const ServerNameType: U16 := 0x0000
  const SupportedGroupsType: U16 := 0x000A
  const PointFormatsType: U16 := 0x000B

  // ---------------------------------------------------------------- the cursor's runs

  /** The 16-bit values read from pos while two more bytes fit before both end and the
      end of the data, and where the cursor stops. */
  function U16Run(data: seq<Byte>, pos: nat, end: nat): (r: (seq<U16>, nat))
    ensures r.1 == pos + 2 * |r.0|
    ensures !(r.1 + 2 <= end && r.1 + 2 <= |data|)
    decreases |data| - pos
  {
    if pos + 2 <= end && pos + 2 <= |data| then
      var rest := U16Run(data, pos + 2, end);
      ([BE16(data, pos)] + rest.0, rest.1)
    else ([], pos)
  }

  /** The bytes read from pos while the cursor is before both end and the end of the data. */
  function ByteRun(data: seq<Byte>, pos: nat, end: nat): (r: (seq<Byte>, nat))
    ensures r.1 == pos + |r.0|
    ensures !(r.1 < end && r.1 < |data|)
    decreases |data| - pos
  {
    if pos < end && pos < |data| then
      var rest := ByteRun(data, pos + 1, end);
      ([data[pos]] + rest.0, rest.1)
    else ([], pos)
  }

  // ---------------------------------------------------------------- ClientHello

  /** One extension of a ClientHello at pos: its type is recorded, supported_groups and
      ec_point_formats contribute their lists, server_name a host name, and the cursor moves
      to where the code leaves it (past the lists it read, or by the extension length). */
  function ClientExtension(data: seq<Byte>, pos: nat, h: ClientHello): (r: (ClientHello, nat))
    requires pos + 4 <= |data|
    ensures r.1 >= pos + 4
    ensures r.0.extensions == h.extensions + [BE16(data, pos)]
    ensures r.0.version == h.version && r.0.ciphers == h.ciphers
  {
    var t, len, p := BE16(data, pos), BE16(data, pos + 2), pos + 4;
    var h1 := h.(extensions := h.extensions + [t]);
    if t == SupportedGroupsType then
      if p + 2 <= |data| then
        var groups := U16Run(data, p + 2, p + 2 + BE16(data, p));
        (h1.(curves := h1.curves + groups.0), groups.1)
      else (h1, p + len)
    else if t == PointFormatsType then
      if p + 1 <= |data| then
        var formats := ByteRun(data, p + 1, p + 1 + data[p]);
        (h1.(pointFormats := h1.pointFormats + formats.0), formats.1)
      else (h1, p + len)
    else if t == ServerNameType then
      if p + 3 <= |data| then
        var q := p + 3;
        if data[p + 2] == 0 && q + 2 <= |data| then
          var nameLen := BE16(data, q);
          if q + 2 + nameLen <= |data| then (h1.(sni := data[q + 2..q + 2 + nameLen]), q + 2 + nameLen)
          else (h1, q + 2)
        else (h1, q)
      else (h1, p + len)
    else (h1, p + len)
  }

  /** The extension loop: extensions are read while a 4-byte header fits before both end and
      the end of the data. */
  function ClientExtensions(data: seq<Byte>, pos: nat, end: nat, h: ClientHello): (r: ClientHello)
    ensures r.version == h.version && r.ciphers == h.ciphers
    ensures h.extensions <= r.extensions
    decreases |data| - pos
  {
    if pos + 4 <= end && pos + 4 <= |data| then
      var step := ClientExtension(data, pos, h);
      ClientExtensions(data, step.1, end, step.0)
    else h
  }

  /** Where the fixed part of a ClientHello or ServerHello puts its fields: a 4-byte
      handshake header, the 2-byte version, 32 random bytes, then the session id. */
  const VersionAt: nat := 4
  const SessionIdAt: nat := 38

  /** parse_client_hello as a value: None where the code returns false. */
  function ParseClientHelloSpec(data: seq<Byte>): (r: Option<ClientHello>)
    ensures r.Some? ==> |data| >= SessionIdAt + 1 && data[0] == 1 && r.value.version == BE16(data, VersionAt)
  {
    if |data| < 5 || data[0] != 1 || VersionAt + 2 > |data| || SessionIdAt >= |data| then None
    else ClientCipherSuitesAt(data, BE16(data, VersionAt), SessionIdAt + 1 + data[SessionIdAt])
  }

  /** The rest of a ClientHello once the session id is skipped: c is where the cipher
      suites' length field should be. */
  function ClientCipherSuitesAt(data: seq<Byte>, version: U16, c: nat): (r: Option<ClientHello>)
    ensures r.Some? ==> r.value.version == version
  {
    if c + 2 > |data| then None
    else
      var ciphers := U16Run(data, c + 2, c + 2 + BE16(data, c));
      ClientCompressionAt(data, version, ciphers.0, ciphers.1)
  }

  /** The rest of a ClientHello once the cipher suites are read: q is where the compression
      methods' length byte should be. */
  function ClientCompressionAt(data: seq<Byte>, version: U16, ciphers: seq<U16>, q: nat): (r: Option<ClientHello>)
    ensures r.Some? ==> r.value.version == version && r.value.ciphers == ciphers
  {
    if q >= |data| then None
    else
      var e := q + 1 + data[q];
      if e + 2 > |data| then None
      else Some(ClientExtensions(data, e + 2, e + 2 + BE16(data, e), ClientHello(version, ciphers, [], [], [], [])))
  }

  lemma {:induction false} U16RunStep(data: seq<Byte>, pos: nat, end: nat)
    requires pos + 2 <= end && pos + 2 <= |data|
    ensures U16Run(data, pos, end).0 == [BE16(data, pos)] + U16Run(data, pos + 2, end).0
    ensures U16Run(data, pos, end).1 == U16Run(data, pos + 2, end).1
  {
  }

  /** The run holds the big-endian values at pos, pos + 2, ... in order. */
  lemma {:induction false} U16RunReads(data: seq<Byte>, pos: nat, end: nat)
    ensures var r := U16Run(data, pos, end);
      forall k :: 0 <= k < |r.0| ==> pos + 2 * k + 2 <= |data| && r.0[k] == BE16(data, pos + 2 * k)
    decreases |data| - pos
  {
    if pos + 2 <= end && pos + 2 <= |data| {
      U16RunReads(data, pos + 2, end);
    }
  }

  lemma {:induction false} ByteRunStep(data: seq<Byte>, pos: nat, end: nat)
    requires pos < end && pos < |data|
    ensures ByteRun(data, pos, end).0 == [data[pos]] + ByteRun(data, pos + 1, end).0
    ensures ByteRun(data, pos, end).1 == ByteRun(data, pos + 1, end).1
  {
  }

  /** The run holds the bytes at pos, pos + 1, ... in order. */
  lemma {:induction false} ByteRunReads(data: seq<Byte>, pos: nat, end: nat)
    ensures var r := ByteRun(data, pos, end);
      forall k :: 0 <= k < |r.0| ==> pos + k < |data| && r.0[k] == data[pos + k]
    decreases |data| - pos
  {
    if pos < end && pos < |data| {
      ByteRunReads(data, pos + 1, end);
      ByteRunStep(data, pos, end);
      var r, rest := ByteRun(data, pos, end), ByteRun(data, pos + 1, end);
      forall k | 0 <= k < |r.0|
        ensures pos + k < |data| && r.0[k] == data[pos + k]
      {
        if k > 0 {
          assert r.0[k] == rest.0[k - 1];
          assert pos + 1 + (k - 1) == pos + k;
        }
      }
    }
  }

  /** parse_client_hello: the cursor walk with its nested loops, filling a fresh
      TLSClientHello. */
  method ParseClientHello(data: seq<Byte>) returns (ok: bool, hello: ClientHello)
    ensures ParseClientHelloSpec(data) == if ok then Some(hello) else None
  {
    hello := ClientHello(0, [], [], [], [], []);
    if |data| < 5 {
      return false, hello;
    }
    var pos := 0;
    if data[pos] != 0x01 {
      return false, hello;
    }
    pos := pos + 1;
    pos := pos + 3;
    if pos + 2 > |data| {
      return false, hello;
    }
    var version := BE16(data, pos);
    hello := hello.(version := version);
    pos := pos + 2;
    pos := pos + 32;
    if pos >= |data| {
      return false, hello;
    }
    var sessionIdLen := data[pos];
    pos := pos + 1 + sessionIdLen;
    ok, hello := ParseClientHelloFrom(data, version, pos);
  }

  /** parse_client_hello from the cipher suites' length field at pos onwards. */
  method ParseClientHelloFrom(data: seq<Byte>, version: U16, pos0: nat) returns (ok: bool, hello: ClientHello)
    ensures ClientCipherSuitesAt(data, version, pos0) == if ok then Some(hello) else None
  {
    var pos := pos0;
    hello := ClientHello(version, [], [], [], [], []);
    if pos + 2 > |data| {
      return false, hello;
    }
    var cipherSuitesLen := BE16(data, pos);
    pos := pos + 2;
    var ciphers;
    ciphers, pos := ReadU16Run(data, pos, pos + cipherSuitesLen);
    hello := hello.(ciphers := ciphers);
    assert ClientCipherSuitesAt(data, version, pos0) == ClientCompressionAt(data, version, ciphers, pos);
    if pos >= |data| {
      return false, hello;
    }
    var compressionLen := data[pos];
    pos := pos + 1 + compressionLen;
    if pos + 2 > |data| {
      return false, hello;
    }
    var extensionsLen := BE16(data, pos);
    pos := pos + 2;
    hello := ReadClientExtensions(data, pos, pos + extensionsLen, hello);
    return true, hello;
  }

  /** The loop reading 16-bit values while two more bytes fit before end and the end of the data. */
  method ReadU16Run(data: seq<Byte>, pos0: nat, end: nat) returns (values: seq<U16>, pos: nat)
    ensures (values, pos) == U16Run(data, pos0, end)
  {
    ghost var run := U16Run(data, pos0, end);
    values, pos := [], pos0;
    while pos + 2 <= end && pos + 2 <= |data|
      invariant values + U16Run(data, pos, end).0 == run.0 && U16Run(data, pos, end).1 == run.1
      decreases |data| - pos
    {
      U16RunStep(data, pos, end);
      var v := BE16(data, pos);
      ghost var tail := U16Run(data, pos + 2, end).0;
      assert values + ([v] + tail) == (values + [v]) + tail;
      values := values + [v];
      pos := pos + 2;
    }
    assert values + [] == values;
  }

  /** The loop reading bytes while the cursor is before end and the end of the data. */
  method ReadByteRun(data: seq<Byte>, pos0: nat, end: nat) returns (bytes: seq<Byte>, pos: nat)
    ensures (bytes, pos) == ByteRun(data, pos0, end)
  {
    ghost var run := ByteRun(data, pos0, end);
    bytes, pos := [], pos0;
    while pos < end && pos < |data|
      invariant bytes + ByteRun(data, pos, end).0 == run.0 && ByteRun(data, pos, end).1 == run.1
      decreases |data| - pos
    {
      ByteRunStep(data, pos, end);
      ghost var tail := ByteRun(data, pos + 1, end).0;
      assert bytes + ([data[pos]] + tail) == (bytes + [data[pos]]) + tail;
      bytes := bytes + [data[pos]];
      pos := pos + 1;
    }
    assert bytes + [] == bytes;
  }

  /** The extension loop of parse_client_hello. */
  method ReadClientExtensions(data: seq<Byte>, pos0: nat, end: nat, hello0: ClientHello) returns (hello: ClientHello)
    ensures hello == ClientExtensions(data, pos0, end, hello0)
  {
    var pos := pos0;
    hello := hello0;
    while pos + 4 <= end && pos + 4 <= |data|
      invariant ClientExtensions(data, pos, end, hello) == ClientExtensions(data, pos0, end, hello0)
      decreases |data| - pos
    {
      hello, pos := ReadClientExtension(data, pos, hello);
    }
  }

  /** One pass of the extension loop of parse_client_hello. */
  method ReadClientExtension(data: seq<Byte>, pos0: nat, hello0: ClientHello) returns (hello: ClientHello, pos: nat)
    requires pos0 + 4 <= |data|
    ensures (hello, pos) == ClientExtension(data, pos0, hello0)
  {
    hello, pos := hello0, pos0;
    var extType := BE16(data, pos);
    var extLen := BE16(data, pos + 2);
    pos := pos + 4;
    hello := hello.(extensions := hello.extensions + [extType]);
    if extType == SupportedGroupsType {
      if pos + 2 <= |data| {
        var groupsLen := BE16(data, pos);
        pos := pos + 2;
        var curves;
        curves, pos := ReadU16Run(data, pos, pos + groupsLen);
        hello := hello.(curves := hello.curves + curves);
      } else {
        pos := pos + extLen;
      }
    } else if extType == PointFormatsType {
      if pos + 1 <= |data| {
        var formatsLen := data[pos];
        pos := pos + 1;
        var formats;
        formats, pos := ReadByteRun(data, pos, pos + formatsLen);
        hello := hello.(pointFormats := hello.pointFormats + formats);
      } else {
        pos := pos + extLen;
      }
    } else if extType == ServerNameType {
      if pos + 3 <= |data| {
        pos := pos + 2;
        var nameType := data[pos];
        pos := pos + 1;
        if nameType == 0 && pos + 2 <= |data| {
          var nameLen := BE16(data, pos);
          pos := pos + 2;
          if pos + nameLen <= |data| {
            hello := hello.(sni := data[pos..pos + nameLen]);
            pos := pos + nameLen;
          }
        }
      } else {
        pos := pos + extLen;
      }
    } else {
      pos := pos + extLen;
    }
  }

  // ---------------------------------------------------------------- ServerHello

  /** The ServerHello extension loop: each type is recorded and its body skipped by its length. */
  function ServerExtensions(data: seq<Byte>, pos: nat, end: nat, acc: seq<U16>): (r: seq<U16>)
    ensures |r| >= |acc|
    decreases |data| - pos
  {
    if pos + 4 <= end && pos + 4 <= |data| then
      ServerExtensions(data, pos + 4 + BE16(data, pos + 2), end, acc + [BE16(data, pos)])
    else acc
  }

  /** parse_server_hello as a value: None where the code returns false. */
  function ParseServerHelloSpec(data: seq<Byte>): (r: Option<ServerHello>)
    ensures r.Some? ==> |data| >= SessionIdAt + 1 && data[0] == 2 && r.value.version == BE16(data, VersionAt)
  {
    if |data| < 5 || data[0] != 2 || VersionAt + 2 > |data| || SessionIdAt >= |data| then None
    else
      var version := BE16(data, VersionAt);
      var c := SessionIdAt + 1 + data[SessionIdAt];
      if c + 2 > |data| then None
      else
        var cipher := BE16(data, c);
        var e := c + 3;
        if e + 2 <= |data| then Some(ServerHello(version, cipher, ServerExtensions(data, e + 2, e + 2 + BE16(data, e), [])))
        else Some(ServerHello(version, cipher, []))
  }

  /** parse_server_hello: the cursor walk filling a fresh TLSServerHello. */
  method ParseServerHello(data: seq<Byte>) returns (ok: bool, hello: ServerHello)
    ensures ok <==> ParseServerHelloSpec(data).Some?
    ensures ok ==> hello == ParseServerHelloSpec(data).value
  {
    hello := ServerHello(0, 0, []);
    if |data| < 5 {
      return false, hello;
    }
    var pos := 0;
    if data[pos] != 0x02 {
      return false, hello;
    }
    pos := pos + 1;
    pos := pos + 3;
    if pos + 2 > |data| {
      return false, hello;
    }
    hello := hello.(version := BE16(data, pos));
    pos := pos + 2;
    pos := pos + 32;
    if pos >= |data| {
      return false, hello;
    }
    var sessionIdLen := data[pos];
    pos := pos + 1 + sessionIdLen;
    if pos + 2 > |data| {
      return false, hello;
    }
    hello := hello.(cipher := BE16(data, pos));
    pos := pos + 2;
    pos := pos + 1;
    ghost var spec := ParseServerHelloSpec(data);
    assert spec.Some? && spec.value.version == hello.version && spec.value.cipher == hello.cipher;
    if pos + 2 <= |data| {
      var extensionsLen := BE16(data, pos);
      pos := pos + 2;
      var extensionsEnd := pos + extensionsLen;
      assert spec.value.extensions == ServerExtensions(data, pos, extensionsEnd, []);
      while pos + 4 <= extensionsEnd && pos + 4 <= |data|
        invariant ServerExtensions(data, pos, extensionsEnd, hello.extensions) == spec.value.extensions
        invariant hello == spec.value.(extensions := hello.extensions)
        decreases |data| - pos
      {
        var extType := BE16(data, pos);
        var extLen := BE16(data, pos + 2);
        pos := pos + 4;
        hello := hello.(extensions := hello.extensions + [extType]);
        pos := pos + extLen;
      }
    }
    return true, hello;
  }

  // ---------------------------------------------------------------- bytes_to_hex

  predicate AllLowerHex(s: string) { forall i :: 0 <= i < |s| ==> IsLowerHex(s[i]) }

  /** bytes_to_hex: two zero-padded lower-case hexadecimal digits per byte, in order. */
  function BytesToHex(bytes: seq<Byte>): (r: string)
    ensures |r| == 2 * |bytes| && AllLowerHex(r)
  {
    if bytes == [] then ""
    else
      var b := bytes[0];
      HexLowerIsLowerHex(b / 16);
      HexLowerIsLowerHex(b % 16);
      [HexLower(b / 16), HexLower(b % 16)] + BytesToHex(bytes[1..])
  }

  /** The value of a lower-case hexadecimal digit. */
  function LowerHexValue(c: char): (v: nat)
    requires IsLowerHex(c)
    ensures v < 16
  {
    if c <= '9' then c as int - 48 else c as int - 87
  }

  /** Reads lower-case hexadecimal back into bytes, two digits per byte. */
  function HexToBytes(s: string): (r: seq<Byte>)
    requires |s| % 2 == 0 && AllLowerHex(s)
    ensures |r| == |s| / 2
  {
    if s == [] then []
    else [LowerHexValue(s[0]) * 16 + LowerHexValue(s[1])] + HexToBytes(s[2..])
  }

  /** Reading the hexadecimal back gives the bytes: nothing is lost or reordered. */
  lemma {:induction false} BytesToHexRoundTrip(bytes: seq<Byte>)
    ensures HexToBytes(BytesToHex(bytes)) == bytes
  {
    if bytes != [] {
      var b := bytes[0];
      assert LowerHexValue(HexLower(b / 16)) == b / 16;
      assert LowerHexValue(HexLower(b % 16)) == b % 16;
      assert BytesToHex(bytes)[2..] == BytesToHex(bytes[1..]);
      BytesToHexRoundTrip(bytes[1..]);
    }
  }

  // ---------------------------------------------------------------- JA3 / JA3S strings

  /** The decimal rendering of every value, in order. */
  function Decimals(xs: seq<nat>): (r: seq<string>)
    ensures |r| == |xs| && forall k :: 0 <= k < |xs| ==> r[k] == Decimal(xs[k])
  {
    if xs == [] then [] else [Decimal(xs[0])] + Decimals(xs[1..])
  }

  /** A list field of a JA3 string: the decimal values joined with '-', empty for no values. */
  function DashList(xs: seq<nat>): (r: string)
    ensures ',' !in r
    ensures r == [] <==> xs == []
  {
    var r := JoinWith(Decimals(xs), '-');
    assert ',' !in r by { DashListCharacters(xs); }
    assert xs != [] ==> r != [] by {
      if xs != [] {
        SplitJoinDecimals(xs);
      }
    }
    r
  }

  lemma {:induction false} DashListCharacters(xs: seq<nat>)
    ensures forall i :: 0 <= i < |JoinWith(Decimals(xs), '-')| ==>
      JoinWith(Decimals(xs), '-')[i] == '-' || IsDigit(JoinWith(Decimals(xs), '-')[i])
  {
    JoinWithCharacters(Decimals(xs), '-');
  }

  /** The characters of a join are the separator's and the parts'. */
  lemma {:induction false} JoinWithCharacters(parts: seq<string>, d: char)
    requires forall k :: 0 <= k < |parts| ==> AllDigits(parts[k])
    ensures forall i :: 0 <= i < |JoinWith(parts, d)| ==> JoinWith(parts, d)[i] == d || IsDigit(JoinWith(parts, d)[i])
    decreases |parts|
  {
    if |parts| > 1 {
      JoinWithCharacters(parts[..|parts| - 1], d);
    }
  }

  lemma {:induction false} SplitJoinDecimals(xs: seq<nat>)
    requires xs != []
    ensures SplitAll(JoinWith(Decimals(xs), '-'), '-') == Decimals(xs)
  {
    var ds := Decimals(xs);
    forall k | 0 <= k < |ds| ensures '-' !in ds[k] {
      assert AllDigits(ds[k]);
    }
    SplitJoin(ds, '-');
  }

  /** Two lists with the same field are the same list: the field keeps every value and its place. */
  lemma {:induction false} DashListInjective(xs: seq<nat>, ys: seq<nat>)
    requires DashList(xs) == DashList(ys)
    ensures xs == ys
  {
    if xs != [] {
      SplitJoinDecimals(xs);
      SplitJoinDecimals(ys);
      assert Decimals(xs) == Decimals(ys);
      forall k | 0 <= k < |xs| ensures xs[k] == ys[k] {
        DecimalInjective(xs[k], ys[k]);
      }
    }
  }

  /** The JA3 pre-hash string: version, cipher suites, extensions, curves, point formats. */
  function Ja3String(h: ClientHello): (r: string)
  {
    Decimal(h.version) + "," + DashList(h.ciphers) + "," + DashList(h.extensions) + "," +
    DashList(h.curves) + "," + DashList(h.pointFormats)
  }

  /** The JA3S pre-hash string: version, cipher suite, extensions. */
  function Ja3sString(h: ServerHello): (r: string)
  {
    Decimal(h.version) + "," + Decimal(h.cipher) + "," + DashList(h.extensions)
  }

  lemma {:induction false} DecimalHasNoComma(n: nat)
    ensures ',' !in Decimal(n)
  {
    var s := Decimal(n);
    assert forall i :: 0 <= i < |s| ==> IsDigit(s[i]);
  }

  /** A JA3 string has exactly five comma-separated fields, each the rendering of one part of
      the hello; an empty list gives an empty field rather than a missing one. */
  lemma {:induction false} Ja3Fields(h: ClientHello)
    ensures SplitAll(Ja3String(h), ',') ==
      [Decimal(h.version), DashList(h.ciphers), DashList(h.extensions), DashList(h.curves), DashList(h.pointFormats)]
  {
    var v, c, e, g, f := Decimal(h.version), DashList(h.ciphers), DashList(h.extensions), DashList(h.curves), DashList(h.pointFormats);
    DecimalHasNoComma(h.version);
    SplitAllWithoutDelimiter(v, ',');
    var a2 := v + [','] + c;
    SplitAllSnocField(v, [v], c, ',');
    var a3 := a2 + [','] + e;
    SplitAllSnocField(a2, [v, c], e, ',');
    var a4 := a3 + [','] + g;
    SplitAllSnocField(a3, [v, c, e], g, ',');
    SplitAllSnocField(a4, [v, c, e, g], f, ',');
    assert Ja3String(h) == a4 + [','] + f;
  }

  /** A JA3S string has exactly three comma-separated fields. */
  lemma {:induction false} Ja3sFields(h: ServerHello)
    ensures SplitAll(Ja3sString(h), ',') == [Decimal(h.version), Decimal(h.cipher), DashList(h.extensions)]
  {
    var v, c, e := Decimal(h.version), Decimal(h.cipher), DashList(h.extensions);
    DecimalHasNoComma(h.version);
    DecimalHasNoComma(h.cipher);
    SplitAllWithoutDelimiter(v, ',');
    SplitAllSnocField(v, [v], c, ',');
    SplitAllSnocField(v + [','] + c, [v, c], e, ',');
    assert Ja3sString(h) == v + [','] + c + [','] + e;
  }

  /** Hellos with the same JA3 string agree on everything JA3 covers, order included. */
  lemma {:induction false} Ja3StringInjective(h1: ClientHello, h2: ClientHello)
    requires Ja3String(h1) == Ja3String(h2)
    ensures h1.version == h2.version && h1.ciphers == h2.ciphers && h1.extensions == h2.extensions
    ensures h1.curves == h2.curves && h1.pointFormats == h2.pointFormats
  {
    Ja3Fields(h1);
    Ja3Fields(h2);
    DecimalInjective(h1.version, h2.version);
    DashListInjective(h1.ciphers, h2.ciphers);
    DashListInjective(h1.extensions, h2.extensions);
    DashListInjective(h1.curves, h2.curves);
    DashListInjective(h1.pointFormats, h2.pointFormats);
  }

  /** Hellos with the same JA3S string agree on version, cipher suite and extensions. */
  lemma {:induction false} Ja3sStringInjective(h1: ServerHello, h2: ServerHello)
    requires Ja3sString(h1) == Ja3sString(h2)
    ensures h1 == h2
  {
    Ja3sFields(h1);
    Ja3sFields(h2);
    DecimalInjective(h1.version, h2.version);
    DecimalInjective(h1.cipher, h2.cipher);
    DashListInjective(h1.extensions, h2.extensions);
  }

  // ---------------------------------------------------------------- digests

  /** An MD5 digest is 16 bytes; MD5 itself is a parameter of the model. */
  type Digest = d: seq<Byte> | |d| == 16 witness [0, 0, 0, 0, 0, 0, 0, 0, 0, 0, 0, 0, 0, 0, 0, 0]

  /** calculate_ja3: the MD5 of the JA3 string in hexadecimal. */
  function CalculateJa3(h: ClientHello, md5: string -> Digest): (r: string)
    ensures |r| == 32 && AllLowerHex(r)
    ensures HexToBytes(r) == md5(Ja3String(h))
  {
    BytesToHexRoundTrip(md5(Ja3String(h)));
    BytesToHex(md5(Ja3String(h)))
  }

  /** calculate_ja3s: the MD5 of the JA3S string in hexadecimal. */
  function CalculateJa3s(h: ServerHello, md5: string -> Digest): (r: string)
    ensures |r| == 32 && AllLowerHex(r)
    ensures HexToBytes(r) == md5(Ja3sString(h))
  {
    BytesToHexRoundTrip(md5(Ja3sString(h)));
    BytesToHex(md5(Ja3sString(h)))
  }
}
