/** The wire form of the hellos the JA3 parser reads: the ClientHello and ServerHello
    bodies of section 7.4.1.2 and 7.4.1.3 of RFC 5246, with the server_name extension of
    section 3 of RFC 6066 and the supported_groups and ec_point_formats extensions of sections
    5.1.1 and 5.1.2 of RFC 8422. Encoding a message and parsing it back gives what the
    message says, which pins down what the parser reads and where. */
module HelloWire {
  import opened Wrappers
  import opened Bytes
  import opened Ja3

  datatype Extension =
    | SupportedGroups(groups: seq<U16>)
    | PointFormats(formats: seq<Byte>)
    | ServerName(name: seq<Byte>)
    | OtherExtension(extType: U16, body: seq<Byte>)

  predicate ValidExtension(x: Extension)
  {
    match x
    case SupportedGroups(g) => 2 + 2 * |g| < 0x1_0000
    case PointFormats(f) => |f| < 0x100
    case ServerName(n) => 5 + |n| < 0x1_0000
    case OtherExtension(t, b) => t != ServerNameType && t != SupportedGroupsType && t != PointFormatsType && |b| < 0x1_0000
  }

  predicate ValidExtensions(xs: seq<Extension>) { forall k :: 0 <= k < |xs| ==> ValidExtension(xs[k]) }

  function ExtensionType(x: Extension): U16
  {
    match x
    case SupportedGroups(_) => SupportedGroupsType
    case PointFormats(_) => PointFormatsType
    case ServerName(_) => ServerNameType
    case OtherExtension(t, _) => t
  }

  /** The extension_data of an extension. A server_name list holds one host_name entry. */
  function ExtensionBody(x: Extension): (r: seq<Byte>)
    requires ValidExtension(x)
    ensures |r| < 0x1_0000
  {
    match x
    case SupportedGroups(g) => U16Bytes(2 * |g|) + U16ListBytes(g)
    case PointFormats(f) => [|f|] + f
    case ServerName(n) => U16Bytes(3 + |n|) + [0] + U16Bytes(|n|) + n
    case OtherExtension(_, b) => b
  }

  function EncodeExtension(x: Extension): (r: seq<Byte>)
    requires ValidExtension(x)
    ensures |r| == 4 + |ExtensionBody(x)|
  {
    U16Bytes(ExtensionType(x)) + U16Bytes(|ExtensionBody(x)|) + ExtensionBody(x)
  }

  function EncodeExtensions(xs: seq<Extension>): seq<Byte>
    requires ValidExtensions(xs)
  {
    if xs == [] then [] else EncodeExtension(xs[0]) + EncodeExtensions(xs[1..])
  }

  function ExtensionTypes(xs: seq<Extension>): (r: seq<U16>)
    ensures |r| == |xs|
  {
    if xs == [] then [] else [ExtensionType(xs[0])] + ExtensionTypes(xs[1..])
  }

  /** What one extension contributes to TLSClientHello. */
  function Apply(h: ClientHello, x: Extension): ClientHello
  {
    var h1 := h.(extensions := h.extensions + [ExtensionType(x)]);
    match x
    case SupportedGroups(g) => h1.(curves := h1.curves + g)
    case PointFormats(f) => h1.(pointFormats := h1.pointFormats + f)
    case ServerName(n) => h1.(sni := n)
    case OtherExtension(_, _) => h1
  }

  function ApplyAll(h: ClientHello, xs: seq<Extension>): ClientHello
    decreases |xs|
  {
    if xs == [] then h else ApplyAll(Apply(h, xs[0]), xs[1..])
  }

  // ---------------------------------------------------------------- reading at a position

  /** data holds bytes at pos. */
  predicate ReadsAt(data: seq<Byte>, pos: nat, bytes: seq<Byte>)
    decreases |bytes|
  {
    pos + |bytes| <= |data| && (bytes == [] || (data[pos] == bytes[0] && ReadsAt(data, pos + 1, bytes[1..])))
  }

  lemma {:induction false} ReadsAtSplit(data: seq<Byte>, pos: nat, a: seq<Byte>, b: seq<Byte>)
    requires ReadsAt(data, pos, a + b)
    ensures ReadsAt(data, pos, a) && ReadsAt(data, pos + |a|, b)
    decreases |a|
  {
    if a != [] {
      assert (a + b)[1..] == a[1..] + b;
      ReadsAtSplit(data, pos + 1, a[1..], b);
    } else {
      assert a + b == b;
    }
  }

  lemma {:induction false} ReadsAtSlice(data: seq<Byte>, pos: nat, bytes: seq<Byte>)
    requires ReadsAt(data, pos, bytes)
    ensures data[pos..pos + |bytes|] == bytes
    decreases |bytes|
  {
    if bytes != [] {
      ReadsAtSlice(data, pos + 1, bytes[1..]);
      assert data[pos..pos + |bytes|] == [data[pos]] + data[pos + 1..pos + |bytes|];
    }
  }

  lemma {:induction false} ReadsAtOwnSlice(data: seq<Byte>, pos: nat, n: nat)
    requires pos + n <= |data|
    ensures ReadsAt(data, pos, data[pos..pos + n])
    decreases n
  {
    if n > 0 {
      ReadsAtOwnSlice(data, pos + 1, n - 1);
      assert data[pos..pos + n][1..] == data[pos + 1..pos + n];
    }
  }

  lemma {:induction false} ByteAt(data: seq<Byte>, pos: nat, b: Byte)
    requires ReadsAt(data, pos, [b])
    ensures pos < |data| && data[pos] == b
  {
    assert data[pos..pos + 1][0] == data[pos];
  }

  lemma {:induction false} U16At(data: seq<Byte>, pos: nat, v: U16)
    requires ReadsAt(data, pos, U16Bytes(v))
    ensures pos + 2 <= |data| && BE16(data, pos) == v
  {
    var w := U16Bytes(v);
    assert data[pos] == data[pos..pos + 2][0] == w[0];
    assert data[pos + 1] == data[pos..pos + 2][1] == w[1];
  }

  lemma {:induction false} U16RunOfList(data: seq<Byte>, pos: nat, g: seq<U16>, end: nat)
    requires ReadsAt(data, pos, U16ListBytes(g)) && end == pos + 2 * |g|
    ensures U16Run(data, pos, end) == (g, end)
    decreases |g|
  {
    if g != [] {
      ReadsAtSplit(data, pos, U16Bytes(g[0]), U16ListBytes(g[1..]));
      U16At(data, pos, g[0]);
      U16RunOfList(data, pos + 2, g[1..], end);
      assert [g[0]] + g[1..] == g;
    }
  }

  lemma {:induction false} ByteRunOfSlice(data: seq<Byte>, pos: nat, f: seq<Byte>)
    requires ReadsAt(data, pos, f)
    ensures ByteRun(data, pos, pos + |f|) == (f, pos + |f|)
    decreases |f|
  {
    if f != [] {
      ReadsAtSplit(data, pos, [f[0]], f[1..]);
      ByteAt(data, pos, f[0]);
      ByteRunOfSlice(data, pos + 1, f[1..]);
      assert [f[0]] + f[1..] == f;
    }
  }

  // ---------------------------------------------------------------- extensions read back

  /** The header of an encoded extension carries its type and its body's length. */
  lemma {:induction false} ExtensionHeaderAt(data: seq<Byte>, pos: nat, x: Extension)
    requires ValidExtension(x) && ReadsAt(data, pos, EncodeExtension(x))
    ensures pos + 4 <= |data| && BE16(data, pos) == ExtensionType(x) && BE16(data, pos + 2) == |ExtensionBody(x)|
    ensures ReadsAt(data, pos + 4, ExtensionBody(x))
  {
    var body := ExtensionBody(x);
    ReadsAtSplit(data, pos, U16Bytes(ExtensionType(x)) + U16Bytes(|body|), body);
    ReadsAtSplit(data, pos, U16Bytes(ExtensionType(x)), U16Bytes(|body|));
    U16At(data, pos, ExtensionType(x));
    U16At(data, pos + 2, |body|);
  }

  /** A 16-bit byte count followed by that many bytes of 16-bit values reads back as the values. */
  lemma {:induction false} LengthPrefixedU16s(data: seq<Byte>, p: nat, g: seq<U16>)
    requires 2 * |g| < 0x1_0000 && ReadsAt(data, p, U16Bytes(2 * |g|) + U16ListBytes(g))
    ensures p + 2 <= |data| && BE16(data, p) == 2 * |g|
    ensures U16Run(data, p + 2, p + 2 + 2 * |g|) == (g, p + 2 + 2 * |g|)
  {
    ReadsAtSplit(data, p, U16Bytes(2 * |g|), U16ListBytes(g));
    U16At(data, p, 2 * |g|);
    U16RunOfList(data, p + 2, g, p + 2 + 2 * |g|);
  }

  lemma {:induction false} SupportedGroupsRoundTrip(data: seq<Byte>, pos: nat, g: seq<U16>, h: ClientHello)
    requires ValidExtension(SupportedGroups(g)) && ReadsAt(data, pos, EncodeExtension(SupportedGroups(g)))
    ensures ClientExtension(data, pos, h) == (Apply(h, SupportedGroups(g)), pos + |EncodeExtension(SupportedGroups(g))|)
  {
    var x := SupportedGroups(g);
    ExtensionHeaderAt(data, pos, x);
    var p := pos + 4;
    LengthPrefixedU16s(data, p, g);
    var h1 := h.(extensions := h.extensions + [SupportedGroupsType]);
    assert BE16(data, pos) == SupportedGroupsType;
    assert ClientExtension(data, pos, h) == (h1.(curves := h1.curves + g), p + 2 + 2 * |g|);
    assert |EncodeExtension(x)| == 4 + 2 + 2 * |g|;
  }

  lemma {:induction false} PointFormatsRoundTrip(data: seq<Byte>, pos: nat, f: seq<Byte>, h: ClientHello)
    requires ValidExtension(PointFormats(f)) && ReadsAt(data, pos, EncodeExtension(PointFormats(f)))
    ensures ClientExtension(data, pos, h) == (Apply(h, PointFormats(f)), pos + |EncodeExtension(PointFormats(f))|)
  {
    var x := PointFormats(f);
    ExtensionHeaderAt(data, pos, x);
    var p := pos + 4;
    ReadsAtSplit(data, p, [|f|], f);
    ByteAt(data, p, |f|);
    ByteRunOfSlice(data, p + 1, f);
    var h1 := h.(extensions := h.extensions + [PointFormatsType]);
    assert BE16(data, pos) == PointFormatsType;
    assert ClientExtension(data, pos, h) == (h1.(pointFormats := h1.pointFormats + f), p + 1 + |f|);
  }

  /** Where an encoded server_name extension puts its type, its name type and its host name. */
  lemma {:induction false} ServerNameAt(data: seq<Byte>, pos: nat, n: seq<Byte>)
    requires ValidExtension(ServerName(n)) && ReadsAt(data, pos, EncodeExtension(ServerName(n)))
    ensures |EncodeExtension(ServerName(n))| == 9 + |n| && pos + 9 + |n| <= |data|
    ensures BE16(data, pos) == ServerNameType && data[pos + 6] == 0 && BE16(data, pos + 7) == |n|
    ensures data[pos + 9..pos + 9 + |n|] == n
  {
    var x := ServerName(n);
    ExtensionHeaderAt(data, pos, x);
    var p := pos + 4;
    ReadsAtSplit(data, p, U16Bytes(3 + |n|) + [0] + U16Bytes(|n|), n);
    ReadsAtSplit(data, p, U16Bytes(3 + |n|) + [0], U16Bytes(|n|));
    ReadsAtSplit(data, p, U16Bytes(3 + |n|), [0]);
    ByteAt(data, p + 2, 0);
    U16At(data, p + 3, |n|);
    ReadsAtSlice(data, p + 5, n);
  }

  lemma {:induction false} ServerNameRoundTrip(data: seq<Byte>, pos: nat, n: seq<Byte>, h: ClientHello)
    requires ValidExtension(ServerName(n)) && ReadsAt(data, pos, EncodeExtension(ServerName(n)))
    ensures ClientExtension(data, pos, h) == (Apply(h, ServerName(n)), pos + |EncodeExtension(ServerName(n))|)
  {
    ServerNameAt(data, pos, n);
    ServerNameParsed(data, pos, n, h);
  }

  /** parse_client_hello's server_name branch over a name type of 0 and a host name that fits. */
  lemma {:induction false} ServerNameParsed(data: seq<Byte>, pos: nat, n: seq<Byte>, h: ClientHello)
    requires pos + 9 + |n| <= |data|
    requires BE16(data, pos) == ServerNameType && data[pos + 6] == 0 && BE16(data, pos + 7) == |n|
    requires data[pos + 9..pos + 9 + |n|] == n
    ensures ClientExtension(data, pos, h) == (h.(extensions := h.extensions + [ServerNameType], sni := n), pos + 9 + |n|)
  {
  }

  lemma {:induction false} OtherExtensionRoundTrip(data: seq<Byte>, pos: nat, t: U16, b: seq<Byte>, h: ClientHello)
    requires ValidExtension(OtherExtension(t, b)) && ReadsAt(data, pos, EncodeExtension(OtherExtension(t, b)))
    ensures ClientExtension(data, pos, h) == (Apply(h, OtherExtension(t, b)), pos + |EncodeExtension(OtherExtension(t, b))|)
  {
    ExtensionHeaderAt(data, pos, OtherExtension(t, b));
    assert ClientExtension(data, pos, h) == (h.(extensions := h.extensions + [t]), pos + 4 + |b|);
  }

  /** An encoded extension is read back as what it contributes, and the cursor ends right
      after it. */
  lemma {:induction false} ClientExtensionRoundTrip(data: seq<Byte>, pos: nat, x: Extension, h: ClientHello)
    requires ValidExtension(x) && ReadsAt(data, pos, EncodeExtension(x))
    ensures ClientExtension(data, pos, h) == (Apply(h, x), pos + |EncodeExtension(x)|)
  {
    match x
    case SupportedGroups(g) => SupportedGroupsRoundTrip(data, pos, g, h);
    case PointFormats(f) => PointFormatsRoundTrip(data, pos, f, h);
    case ServerName(n) => ServerNameRoundTrip(data, pos, n, h);
    case OtherExtension(t, b) => OtherExtensionRoundTrip(data, pos, t, b, h);
  }

  lemma {:induction false} ClientExtensionsRoundTrip(data: seq<Byte>, pos: nat, end: nat, xs: seq<Extension>, h: ClientHello)
    requires ValidExtensions(xs) && ReadsAt(data, pos, EncodeExtensions(xs)) && end == pos + |EncodeExtensions(xs)|
    ensures ClientExtensions(data, pos, end, h) == ApplyAll(h, xs)
    decreases |xs|, 0
  {
    if xs == [] {
      assert EncodeExtensions(xs) == [];
      assert ClientExtensions(data, pos, pos, h) == h;
    } else {
      ExtensionsCons(xs, h);
      ExtensionsReadSplit(data, pos, xs[0], xs[1..]);
      ClientExtensionsConsRoundTrip(data, pos, end, xs[0], xs[1..], h);
    }
  }

  /** An extension list is its first extension followed by the rest, in encoding and in
      what it contributes. */
  lemma {:induction false} ExtensionsCons(xs: seq<Extension>, h: ClientHello)
    requires ValidExtensions(xs) && xs != []
    ensures ValidExtension(xs[0]) && ValidExtensions(xs[1..])
    ensures EncodeExtensions(xs) == EncodeExtension(xs[0]) + EncodeExtensions(xs[1..])
    ensures ApplyAll(h, xs) == ApplyAll(Apply(h, xs[0]), xs[1..])
  {
  }

  lemma {:induction false} ClientExtensionsConsRoundTrip(data: seq<Byte>, pos: nat, end: nat, x: Extension, rest: seq<Extension>, h: ClientHello)
    requires ValidExtension(x) && ValidExtensions(rest)
    requires ReadsAt(data, pos, EncodeExtension(x)) && ReadsAt(data, pos + |EncodeExtension(x)|, EncodeExtensions(rest))
    requires end == pos + |EncodeExtension(x)| + |EncodeExtensions(rest)|
    ensures ClientExtensions(data, pos, end, h) == ApplyAll(Apply(h, x), rest)
    decreases |rest|, 1
  {
    ClientExtensionRoundTrip(data, pos, x, h);
    ClientExtensionsAdvance(data, pos, |EncodeExtension(x)|, end, h, Apply(h, x));
    ClientExtensionsRoundTrip(data, pos + |EncodeExtension(x)|, end, rest, Apply(h, x));
  }

  lemma {:induction false} ExtensionsReadSplit(data: seq<Byte>, pos: nat, x: Extension, rest: seq<Extension>)
    requires ValidExtension(x) && ValidExtensions(rest) && ReadsAt(data, pos, EncodeExtension(x) + EncodeExtensions(rest))
    ensures ReadsAt(data, pos, EncodeExtension(x)) && ReadsAt(data, pos + |EncodeExtension(x)|, EncodeExtensions(rest))
  {
    ReadsAtSplit(data, pos, EncodeExtension(x), EncodeExtensions(rest));
  }

  /** The extension loop after one extension of n bytes that leaves h2. */
  lemma {:induction false} ClientExtensionsAdvance(data: seq<Byte>, pos: nat, n: nat, end: nat, h: ClientHello, h2: ClientHello)
    requires 4 <= n && pos + n <= end && pos + n <= |data| && ClientExtension(data, pos, h) == (h2, pos + n)
    ensures ClientExtensions(data, pos, end, h) == ClientExtensions(data, pos + n, end, h2)
  {
    ClientExtensionsStep(data, pos, end, h);
  }

  /** One turn of parse_client_hello's extension loop, then the rest of the loop. */
  lemma {:induction false} ClientExtensionsStep(data: seq<Byte>, pos: nat, end: nat, h: ClientHello)
    requires pos + 4 <= end && pos + 4 <= |data|
    ensures ClientExtensions(data, pos, end, h) ==
      ClientExtensions(data, ClientExtension(data, pos, h).1, end, ClientExtension(data, pos, h).0)
  {
  }

  /** One turn of parse_server_hello's extension loop: record the type t, skip the b bytes
      of the body and go on at next. */
  lemma {:induction false} ServerExtensionStep(data: seq<Byte>, pos: nat, end: nat, acc: seq<U16>, t: U16, b: nat, next: nat)
    requires pos + 4 <= end && pos + 4 <= |data| && BE16(data, pos) == t && BE16(data, pos + 2) == b
    requires next == pos + 4 + b
    ensures ServerExtensions(data, pos, end, acc) == ServerExtensions(data, next, end, acc + [t])
  {
  }

  /** The types of an extension list are the first one's type followed by the rest's. */
  lemma {:induction false} ExtensionTypesCons(xs: seq<Extension>)
    requires ValidExtensions(xs) && xs != []
    ensures ValidExtension(xs[0]) && ValidExtensions(xs[1..])
    ensures EncodeExtensions(xs) == EncodeExtension(xs[0]) + EncodeExtensions(xs[1..])
    ensures ExtensionTypes(xs) == [ExtensionType(xs[0])] + ExtensionTypes(xs[1..])
  {
  }

  lemma {:induction false} ServerExtensionsRoundTrip(data: seq<Byte>, pos: nat, end: nat, xs: seq<Extension>, acc: seq<U16>)
    requires ValidExtensions(xs) && ReadsAt(data, pos, EncodeExtensions(xs)) && end == pos + |EncodeExtensions(xs)|
    ensures ServerExtensions(data, pos, end, acc) == acc + ExtensionTypes(xs)
    decreases |xs|, 0
  {
    if xs == [] {
      ServerExtensionsAtEnd(data, pos, end, xs, acc);
    } else {
      ExtensionTypesCons(xs);
      ExtensionsReadSplit(data, pos, xs[0], xs[1..]);
      ServerExtensionsConsRoundTrip(data, pos, end, xs[0], xs[1..], acc);
    }
  }

  /** With no extensions the loop ends at once with what it had. */
  lemma {:induction false} ServerExtensionsAtEnd(data: seq<Byte>, pos: nat, end: nat, xs: seq<Extension>, acc: seq<U16>)
    requires xs == [] && end == pos + |EncodeExtensions(xs)|
    ensures ServerExtensions(data, pos, end, acc) == acc + ExtensionTypes(xs)
  {
    assert EncodeExtensions(xs) == [] && ExtensionTypes(xs) == [];
    assert acc + [] == acc;
  }

  lemma {:induction false} ServerExtensionsConsRoundTrip(data: seq<Byte>, pos: nat, end: nat, x: Extension, rest: seq<Extension>, acc: seq<U16>)
    requires ValidExtension(x) && ValidExtensions(rest)
    requires ReadsAt(data, pos, EncodeExtension(x)) && ReadsAt(data, pos + |EncodeExtension(x)|, EncodeExtensions(rest))
    requires end == pos + |EncodeExtension(x)| + |EncodeExtensions(rest)|
    ensures ServerExtensions(data, pos, end, acc) == acc + ([ExtensionType(x)] + ExtensionTypes(rest))
    decreases |rest|, 1
  {
    var t, next := ExtensionType(x), pos + |EncodeExtension(x)|;
    ExtensionHeaderAt(data, pos, x);
    ServerExtensionStep(data, pos, end, acc, t, |ExtensionBody(x)|, next);
    ServerExtensionsRoundTrip(data, next, end, rest, acc + [t]);
    Text.AppendAssoc(acc, [t], ExtensionTypes(rest));
  }

  /** Every extension's type is recorded, in order, whatever the extension is. */
  lemma {:induction false} ApplyAllRecordsTypes(h: ClientHello, xs: seq<Extension>)
    ensures ApplyAll(h, xs).extensions == h.extensions + ExtensionTypes(xs)
    ensures ApplyAll(h, xs).version == h.version && ApplyAll(h, xs).ciphers == h.ciphers
    decreases |xs|
  {
    if xs == [] {
      assert h.extensions + ExtensionTypes(xs) == h.extensions;
    } else {
      ApplyAllRecordsTypes(Apply(h, xs[0]), xs[1..]);
      assert ExtensionTypes(xs) == [ExtensionType(xs[0])] + ExtensionTypes(xs[1..]);
      assert h.extensions + [ExtensionType(xs[0])] + ExtensionTypes(xs[1..]) == h.extensions + ExtensionTypes(xs);
    }
  }

  // ---------------------------------------------------------------- whole messages

  datatype ClientHelloMessage = ClientHelloMessage(
    version: U16,
    random: seq<Byte>,
    sessionId: seq<Byte>,
    cipherSuites: seq<U16>,
    compressionMethods: seq<Byte>,
    extensions: seq<Extension>)

  datatype ServerHelloMessage = ServerHelloMessage(
    version: U16,
    random: seq<Byte>,
    sessionId: seq<Byte>,
    cipherSuite: U16,
    compressionMethod: Byte,
    extensions: seq<Extension>)

  predicate ValidClientHelloMessage(m: ClientHelloMessage)
  {
    |m.random| == 32 && |m.sessionId| <= 32 && 2 * |m.cipherSuites| < 0x1_0000 &&
    |m.compressionMethods| < 0x100 && ValidExtensions(m.extensions) && |EncodeExtensions(m.extensions)| < 0x1_0000
  }

  predicate ValidServerHelloMessage(m: ServerHelloMessage)
  {
    |m.random| == 32 && |m.sessionId| <= 32 && ValidExtensions(m.extensions) && |EncodeExtensions(m.extensions)| < 0x1_0000
  }

  /** The three-byte length of a handshake header. */
  function U24Bytes(n: nat): (r: seq<Byte>)
    requires n < 0x100_0000
    ensures |r| == 3
  {
    [n / 0x1_0000, (n / 0x100) % 0x100, n % 0x100]
  }

  /** The extensions block: its 16-bit length and the encoded extensions. */
  function ExtensionsBlock(xs: seq<Extension>): seq<Byte>
    requires ValidExtensions(xs) && |EncodeExtensions(xs)| < 0x1_0000
  {
    U16Bytes(|EncodeExtensions(xs)|) + EncodeExtensions(xs)
  }

  /** What both hellos start with: version, random bytes and the length-prefixed session id. */
  function HelloPrefix(version: U16, random: seq<Byte>, sessionId: seq<Byte>): (r: seq<Byte>)
    requires |sessionId| < 0x100
    ensures |r| == 3 + |random| + |sessionId|
  {
    U16Bytes(version) + random + [|sessionId|] + sessionId
  }

  /** The cipher suites and compression methods of a ClientHello, each with its length. */
  function ClientSuitesAndCompression(m: ClientHelloMessage): (r: seq<Byte>)
    requires ValidClientHelloMessage(m)
    ensures |r| == 2 + 2 * |m.cipherSuites| + 1 + |m.compressionMethods|
  {
    U16Bytes(2 * |m.cipherSuites|) + U16ListBytes(m.cipherSuites) + [|m.compressionMethods|] + m.compressionMethods
  }

  /** A ClientHello body up to and including the compression methods. */
  function ClientHelloFixed(m: ClientHelloMessage): (r: seq<Byte>)
    requires ValidClientHelloMessage(m)
    ensures |r| == 35 + |m.sessionId| + 2 + 2 * |m.cipherSuites| + 1 + |m.compressionMethods|
  {
    HelloPrefix(m.version, m.random, m.sessionId) + ClientSuitesAndCompression(m)
  }

  /** The ClientHello handshake message; the extensions block may be left out, as section
      7.4.1.2 of RFC 5246 allows. */
  function EncodeClientHello(m: ClientHelloMessage, withExtensions: bool): (r: seq<Byte>)
    requires ValidClientHelloMessage(m)
  {
    var body := ClientHelloFixed(m) + (if withExtensions then ExtensionsBlock(m.extensions) else []);
    [1] + U24Bytes(|body|) + body
  }

  /** A ServerHello body up to and including the compression method. */
  function ServerHelloFixed(m: ServerHelloMessage): (r: seq<Byte>)
    requires ValidServerHelloMessage(m)
    ensures |r| == 35 + |m.sessionId| + 3
  {
    HelloPrefix(m.version, m.random, m.sessionId) + (U16Bytes(m.cipherSuite) + [m.compressionMethod])
  }

  function EncodeServerHello(m: ServerHelloMessage, withExtensions: bool): (r: seq<Byte>)
    requires ValidServerHelloMessage(m)
  {
    var body := ServerHelloFixed(m) + (if withExtensions then ExtensionsBlock(m.extensions) else []);
    [2] + U24Bytes(|body|) + body
  }

  /** What parse_client_hello should find in a ClientHello. */
  function ClientHelloOf(m: ClientHelloMessage): ClientHello
  {
    ApplyAll(ClientHello(m.version, m.cipherSuites, [], [], [], []), m.extensions)
  }

  /** Where the fields of an encoded hello sit: the version at 4, the session id's length at
      38, the session id after it, and the rest of the body at c. */
  lemma {:induction false} HelloPrefixAt(data: seq<Byte>, version: U16, random: seq<Byte>, sessionId: seq<Byte>)
    requires |random| == 32 && |sessionId| < 0x100
    requires ReadsAt(data, 4, HelloPrefix(version, random, sessionId))
    ensures |data| > SessionIdAt && BE16(data, VersionAt) == version && data[SessionIdAt] == |sessionId|
  {
    var a := U16Bytes(version) + random;
    ReadsAtSplit(data, 4, a + [|sessionId|], sessionId);
    ReadsAtSplit(data, 4, a, [|sessionId|]);
    ReadsAtSplit(data, 4, U16Bytes(version), random);
    U16At(data, 4, version);
    ByteAt(data, 38, |sessionId|);
  }

  lemma {:induction false} ReadsAtWhole(data: seq<Byte>, a: seq<Byte>, b: seq<Byte>)
    requires data == a + b
    ensures ReadsAt(data, |a|, b)
  {
    ReadsAtOwnSlice(data, |a|, |b|);
    assert data[|a|..|a| + |b|] == b;
  }

  /** Where a ClientHello's variable part sits once the session id is known: cipher suites'
      length at c, the suites after it, then compression methods and what follows them. */
  lemma {:induction false} ClientHelloTailAt(data: seq<Byte>, c: nat, m: ClientHelloMessage)
    requires ValidClientHelloMessage(m)
    requires ReadsAt(data, c, ClientSuitesAndCompression(m))
    ensures c + 2 <= |data| && BE16(data, c) == 2 * |m.cipherSuites|
    ensures var q := c + 2 + 2 * |m.cipherSuites|;
      U16Run(data, c + 2, q) == (m.cipherSuites, q) && q < |data| && data[q] == |m.compressionMethods|
  {
    var n, k := U16Bytes(2 * |m.cipherSuites|), [|m.compressionMethods|];
    var l := U16ListBytes(m.cipherSuites);
    ReadsAtSplit(data, c, n + l + k, m.compressionMethods);
    ReadsAtSplit(data, c, n + l, k);
    LengthPrefixedU16s(data, c, m.cipherSuites);
    ByteAt(data, c + 2 + 2 * |m.cipherSuites|, |m.compressionMethods|);
  }

  /** The handshake header of an encoded hello is followed by its body. */
  lemma {:induction false} HandshakeBodyAt(data: seq<Byte>, t: Byte, body: seq<Byte>)
    requires |body| < 0x100_0000 && data == [t] + U24Bytes(|body|) + body
    ensures |data| == 4 + |body| && data[0] == t && ReadsAt(data, 4, body)
  {
    ReadsAtWhole(data, [t] + U24Bytes(|body|), body);
  }

  /** The fields of a ClientHello up to its compression methods, as parse_client_hello
      finds them: s bytes of session id, cipher suites g, k compression methods. */
  predicate ClientHelloFieldsAt(data: seq<Byte>, version: U16, s: nat, g: seq<U16>, k: nat)
  {
    var c := SessionIdAt + 1 + s;
    var q := c + 2 + 2 * |g|;
    |data| > SessionIdAt && data[0] == 1 && BE16(data, VersionAt) == version && data[SessionIdAt] == s &&
    c + 2 <= |data| && BE16(data, c) == 2 * |g| && U16Run(data, c + 2, q) == (g, q) &&
    q < |data| && data[q] == k
  }

  /** Where everything sits in a ClientHello body placed after the handshake header. */
  lemma {:induction false} ClientHelloBodyAt(data: seq<Byte>, m: ClientHelloMessage, block: seq<Byte>, e: nat)
    requires ValidClientHelloMessage(m) && ReadsAt(data, 4, ClientHelloFixed(m) + block) && data[0] == 1
    requires e == SessionIdAt + 1 + |m.sessionId| + 2 + 2 * |m.cipherSuites| + 1 + |m.compressionMethods|
    ensures ClientHelloFieldsAt(data, m.version, |m.sessionId|, m.cipherSuites, |m.compressionMethods|)
    ensures ReadsAt(data, e, block)
  {
    var prefix := HelloPrefix(m.version, m.random, m.sessionId);
    ReadsAtSplit(data, 4, ClientHelloFixed(m), block);
    assert 4 + |ClientHelloFixed(m)| == e;
    ReadsAtSplit(data, 4, prefix, ClientSuitesAndCompression(m));
    HelloPrefixAt(data, m.version, m.random, m.sessionId);
    ClientHelloTailAt(data, SessionIdAt + 1 + |m.sessionId|, m);
  }

  /** The cipher suite stage of parse_client_hello when the suites read back as g. */
  lemma {:induction false} ClientCipherSuitesStage(data: seq<Byte>, version: U16, c: nat, g: seq<U16>)
    requires c + 2 <= |data| && BE16(data, c) == 2 * |g|
    requires U16Run(data, c + 2, c + 2 + 2 * |g|) == (g, c + 2 + 2 * |g|)
    ensures ClientCipherSuitesAt(data, version, c) == ClientCompressionAt(data, version, g, c + 2 + 2 * |g|)
  {
    var ciphers := U16Run(data, c + 2, c + 2 + BE16(data, c));
    assert ciphers == (g, c + 2 + 2 * |g|);
  }

  /** The compression stage of parse_client_hello when an extensions block of n bytes follows. */
  lemma {:induction false} ClientCompressionStage(data: seq<Byte>, version: U16, g: seq<U16>, q: nat, pos: nat, end: nat)
    requires q < |data| && pos == q + 1 + data[q] + 2 && pos <= |data| && end == pos + BE16(data, pos - 2)
    ensures ClientCompressionAt(data, version, g, q) == Some(ClientExtensions(data, pos, end, ClientHello(version, g, [], [], [], [])))
  {
  }

  /** parse_client_hello over data holding a ClientHello's fields and an extensions block
      ending at end that its loop reads as r. */
  lemma {:induction false} ClientHelloParsed(data: seq<Byte>, version: U16, s: nat, g: seq<U16>, k: nat, e: nat, end: nat, r: ClientHello)
    requires ClientHelloFieldsAt(data, version, s, g, k) && e == SessionIdAt + 1 + s + 2 + 2 * |g| + 1 + k
    requires e + 2 <= |data| && end == e + 2 + BE16(data, e)
    requires ClientExtensions(data, e + 2, end, ClientHello(version, g, [], [], [], [])) == r
    ensures ParseClientHelloSpec(data) == Some(r)
  {
    var c := SessionIdAt + 1 + s;
    var q := c + 2 + 2 * |g|;
    ClientCompressionStage(data, version, g, q, e + 2, end);
    ClientCipherSuitesStage(data, version, c, g);
  }

  /** parse_client_hello over data that ends right after the compression methods. */
  lemma {:induction false} ClientHelloCutShort(data: seq<Byte>, version: U16, s: nat, g: seq<U16>, k: nat)
    requires ClientHelloFieldsAt(data, version, s, g, k)
    requires |data| == SessionIdAt + 1 + s + 2 + 2 * |g| + 1 + k
    ensures ParseClientHelloSpec(data) == None
  {
    ClientCipherSuitesStage(data, version, SessionIdAt + 1 + s, g);
  }

  /** Where a ClientHello body placed after a handshake header of type 1 puts its fields
      and its extensions block. */
  lemma {:induction false} ClientHelloMessageAt(data: seq<Byte>, m: ClientHelloMessage, e: nat)
    requires ValidClientHelloMessage(m)
    requires ReadsAt(data, 4, ClientHelloFixed(m) + ExtensionsBlock(m.extensions)) && data[0] == 1
    requires e == SessionIdAt + 1 + |m.sessionId| + 2 + 2 * |m.cipherSuites| + 1 + |m.compressionMethods|
    ensures ClientHelloFieldsAt(data, m.version, |m.sessionId|, m.cipherSuites, |m.compressionMethods|)
    ensures e + 2 <= |data| && BE16(data, e) == |EncodeExtensions(m.extensions)|
    ensures ReadsAt(data, e + 2, EncodeExtensions(m.extensions))
  {
    ClientHelloBodyAt(data, m, ExtensionsBlock(m.extensions), e);
    ExtensionsBlockAt(data, e, m.extensions);
  }

  /** The extension loop over a message's encoded extensions leaves the hello the message stands for. */
  lemma {:induction false} MessageExtensionsRead(data: seq<Byte>, m: ClientHelloMessage, pos: nat, end: nat)
    requires ValidClientHelloMessage(m)
    requires ReadsAt(data, pos, EncodeExtensions(m.extensions)) && end == pos + |EncodeExtensions(m.extensions)|
    ensures ClientExtensions(data, pos, end, ClientHello(m.version, m.cipherSuites, [], [], [], [])) == ClientHelloOf(m)
  {
    ClientExtensionsRoundTrip(data, pos, end, m.extensions, ClientHello(m.version, m.cipherSuites, [], [], [], []));
  }

  /** Parsing an encoded ClientHello gives its version, cipher suites in order, every
      extension type in order, the groups and point formats of its extensions and the host
      name of its last server_name extension. */
  lemma {:induction false} ClientHelloRoundTrip(m: ClientHelloMessage)
    requires ValidClientHelloMessage(m)
    ensures ParseClientHelloSpec(EncodeClientHello(m, true)) == Some(ClientHelloOf(m))
  {
    var data := EncodeClientHello(m, true);
    var e := SessionIdAt + 1 + |m.sessionId| + 2 + 2 * |m.cipherSuites| + 1 + |m.compressionMethods|;
    HandshakeBodyAt(data, 1, ClientHelloFixed(m) + ExtensionsBlock(m.extensions));
    var end := e + 2 + BE16(data, e);
    ClientHelloMessageAt(data, m, e);
    MessageExtensionsRead(data, m, e + 2, end);
    ClientHelloParsed(data, m.version, |m.sessionId|, m.cipherSuites, |m.compressionMethods|, e, end, ClientHelloOf(m));
  }

  /** A ClientHello without an extensions block, which section 7.4.1.2 of RFC 5246 permits,
      is rejected: the code insists on the extensions length field. */
  lemma {:induction false} ClientHelloWithoutExtensionsRejected(m: ClientHelloMessage)
    requires ValidClientHelloMessage(m)
    ensures ParseClientHelloSpec(EncodeClientHello(m, false)) == None
  {
    var data := EncodeClientHello(m, false);
    HandshakeBodyAt(data, 1, ClientHelloFixed(m) + []);
    ClientHelloBodyAt(data, m, [], |data|);
    ClientHelloCutShort(data, m.version, |m.sessionId|, m.cipherSuites, |m.compressionMethods|);
  }

  /** The fields of a ServerHello up to its compression method, as parse_server_hello finds
      them: s bytes of session id and the cipher suite. */
  predicate ServerHelloFieldsAt(data: seq<Byte>, version: U16, s: nat, cipher: U16)
  {
    var c := SessionIdAt + 1 + s;
    |data| > SessionIdAt && data[0] == 2 && BE16(data, VersionAt) == version && data[SessionIdAt] == s &&
    c + 3 <= |data| && BE16(data, c) == cipher
  }

  /** Where everything sits in a ServerHello body placed after the handshake header. */
  lemma {:induction false} ServerHelloBodyAt(data: seq<Byte>, m: ServerHelloMessage, block: seq<Byte>)
    requires ValidServerHelloMessage(m) && ReadsAt(data, 4, ServerHelloFixed(m) + block) && data[0] == 2
    ensures ServerHelloFieldsAt(data, m.version, |m.sessionId|, m.cipherSuite)
    ensures ReadsAt(data, SessionIdAt + 1 + |m.sessionId| + 3, block)
  {
    var prefix := HelloPrefix(m.version, m.random, m.sessionId);
    var c := SessionIdAt + 1 + |m.sessionId|;
    ReadsAtSplit(data, 4, ServerHelloFixed(m), block);
    ReadsAtSplit(data, 4, prefix, U16Bytes(m.cipherSuite) + [m.compressionMethod]);
    HelloPrefixAt(data, m.version, m.random, m.sessionId);
    ReadsAtSplit(data, c, U16Bytes(m.cipherSuite), [m.compressionMethod]);
    U16At(data, c, m.cipherSuite);
  }

  /** An extensions block: its length field, then the encoded extensions right after it. */
  lemma {:induction false} ExtensionsBlockAt(data: seq<Byte>, e: nat, xs: seq<Extension>)
    requires ValidExtensions(xs) && |EncodeExtensions(xs)| < 0x1_0000
    requires ReadsAt(data, e, ExtensionsBlock(xs))
    ensures e + 2 <= |data| && BE16(data, e) == |EncodeExtensions(xs)|
    ensures ReadsAt(data, e + 2, EncodeExtensions(xs))
  {
    var exts := EncodeExtensions(xs);
    ReadsAtSplit(data, e, U16Bytes(|exts|), exts);
    U16At(data, e, |exts|);
  }

  /** parse_server_hello's extension loop, started with no types, records every type in order. */
  lemma {:induction false} ServerExtensionsParsed(data: seq<Byte>, pos: nat, xs: seq<Extension>)
    requires ValidExtensions(xs) && ReadsAt(data, pos, EncodeExtensions(xs))
    ensures ServerExtensions(data, pos, pos + |EncodeExtensions(xs)|, []) == ExtensionTypes(xs)
  {
    ServerExtensionsRoundTrip(data, pos, pos + |EncodeExtensions(xs)|, xs, []);
    assert [] + ExtensionTypes(xs) == ExtensionTypes(xs);
  }

  /** parse_server_hello over data holding a ServerHello's fields and an extensions block
      of n bytes that its loop reads as the types ts. */
  lemma {:induction false} ServerHelloParsed(data: seq<Byte>, version: U16, s: nat, cipher: U16, e: nat, n: nat, ts: seq<U16>)
    requires ServerHelloFieldsAt(data, version, s, cipher) && e == SessionIdAt + 1 + s + 3
    requires e + 2 <= |data| && BE16(data, e) == n && ServerExtensions(data, e + 2, e + 2 + n, []) == ts
    ensures ParseServerHelloSpec(data) == Some(ServerHello(version, cipher, ts))
  {
  }

  /** parse_server_hello over data that ends right after the compression method. */
  lemma {:induction false} ServerHelloWithoutExtensionsParsed(data: seq<Byte>, version: U16, s: nat, cipher: U16)
    requires ServerHelloFieldsAt(data, version, s, cipher)
    requires |data| == SessionIdAt + 1 + s + 3
    ensures ParseServerHelloSpec(data) == Some(ServerHello(version, cipher, []))
  {
  }

  /** Where a ServerHello body with an extensions block, placed after a handshake header of
      type 2, puts its fields and its extensions. */
  lemma {:induction false} ServerHelloMessageAt(data: seq<Byte>, m: ServerHelloMessage, e: nat)
    requires ValidServerHelloMessage(m)
    requires ReadsAt(data, 4, ServerHelloFixed(m) + ExtensionsBlock(m.extensions)) && data[0] == 2
    requires e == SessionIdAt + 1 + |m.sessionId| + 3
    ensures ServerHelloFieldsAt(data, m.version, |m.sessionId|, m.cipherSuite)
    ensures e + 2 <= |data| && BE16(data, e) == |EncodeExtensions(m.extensions)|
    ensures ReadsAt(data, e + 2, EncodeExtensions(m.extensions))
  {
    ServerHelloBodyAt(data, m, ExtensionsBlock(m.extensions));
    ExtensionsBlockAt(data, e, m.extensions);
  }

  /** parse_server_hello over data holding a ServerHello's fields followed by its extensions block. */
  lemma {:induction false} ServerHelloMessageParsed(data: seq<Byte>, m: ServerHelloMessage, e: nat)
    requires ValidServerHelloMessage(m)
    requires ServerHelloFieldsAt(data, m.version, |m.sessionId|, m.cipherSuite)
    requires e == SessionIdAt + 1 + |m.sessionId| + 3
    requires e + 2 <= |data| && BE16(data, e) == |EncodeExtensions(m.extensions)|
    requires ReadsAt(data, e + 2, EncodeExtensions(m.extensions))
    ensures ParseServerHelloSpec(data) == Some(ServerHello(m.version, m.cipherSuite, ExtensionTypes(m.extensions)))
  {
    ServerExtensionsParsed(data, e + 2, m.extensions);
    ServerHelloParsed(data, m.version, |m.sessionId|, m.cipherSuite, e, |EncodeExtensions(m.extensions)|,
      ExtensionTypes(m.extensions));
  }

  /** Parsing an encoded ServerHello gives its version, cipher suite and every extension
      type in order; without an extensions block the list is empty. */
  lemma {:induction false} ServerHelloRoundTrip(m: ServerHelloMessage, withExtensions: bool)
    requires ValidServerHelloMessage(m)
    ensures ParseServerHelloSpec(EncodeServerHello(m, withExtensions)) ==
      Some(ServerHello(m.version, m.cipherSuite, if withExtensions then ExtensionTypes(m.extensions) else []))
  {
    var data := EncodeServerHello(m, withExtensions);
    if withExtensions {
      var e := SessionIdAt + 1 + |m.sessionId| + 3;
      HandshakeBodyAt(data, 2, ServerHelloFixed(m) + ExtensionsBlock(m.extensions));
      ServerHelloMessageAt(data, m, e);
      ServerHelloMessageParsed(data, m, e);
    } else {
      HandshakeBodyAt(data, 2, ServerHelloFixed(m) + []);
      ServerHelloBodyAt(data, m, []);
      ServerHelloWithoutExtensionsParsed(data, m.version, |m.sessionId|, m.cipherSuite);
    }
  }
}
