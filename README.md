# TLS and SSH fingerprinting: a verified model

This project models the core of a toolkit that fingerprints TLS and SSH endpoints, in Dafny.

- It walks captured Ethernet frames down to the TLS handshake record they carry.
- It parses ClientHello and ServerHello messages and renders their JA3 and JA3S strings and digests.
- It pairs each ServerHello with the ClientHello of the same connection.
- It keeps fingerprint records in per-type CSV and JSON files and reduces them to the latest fingerprint per (type, host, port).
- It diffs the latest fingerprints against a baseline and decides on the exit code and the alert.
- It decodes the base64 host key that ssh-keyscan prints.
- It counts records for the timeline and summary documents.
- It folds a key=value alert configuration and composes the alert text.
- It validates collection targets.
- It draws bar charts and tables on a pixel canvas for the release artifacts.

One module per source file:

| module | file | models |
|---|---|---|
| `Ja3` | `ja3.dfy` | `src/ja3.cpp` |
| `HelloWire` | `hello_wire.dfy` | an encoder for the ClientHello and ServerHello of section 7.4.1 of RFC 5246, with round-trip lemmas |
| `PcapReader` | `pcap_reader.dfy` | `src/pcap_reader.cpp` |
| `FingerprintPcap` | `fingerprint_pcap.dfy` | the per-handshake callback of `src/fingerprint_pcap.cpp` |
| `Utils` | `utils.dfy` | `src/utils.cpp` |
| `FingerprintCommon` | `fingerprint_common.dfy` | `src/fingerprint_common.cpp` |
| `BaselineDiff` | `baseline_diff.dfy` | `src/baseline_diff.cpp` |
| `SshFingerprint` | `fingerprint_ssh.dfy` | `src/fingerprint_ssh.cpp` |
| `Visualize` | `visualize.dfy` | `src/visualize.cpp` |
| `Alerts` | `alert_manager.dfy` | `src/alert_manager.cpp` |
| `TargetValidation` | `target_validation.dfy` | `validate_target` in `src/utils.py` |
| `PlotArtifacts` | `plot_artifacts.dfy` | `release/plot_artifacts.py` |

Shared modules:

- `Wrappers`: `Option` and `Result`.
- `Bytes`: bytes and big-endian 16-bit values.
- `Text`: decimal and hexadecimal digits, splitting and joining, `std::string::find`.
- `KeyOrder`: the order in which `std::map` visits its string and (type, host, port) keys.

How the model is shaped:

- A loop in the source is a method with its loop invariants. Each such method is proved equal to a recursive specification function.
- The lemmas are stated about those functions.
- An object that changes its own fields is a class: `PcapReader.Reader`, `FingerprintPcap.Fingerprinter`, `Alerts.AlertManager` and `PlotArtifacts.Canvas`.
- The file system is a map from path to contents.

## Model

| member | source | states |
|---|---|---|
| `Ja3.BytesToHex` | src/ja3.cpp:10-17 | two digits per byte: the text is 2·\|bytes\| characters long and all lowercase hexadecimal ("" for no bytes) |
| `Ja3.BytesToHexRoundTrip` | src/ja3.cpp:10-17 | reading the digit pairs back gives the bytes, so each byte is zero-padded and kept in input order |
| `Ja3.DashList` | src/ja3.cpp:27-54 | a dash-joined decimal list holds no ',' and is empty exactly when the list is |
| `Ja3.DashListInjective` | src/ja3.cpp:27-54 | different value lists give different dash lists |
| `Ja3.Ja3Fields` | src/ja3.cpp:19-55 | the JA3 string split at ',' is exactly five fields: the decimal version, then the dash lists of cipher suites, extensions, curves and point formats; an empty list gives an empty field |
| `Ja3.Ja3sFields` | src/ja3.cpp:66-82 | the JA3S string split at ',' is exactly three fields: version, cipher suite and the dash list of extensions |
| `Ja3.Ja3StringInjective` | src/ja3.cpp:19-55 | equal JA3 strings come from hellos with the same version and the same five lists |
| `Ja3.Ja3sStringInjective` | src/ja3.cpp:66-82 | equal JA3S strings come from equal ServerHellos |
| `Ja3.CalculateJa3` | src/ja3.cpp:19-64 | the digest is 32 lowercase hexadecimal characters that read back as the MD5 bytes of the JA3 string |
| `Ja3.CalculateJa3s` | src/ja3.cpp:66-91 | the same for the JA3S string |
| `Ja3.U16Run` | src/ja3.cpp:124-129 | the cipher suite loop: the cursor moves two bytes per value and stops where the next value would pass the declared end or the buffer |
| `Ja3.U16RunReads` | src/ja3.cpp:124-129 | every value is the big-endian pair at its place, and every byte read lies inside the buffer |
| `Ja3.ByteRun` | src/ja3.cpp:169-172 | the point format loop: one byte per step, stopping at the declared end or the buffer end |
| `Ja3.ByteRunReads` | src/ja3.cpp:169-172 | every byte collected is the one at its place inside the buffer |
| `Ja3.ClientExtension` | src/ja3.cpp:143-200 | one extension: its type is appended to the extension list whatever it is, version and cipher suites stay, and the cursor moves past the 4-byte header |
| `Ja3.ClientExtensions` | src/ja3.cpp:142-201 | the extension loop only appends to the extension list and keeps version and cipher suites |
| `Ja3.HexToBytes` | src/ja3.cpp:10-17 | reading lowercase digit pairs back gives one byte per pair |
| `Ja3.DashListCharacters` | src/ja3.cpp:27-54 | a dash list holds only digits and '-' |
| `Ja3.ParseClientHelloSpec` | src/ja3.cpp:93-204 | a parsed ClientHello has handshake type 1, its session-id length byte inside the buffer, and the big-endian version at offset 4 |
| `Ja3.ParseClientHello` | src/ja3.cpp:93-204 | the cursor-walking parser returns true with a hello exactly when the specification gives that hello, and false exactly when it gives none |
| `Ja3.ParseClientHelloFrom` | src/ja3.cpp:118-203 | the part after the session id agrees with the specification's cipher suite stage |
| `Ja3.ReadU16Run` | src/ja3.cpp:124-129 | the loop returns the values and cursor `U16Run` gives |
| `Ja3.ReadByteRun` | src/ja3.cpp:169-172 | the loop returns the bytes and cursor `ByteRun` gives |
| `Ja3.ReadClientExtensions` | src/ja3.cpp:142-201 | the extension loop fills the hello as `ClientExtensions` does |
| `Ja3.ReadClientExtension` | src/ja3.cpp:143-200 | one turn of the extension loop, including the supported_groups, ec_point_formats and server_name branches, is `ClientExtension` |
| `Ja3.ServerExtensions` | src/ja3.cpp:245-253 | the ServerHello extension loop only appends types |
| `Ja3.ParseServerHelloSpec` | src/ja3.cpp:206-257 | a parsed ServerHello has handshake type 2, its session-id length byte inside the buffer, and the big-endian version at offset 4 |
| `Ja3.ParseServerHello` | src/ja3.cpp:206-257 | the parser returns true exactly when the specification finds a hello, and then that hello |
| `HelloWire.ClientHelloRoundTrip` | src/ja3.cpp:93-204 | a ClientHello encoded as section 7.4.1.2 of RFC 5246 lays it out parses back to its version, cipher suites in wire order, every extension type in order, its curves, its point formats and the host name of its last server_name extension |
| `HelloWire.ClientHelloWithoutExtensionsRejected` | src/ja3.cpp:136-137 | a ClientHello without the optional extensions block is rejected |
| `HelloWire.ClientHelloCutShort` | src/ja3.cpp:136-137 | data ending right after the compression methods is rejected |
| `HelloWire.ClientHelloParsed` | src/ja3.cpp:93-204 | data holding a hello's fields and an extensions block is parsed to the version, the suites read and what the extension loop finds |
| `HelloWire.ClientCompressionStage` | src/ja3.cpp:131-142 | after the compression methods, the extension loop starts right after the block's 2-byte length and runs to the end that length declares |
| `HelloWire.ClientCipherSuitesStage` | src/ja3.cpp:118-129 | cipher suites encoded with their length read back in wire order |
| `HelloWire.SupportedGroupsRoundTrip` | src/ja3.cpp:151-163 | an encoded supported_groups extension adds its type and its groups in order, and the cursor ends right after it |
| `HelloWire.PointFormatsRoundTrip` | src/ja3.cpp:164-175 | an encoded ec_point_formats extension adds its type and its formats in order |
| `HelloWire.ServerNameRoundTrip` | src/ja3.cpp:176-197 | an encoded server_name extension with one host_name entry sets `sni` to that name |
| `HelloWire.ServerNameParsed` | src/ja3.cpp:176-197 | name type 0 and a name that fits: the type is recorded, `sni` becomes the name and the cursor moves past it |
| `HelloWire.OtherExtensionRoundTrip` | src/ja3.cpp:198-200 | any other extension adds only its type, and the cursor moves by exactly its length |
| `HelloWire.ClientExtensionRoundTrip` | src/ja3.cpp:143-200 | any encoded extension is read back as what it contributes, and the cursor ends right after it |
| `HelloWire.ClientExtensionsRoundTrip` | src/ja3.cpp:142-201 | an encoded extension list is read back extension by extension |
| `HelloWire.ApplyAllRecordsTypes` | src/ja3.cpp:148 | every extension type is recorded in order, including 0x000A, 0x000B and 0x0000 |
| `HelloWire.ServerExtensionStep` | src/ja3.cpp:246-253 | one turn of the ServerHello extension loop records the type and skips the body by its length |
| `HelloWire.ServerExtensionsRoundTrip` | src/ja3.cpp:245-253 | an encoded extension list is read back as its types in order |
| `HelloWire.ServerExtensionsParsed` | src/ja3.cpp:245-253 | starting with no types, the loop records every type in order |
| `HelloWire.ServerHelloParsed` | src/ja3.cpp:206-257 | a ServerHello's fields and an extensions block parse to version, cipher suite and the types read |
| `HelloWire.ServerHelloMessageParsed` | src/ja3.cpp:206-257 | data holding a ServerHello's fields followed by its encoded extensions block parses to its version, cipher suite and extension types |
| `HelloWire.ServerHelloWithoutExtensionsParsed` | src/ja3.cpp:239-240 | data ending right after the compression method parses with an empty extension list |
| `HelloWire.ServerHelloRoundTrip` | src/ja3.cpp:206-257 | an encoded ServerHello parses back to its version, cipher suite and extension types; without the block the list is empty |
| `PcapReader.IsTcpPacket` | src/pcap_reader.cpp:145-166 | true only for ethertype 0x0800 with at least 34 bytes and byte 23 = 6, or ethertype 0x86DD with at least 54 bytes and byte 20 = 6 |
| `PcapReader.Ipv4HeaderLength` | src/pcap_reader.cpp:188 | four times the IHL nibble: a multiple of 4, at most 60 |
| `PcapReader.TcpHeaderLength` | src/pcap_reader.cpp:247 | four times the data-offset nibble: a multiple of 4, at most 60 |
| `PcapReader.ExtractIpPorts` | src/pcap_reader.cpp:170-219 | for IPv4 the TCP header sits at 14 plus the IP header length, for IPv6 at 54; ports are big-endian at its first four bytes; any other ethertype gives nothing |
| `PcapReader.TcpOffset` | src/pcap_reader.cpp:230-242 | the TCP header starts between 14 and 74 |
| `PcapReader.PayloadOffset` | src/pcap_reader.cpp:244-250 | a payload offset needs a captured 20-byte TCP header and is the TCP offset plus the data-offset length; it may lie past the capture |
| `PcapReader.ExtractTlsHandshake` | src/pcap_reader.cpp:223-279 | an extracted handshake comes from a record of type 22, version 0x0300 to 0x0304 and a wholly captured length; the flags say ClientHello or ServerHello exactly by its first byte; the data is the whole record body |
| `PcapReader.AsWrittenDropsFiveBytes` | src/pcap_reader.cpp:250-279 | what the code copies is the corrected handshake without its last five bytes; whatever the code extracts, the corrected one extracts too; where the code reads past the capture, the corrected one rejects |
| `PcapReader.ExtractTlsHandshakeAsWritten` | src/pcap_reader.cpp:223-279 | as written, an extracted handshake lies inside a wholly captured record whose length is five more than the bytes copied, starting right after the record header, with the two hello flags read from its first byte and never both set; a read past the capture or a backwards copy is reported, not extracted |
| `PcapReader.PayloadOffsetPastCapture` | src/pcap_reader.cpp:250-251 | a 54-byte frame with data offset 15 makes the code read byte 94 of 54 |
| `PcapReader.EmptyRecordReadsPastCapture` | src/pcap_reader.cpp:265-268 | a record of length 0 at the end of the capture makes the code read its handshake type past the capture |
| `PcapReader.FrameEndpointsRoundTrip` | src/pcap_reader.cpp:145-219 | an encoded IPv4 or IPv6 TCP frame is TCP, and its addresses and ports read back as encoded |
| `PcapReader.FramePayloadOffset` | src/pcap_reader.cpp:244-250 | the payload of an encoded frame starts right after its headers |
| `PcapReader.RecordExtracted` | src/pcap_reader.cpp:253-275 | a hello record at the payload offset is extracted as its whole body with the right hello flag |
| `PcapReader.FrameHandshakeRoundTrip` | src/pcap_reader.cpp:223-279 | the handshake a frame carries is extracted as itself by the corrected extraction, and without its last five bytes by the code as written |
| `PcapReader.Deliver` | src/pcap_reader.cpp:86-124 | a frame delivers a handshake only if it is TCP, its ports can be read, one port is 443 or 8443, and it carries a ClientHello or ServerHello |
| `PcapReader.DeliverAsWritten` | src/pcap_reader.cpp:86-124 | as written, a delivered packet has a TLS port, exactly one hello flag and the frame's timestamps; a frame whose copy is undefined behaviour is reported as such |
| `PcapReader.DeliverAsWrittenDropsFiveBytes` | src/pcap_reader.cpp:86-124 | as written, a frame delivers what `Deliver` delivers with the handshake's last five bytes dropped, or undefined behaviour when that handshake is shorter than five bytes, and nothing that `Deliver` skips |
| `PcapReader.Delivered` | src/pcap_reader.cpp:84-128 | at most one handshake per frame, in capture order |
| `PcapReader.DeliveredAreTlsHellos` | src/pcap_reader.cpp:86-124 | everything the callback receives is a hello seen on a TLS port |
| `PcapReader.NonTlsFramesIgnored` | src/pcap_reader.cpp:86-101 | a frame that is not TCP or is on no TLS port delivers nothing |
| `PcapReader.FilterFrame` | src/pcap_reader.cpp:86-124 | the loop body's filters, in the code's order, deliver what `Deliver` says |
| `PcapReader.Reader.constructor` | src/pcap_reader.cpp:27 | a new reader is closed, with no error |
| `PcapReader.Reader.OpenFile` | src/pcap_reader.cpp:34-52 | open succeeds exactly when the capture can be opened; failure sets the error message from the library's text |
| `PcapReader.Reader.Close` | src/pcap_reader.cpp:55-63 | the reader is closed and its error message kept |
| `PcapReader.Reader.ProcessPackets` | src/pcap_reader.cpp:73-142 | a closed reader fails with "PCAP file not open"; an open one delivers the filtered handshakes in order and returns true exactly when the capture ran out, false with "Error reading PCAP: " and the message on a read error |
| `FingerprintPcap.Bump` | src/fingerprint_pcap.cpp:123 | a counter goes up by one for its key and stays for every other |
| `FingerprintPcap.RunSnoc` | src/fingerprint_pcap.cpp:104-149 | handling one more handshake is one more step |
| `FingerprintPcap.Step` | src/fingerprint_pcap.cpp:104-149 | one handshake appends at most one record, and only one carrying a JA3 or a JA3S; the pairing map only gains keys |
| `FingerprintPcap.Run` | src/fingerprint_pcap.cpp:104-149 | a run appends at most one record per handshake, each carrying a JA3 or a JA3S, and keeps the records already there |
| `FingerprintPcap.ClientHelloStep` | src/fingerprint_pcap.cpp:112-124 | a parsed ClientHello sets the pairing entry of "src:sport->dst:dport" to its JA3, counts its JA3 once and appends its record with JA3 and SNI |
| `FingerprintPcap.ServerHelloStep` | src/fingerprint_pcap.cpp:125-138 | a parsed ServerHello counts its JA3S once and appends a record with the JA3 found under the reversed key, or an empty JA3, and no SNI |
| `FingerprintPcap.FailedParseStep` | src/fingerprint_pcap.cpp:112-142 | a hello that does not parse changes nothing |
| `FingerprintPcap.RecordIffParsed` | src/fingerprint_pcap.cpp:141-142 | a record is appended exactly when a hello parsed, at most one per handshake, after the earlier ones |
| `FingerprintPcap.PairingMapIsLatest` | src/fingerprint_pcap.cpp:119-121 | the pairing map holds, for each connection key, the JA3 of the last parsed ClientHello with that key |
| `FingerprintPcap.ServerHelloPairing` | src/fingerprint_pcap.cpp:131-135 | a ServerHello's record carries the JA3 the map holds for the reversed key, and the lookup removes nothing |
| `FingerprintPcap.ClientThenServerPair` | src/fingerprint_pcap.cpp:112-142 | a ClientHello followed by the ServerHello of the reverse direction yields two records, the second carrying the first's JA3 |
| `FingerprintPcap.CountsCountParsedHellos` | src/fingerprint_pcap.cpp:123-137 | the JA3 and JA3S counts equal the numbers of parsed ClientHellos and ServerHellos with that digest |
| `FingerprintPcap.RecordsCarryFingerprints` | src/fingerprint_pcap.cpp:141-142 | every record has a non-empty JA3 or JA3S |
| `FingerprintPcap.Fingerprinter.constructor` | src/fingerprint_pcap.cpp:97-101 | the records, counters and pairing map start empty |
| `FingerprintPcap.Fingerprinter.OnHandshake` | src/fingerprint_pcap.cpp:104-149 | the callback's updates of the map, the counters and the records are one `Step` |
| `FingerprintPcap.Fingerprinter.OnHandshakes` | src/fingerprint_pcap.cpp:104-149 | the callback over handshakes in order is `Run` |
| `FingerprintPcap.FingerprintCapture` | src/fingerprint_pcap.cpp:104-151 | the pipeline succeeds exactly when the capture ran out, and ends in the state `Run` gives for the handshakes the reader delivers |
| `Utils.Stoi` | src/utils.cpp:42 | std::stoi: a result lies in the 32-bit range |
| `Utils.StoiIntToString` | src/utils.cpp:42 | the decimal rendering of a 32-bit integer reads back as itself |
| `Utils.StoiNeedsADigit` | src/utils.cpp:41-46 | text without a digit is rejected |
| `Utils.StoiOfDigits` | src/utils.cpp:42 | a digit string within range reads as its value |
| `Utils.StoiOfNegatedDigits` | src/utils.cpp:42 | a '-' before a digit string within range reads as its negation |
| `Utils.ColonHex` | src/utils.cpp:20-28 | the length is 3n−1 for n ≥ 1 bytes and 0 for none |
| `Utils.ColonHexLayout` | src/utils.cpp:20-28 | every third character is ':' and the others are uppercase hexadecimal digits |
| `Utils.ColonHexDecodes` | src/utils.cpp:20-28 | the two digits of byte i spell that byte |
| `Utils.HexPairValue` | src/utils.cpp:24 | the two uppercase digits of a byte spell it, the high one first |
| `Utils.ColonHexPrefix` | src/utils.cpp:22-26 | after the first byte every byte adds ":" and its digit pair |
| `Utils.ColonHexExample` | tests/test_utils.cpp:7-9 | AA BB CC DD EE FF gives "AA:BB:CC:DD:EE:FF" |
| `Utils.FormatFingerprint` | src/utils.cpp:20-28 | the stream-appending loop produces `ColonHex` |
| `Utils.LastIndexOf` | src/utils.cpp:31 | find_last_of: none exactly when the character is absent; otherwise it is there and nowhere after |
| `Utils.LastIndexOfAppend` | src/utils.cpp:31 | in a concatenation, the last occurrence lies in the second part when it has one |
| `Utils.ParseHostPort` | src/utils.cpp:30-47 | no ':' gives the whole input and port −1; otherwise host is the text before the last ':', and failure means std::stoi rejected the rest |
| `Utils.ParseHostPortRoundTrip` | src/utils.cpp:30-47 | host ":" port parses back to host and port for any 32-bit port |
| `Utils.ParseHostPortWithPort` | tests/test_utils.cpp:18-20 | "example.com:443" gives ("example.com", 443) |
| `Utils.ParseHostPortWithoutPort` | tests/test_utils.cpp:23-25 | "example.com" gives ("example.com", −1) |
| `Utils.GetlineSplit` | src/utils.cpp:49-59 | no token holds the delimiter |
| `Utils.Split` | src/utils.cpp:49-59 | the getline loop yields `GetlineSplit` |
| `Utils.SplitStep` | src/utils.cpp:53-57 | one more character: the delimiter ends the token, anything else extends it |
| `Utils.SplitRejoins` | src/utils.cpp:49-59 | joining the tokens with the delimiter, plus the one trailing delimiter getline swallows, rebuilds the input |
| `Utils.SplitExample` | tests/test_utils.cpp:31-35 | "a,b,c" splits into "a", "b", "c" |
| `Utils.Trim` | src/utils.cpp:61-67 | the result is the input with its leading and trailing runs of " \t\n\r" removed and nothing else |
| `Utils.TrimUnique` | src/utils.cpp:61-67 | that description determines the result |
| `Utils.TrimIdempotent` | src/utils.cpp:61-67 | trimming twice is trimming once |
| `Utils.TrimAllSpace` | src/utils.cpp:63 | all-whitespace text trims to "" |
| `Utils.TrimExample` | tests/test_utils.cpp:40 | "  hello  " trims to "hello" |
| `Utils.TrimTabsExample` | tests/test_utils.cpp:41 | "\t\nworld\n\t" trims to "world" |
| `Utils.ToUpper` | src/utils.cpp:69-74 | same length, each character mapped on its own by ASCII toupper |
| `Utils.ToLower` | src/utils.cpp:76-81 | same length, each character mapped on its own by ASCII tolower |
| `Utils.ToUpperIdempotent` | src/utils.cpp:69-74 | upper-casing twice is upper-casing once |
| `Utils.ToLowerIdempotent` | src/utils.cpp:76-81 | lower-casing twice is lower-casing once |
| `Utils.ToLowerOfToUpper` | src/utils.cpp:69-81 | lower-casing forgets an earlier upper-casing |
| `Text.DecimalRoundTrip` | src/ja3.cpp:23 | the decimal rendering of a number reads back as that number |
| `Text.Decimal` | src/ja3.cpp:23 | std::to_string of a non-negative value: digits, no leading zero |
| `Text.DecimalInjective` | src/ja3.cpp:23 | different numbers render differently |
| `Text.IntToString` | src/fingerprint_common.cpp:32-36 | a signed rendering: digits after an optional '-', ending in a digit |
| `Text.SplitJoin` | src/utils.py:24 | splitting parts joined by a delimiter none of them holds gives the parts back |
| `Text.SplitAll` | src/utils.py:24 | str.split keeps empty fields and gives at least one |
| `Text.SplitAllAppend` | src/utils.py:24 | a delimiter separates the fields on its left from those on its right |
| `Text.JoinSplit` | src/utils.py:24 | joining the fields of a split with the delimiter gives the text back |
| `Text.FirstIndexOf` | src/fingerprint_common.cpp:142 | std::string::find: none exactly when the character is absent; otherwise it is there and nowhere before |
| `Text.FirstIndexAfter` | src/fingerprint_common.cpp:142 | with no c before it, the first c is the one placed there |
| `KeyOrder.StrLessTransitive` | src/fingerprint_common.cpp:222 | std::string's operator< is transitive |
| `KeyOrder.StrLessIrreflexive` | src/fingerprint_common.cpp:222 | no string is less than itself |
| `KeyOrder.StrLessAsymmetric` | src/fingerprint_common.cpp:222 | two strings are not each less than the other |
| `KeyOrder.StrLeastExists` | src/visualize.cpp:82 | every non-empty set of strings has a least one |
| `KeyOrder.StrLessTotal` | src/fingerprint_common.cpp:222 | any two different strings are ordered one way |
| `KeyOrder.KeyLessTransitive` | src/baseline_diff.cpp:83 | the (type, host, port) order is transitive |
| `KeyOrder.KeyLessTotal` | src/baseline_diff.cpp:83 | any two different keys are ordered one way |
| `KeyOrder.LeastExists` | src/baseline_diff.cpp:83 | every non-empty key set has a least key |
| `KeyOrder.KeyLessIrreflexive` | src/baseline_diff.cpp:83 | no key is less than itself |
| `KeyOrder.LeastUnique` | src/baseline_diff.cpp:83 | the least key is unique |
| `KeyOrder.AscendingHead` | src/baseline_diff.cpp:83 | the walk starts at the least key and goes on with the walk of the others |
| `KeyOrder.AscendingFromLeast` | src/baseline_diff.cpp:83 | a walk from the least key is that key then the walk of the rest |
| `KeyOrder.Ascending` | src/baseline_diff.cpp:83 | the map walk visits every key once |
| `KeyOrder.AscendingIncreases` | src/baseline_diff.cpp:83 | the walk's keys strictly increase |
| `FingerprintCommon.LinesOfUnlines` | src/fingerprint_common.cpp:59 | reading back, line by line, a file written one line at a time gives its lines |
| `FingerprintCommon.CsvReadAll` | src/fingerprint_common.cpp:51-80 | the reader loop returns `CsvRecords`: the first line skipped, then the rows of the data lines in order |
| `FingerprintCommon.CsvRecordsSnoc` | src/fingerprint_common.cpp:59-80 | a line after the header adds its row, if it has one |
| `FingerprintCommon.CsvRowOfLine` | src/fingerprint_common.cpp:26-78 | a line the writer emits reads back as its record |
| `FingerprintCommon.CsvRowRejectsPort` | src/fingerprint_common.cpp:72-77 | a line whose port token has no digit is dropped |
| `FingerprintCommon.CsvRowOfHeader` | src/fingerprint_common.cpp:21 | the header line yields no record wherever it appears |
| `FingerprintCommon.CsvRowsOfSave` | src/fingerprint_common.cpp:187-195 | one save's header and row read back as its record |
| `FingerprintCommon.CsvSavedRoundTrip` | src/fingerprint_common.cpp:51-80 | a CSV file built by saving records one by one reads back as those records |
| `FingerprintCommon.CsvRowsSaved` | src/fingerprint_common.cpp:65-78 | every header-and-row pair of saved lines contributes its record |
| `FingerprintCommon.SavedCsvLines` | src/fingerprint_common.cpp:187-195 | every save writes a header line and a record line, since each save opens a fresh writer |
| `FingerprintCommon.ReadKeyLine` | src/fingerprint_common.cpp:142-168 | the key-value part of the JSON reader's loop applies the line as `ApplyLine` says |
| `FingerprintCommon.ApplyLine` | src/fingerprint_common.cpp:142-168 | a line without ':' leaves the record as it is, and any line sets at most one field |
| `FingerprintCommon.DropTrailingComma` | src/fingerprint_common.cpp:148-154 | the value is kept, or loses exactly one final ',' |
| `FingerprintCommon.JsonStepPort` | src/fingerprint_common.cpp:162-165 | inside a record, the port line the writer emits sets exactly the port |
| `FingerprintCommon.NoTimestampInStringLine` | src/fingerprint_common.cpp:136 | a written key line whose name and text lack "timestamp" does not start a record |
| `FingerprintCommon.JsonReadAll` | src/fingerprint_common.cpp:117-181 | the line loop with its record and in_record state returns `JsonRecords` |
| `FingerprintCommon.JsonRecords` | src/fingerprint_common.cpp:117-181 | the reader returns at most one record per line |
| `FingerprintCommon.LineStepKey` | src/fingerprint_common.cpp:141-168 | inside a record, a key line that neither opens nor closes one only fills a field |
| `FingerprintCommon.LineStepTimestamp` | src/fingerprint_common.cpp:136-139 | a line naming "timestamp" in quotes starts a fresh record and fills it |
| `FingerprintCommon.JsonStepOpen` | src/fingerprint_common.cpp:136-139 | a "{" line starts a fresh record |
| `FingerprintCommon.JsonStepCloseLast` | src/fingerprint_common.cpp:171-174 | a line trimming to "}" pushes the record |
| `FingerprintCommon.JsonStepCloseMore` | src/fingerprint_common.cpp:171-174 | a line trimming to "}," pushes the record |
| `FingerprintCommon.JsonStepIdle` | src/fingerprint_common.cpp:133-174 | the bracket lines leave a reader outside a record as it was |
| `FingerprintCommon.CleanStringValue` | src/fingerprint_common.cpp:147-154 | as written, a quoted value followed by ',' keeps its quotes; the corrected order removes them |
| `FingerprintCommon.CleanPortValue` | src/fingerprint_common.cpp:152-154 | a port followed by ',' loses the ',' |
| `FingerprintCommon.PortField` | src/fingerprint_common.cpp:162-165 | a port key sets the port to what std::stoi reads, and a value std::stoi rejects leaves it as it was |
| `FingerprintCommon.PortKey` | src/fingerprint_common.cpp:162-165 | a 32-bit port written by the writer is read back |
| `FingerprintCommon.TypeKey` | src/fingerprint_common.cpp:158-159 | the "type" key lands in the type field |
| `FingerprintCommon.HostKey` | src/fingerprint_common.cpp:160-161 | the "host" key lands in the host field |
| `FingerprintCommon.FingerprintKey` | src/fingerprint_common.cpp:166-167 | the "fingerprint" key lands in the fingerprint field, after the other keys fail to match |
| `FingerprintCommon.RecordLines` | src/fingerprint_common.cpp:101-110 | append_record writes seven lines per record |
| `FingerprintCommon.AppendRecord` | src/fingerprint_common.cpp:87-111 | append_record writes only the path it is given, creating it if missing |
| `FingerprintCommon.JsonReadRecord` | src/fingerprint_common.cpp:101-174 | the seven lines of one written record add that record, as the reader sees it |
| `FingerprintCommon.JsonReadRecords` | src/fingerprint_common.cpp:101-174 | records written one after another are read back in order |
| `FingerprintCommon.JsonFileLinesRead` | src/fingerprint_common.cpp:98-111 | the lines of a written file are "[", the record lines and "]" |
| `FingerprintCommon.JsonFileRead` | src/fingerprint_common.cpp:98-181 | a file append_record writes reads back as its records, as the reader sees them |
| `FingerprintCommon.JsonBodyRead` | src/fingerprint_common.cpp:117-181 | "[", the record lines and "]" read back as the records, as the reader sees them |
| `FingerprintCommon.ReadbackCorrected` | src/fingerprint_common.cpp:147-154 | with the corrected cleanup every record reads back as written |
| `FingerprintCommon.AppendRoundTrip` | src/fingerprint_common.cpp:87-111 | with the corrected reader, appending to a file holding some records leaves it holding them followed by the new one |
| `FingerprintCommon.AsWrittenSaveQuotes` | src/fingerprint_common.cpp:147-154 | as written, a saved record reads back with timestamp, type and host inside their quotes |
| `FingerprintCommon.AsWrittenAppendRequotes` | src/fingerprint_common.cpp:87-154 | as written, every append rewrites the earlier records as the reader saw them, adding a further pair of quotes each time |
| `FingerprintCommon.AsWrittenAppendRead` | src/fingerprint_common.cpp:87-154 | as written, appending to a file of records reads back as the earlier records read twice and the new one read once |
| `FingerprintCommon.ReadbackWritable` | src/fingerprint_common.cpp:87-154 | what the reader returns of a writable record can be written and read again in the same way |
| `FingerprintCommon.StorePaths` | src/fingerprint_common.cpp:235-241 | the CSV and JSON files of a type differ, the TLS and SSH files differ, and the type's letter case does not matter |
| `FingerprintCommon.LoadAll` | src/fingerprint_common.cpp:197-213 | any type other than "TLS", "SSH" and "" loads nothing |
| `FingerprintCommon.LoadAllWritten` | src/fingerprint_common.cpp:197-213 | "TLS" loads only the TLS file, "SSH" only the SSH file, and "" the TLS records followed by the SSH records |
| `FingerprintCommon.LatestIndexKeys` | src/fingerprint_common.cpp:219-226 | the reduction has one entry per (type, host, port) key present |
| `FingerprintCommon.LatestIndex` | src/fingerprint_common.cpp:219-226 | every kept index points at a record carrying its key |
| `FingerprintCommon.LatestStep` | src/fingerprint_common.cpp:219-226 | one more record keeps every kept index at the first record with the greatest timestamp |
| `FingerprintCommon.LatestIndexCorrect` | src/fingerprint_common.cpp:219-226 | each entry comes from the first record holding that key's greatest timestamp |
| `FingerprintCommon.LatestCorrect` | src/fingerprint_common.cpp:215-233 | load_latest has an entry exactly for the keys present, holding the fingerprint of the first record with the greatest timestamp |
| `FingerprintCommon.FirstLatestUnique` | src/fingerprint_common.cpp:222 | the strict comparison singles out one record per key |
| `FingerprintCommon.LoadLatest` | src/fingerprint_common.cpp:215-233 | the loop's map is `Latest` of the loaded records |
| `FingerprintCommon.Latest` | src/fingerprint_common.cpp:215-233 | load_latest has an entry exactly for the keys present, each holding the fingerprint of some record with that key |
| `BaselineDiff.BaselineOfCorrect` | src/baseline_diff.cpp:28-31 | the baseline has an entry exactly for the keys present, holding the fingerprint of the last record with that key |
| `BaselineDiff.BaselineOfSnoc` | src/baseline_diff.cpp:28-31 | one more record overwrites the entry of its key and only that |
| `BaselineDiff.BaselineAt` | src/baseline_diff.cpp:20-25 | no file gives the empty baseline |
| `BaselineDiff.BaselineOfKeyed` | src/baseline_diff.cpp:28-31 | records carrying exactly the entries of a map rebuild that map |
| `BaselineDiff.BaselineOf` | src/baseline_diff.cpp:28-31 | the last record's key maps to the last record's fingerprint |
| `BaselineDiff.FillBaseline` | src/baseline_diff.cpp:28-31 | the loop over the records builds `BaselineOf` of them |
| `BaselineDiff.LoadBaseline` | src/baseline_diff.cpp:20-34 | no file gives the empty map; otherwise the file's records fill the map in order |
| `BaselineDiff.BaselineRecords` | src/baseline_diff.cpp:46-55 | one record per entry of the latest map |
| `BaselineDiff.BaselineReadRecord` | src/baseline_diff.cpp:61-69 | the seven lines of one baseline record add that record, as the reader sees it |
| `BaselineDiff.BaselineRecordLines` | src/baseline_diff.cpp:61-69 | create_baseline writes seven lines per record |
| `BaselineDiff.BaselineRecordsWritable` | src/baseline_diff.cpp:46-55 | the records built from the latest map can be written and read back line by line |
| `BaselineDiff.BaselineReadRecords` | src/baseline_diff.cpp:58-71 | baseline records written one after another are read back in order |
| `BaselineDiff.BaselineBodyRead` | src/baseline_diff.cpp:58-71 | the record lines leave the reader outside a record, holding the records as it sees them |
| `BaselineDiff.BracketedRun` | src/baseline_diff.cpp:58-71 | the "[" and "]" lines change nothing for a reader outside a record |
| `BaselineDiff.BaselineFileRead` | src/baseline_diff.cpp:58-71 | a baseline file reads back as its records, as the reader sees them |
| `BaselineDiff.DateKey` | src/baseline_diff.cpp:66 | the baseline_date line sets no field |
| `BaselineDiff.ClassifyPartition` | src/baseline_diff.cpp:83-100 | each visited key lands in exactly one list, the one its verdict names, as a record carrying its current fingerprint |
| `BaselineDiff.RecordFor` | src/baseline_diff.cpp:84-88 | the record reported for a key carries that key, the current fingerprint and no timestamp |
| `BaselineDiff.AddFront` | src/baseline_diff.cpp:90-99 | putting a record in front of one list leaves the other two alone |
| `BaselineDiff.AddBack` | src/baseline_diff.cpp:90-99 | push_back onto one list leaves the other two alone |
| `BaselineDiff.CompareStep` | src/baseline_diff.cpp:83-100 | one turn of the loop takes the least remaining key, and the rest of the walk classifies what remains |
| `BaselineDiff.PartitionsSpelled` | src/baseline_diff.cpp:90-99 | the verdicts spelled out list by list |
| `BaselineDiff.ClassifyOrdered` | src/baseline_diff.cpp:83 | keys visited in increasing order give three lists in increasing key order |
| `BaselineDiff.Classify` | src/baseline_diff.cpp:83-100 | visiting a list of current keys gives as many records, across the three lists, as there are keys |
| `BaselineDiff.Diff` | src/baseline_diff.cpp:83-100 | the three lists hold one record per current key |
| `BaselineDiff.DiffMembers` | src/baseline_diff.cpp:83-100 | every key of current is in the list its verdict names and in no other, and the three sizes add up to \|current\| |
| `BaselineDiff.DiffOrdered` | src/baseline_diff.cpp:83 | each list is in ascending key order |
| `BaselineDiff.DiffPartition` | src/baseline_diff.cpp:90-99 | changed holds exactly the keys with a different baseline fingerprint, unchanged those with the same, new those absent from the baseline; keys only in the baseline appear nowhere |
| `BaselineDiff.Compare` | src/baseline_diff.cpp:78-103 | the loop over current in key order returns `Diff` |
| `BaselineDiff.DiffOutcome` | src/baseline_diff.cpp:217-240 | changed is non-empty exactly when some fingerprint changed, and changed or new is non-empty exactly when something differs |
| `BaselineDiff.AlertRequested` | src/baseline_diff.cpp:201-215 | alerts are asked for exactly when an alert option after the action has a value |
| `BaselineDiff.DiffAction` | src/baseline_diff.cpp:143-240 | exit 1 exactly when the baseline is empty or some fingerprint changed; an alert goes out exactly when the baseline is not empty, alerts were asked for, and something changed or is new |
| `BaselineDiff.BaselineRoundTrip` | src/baseline_diff.cpp:20-71 | with the corrected reader, the baseline create writes reads back as the map it was written from |
| `BaselineDiff.DiffAgainstItself` | src/baseline_diff.cpp:83-100 | fingerprints diffed against themselves are all unchanged |
| `BaselineDiff.CreateThenDiff` | src/baseline_diff.cpp:36-100 | a baseline created and then diffed against the same fingerprints reports them all unchanged |
| `BaselineDiff.AsWrittenBaselineQuoted` | src/baseline_diff.cpp:62-65 | as written, every key of the baseline read back has a type starting with '"', and a baseline of some fingerprints is not empty |
| `BaselineDiff.QuotedBaseline` | src/baseline_diff.cpp:62-65 | each latest key, with its type and host in quotes, maps to its fingerprint in quotes, and no other key is present |
| `BaselineDiff.AsWrittenBaselineRead` | src/baseline_diff.cpp:20-70 | as written, the baseline file create_baseline writes reads back through load_baseline as exactly `QuotedBaseline` of the latest fingerprints |
| `BaselineDiff.AsWrittenDiffAllNew` | src/baseline_diff.cpp:83-100 | as written, against a baseline just created from latest fingerprints none of whose quoted keys is current, every current key is reported new and none changed or unchanged, so the diff exits 0 |
| `BaselineDiff.AsWrittenOneSaveAllNew` | src/baseline_diff.cpp:36-100 | as written, a store holding one save, made the baseline and diffed at once, reports its one key new and none changed |
| `BaselineDiff.AsWrittenResavedKeyChanges` | src/baseline_diff.cpp:36-100 | as written, the same record saved twice, made the baseline and diffed at once, is reported changed, so the diff exits 1 although nothing changed |
| `BaselineDiff.ResavedKeyCompared` | src/baseline_diff.cpp:90-99 | a key whose quoted form is also current is compared with its own fingerprint in quotes and reported changed when that differs from the quoted key's fingerprint |
| `BaselineDiff.TwoSavesRead` | src/fingerprint_common.cpp:87-154 | as written, two saves to a new file read back as the first record read twice and the second read once |
| `SshFingerprint.SextetOfIsFind` | src/fingerprint_ssh.cpp:76-77 | a character's value is its position in the 64-character alphabet, and it has none exactly when find fails |
| `SshFingerprint.AlphabetChars` | src/fingerprint_ssh.cpp:70 | the alphabet has 64 characters, character v standing for v |
| `SshFingerprint.SextetCharInjective` | src/fingerprint_ssh.cpp:70 | different values have different characters |
| `SshFingerprint.FindSextetChar` | src/fingerprint_ssh.cpp:76-77 | find over the alphabet gives a character's value |
| `SshFingerprint.SextetOfChar` | src/fingerprint_ssh.cpp:76-77 | each character of the alphabet reads back as its value |
| `SshFingerprint.BeforeStop` | src/fingerprint_ssh.cpp:75 | the text before the first '=', '\n' or '\r': a prefix holding no stop, followed by a stop or the end |
| `SshFingerprint.DecodedLength` | src/fingerprint_ssh.cpp:79-85 | the output has ⌊6k/8⌋ bytes for k alphabet characters before the first stop |
| `SshFingerprint.Decoded` | src/fingerprint_ssh.cpp:68-89 | the output has at most three bytes for every four input characters |
| `SshFingerprint.DecodeStopsAtStop` | src/fingerprint_ssh.cpp:75 | decoding ends at the first '=', '\n' or '\r' |
| `SshFingerprint.DecodeSkipsOthers` | src/fingerprint_ssh.cpp:76-77 | a character outside the alphabet is skipped, not rejected |
| `SshFingerprint.LowBitsShift` | src/fingerprint_ssh.cpp:79 | the low twelve bits of the shifted value depend only on the low twelve bits of the old one |
| `SshFingerprint.LowBitsByte` | src/fingerprint_ssh.cpp:83 | the byte emitted lies within those twelve bits, so keeping val modulo 2^12 emits the same bytes |
| `SshFingerprint.ValueOfBitsOf` | src/fingerprint_ssh.cpp:79-84 | n bits MSB-first read back as the value they were cut from |
| `SshFingerprint.BitsOfValueOf` | src/fingerprint_ssh.cpp:79-84 | a value read from bits gives those bits back |
| `SshFingerprint.DecodeStepEmit` | src/fingerprint_ssh.cpp:79-84 | a character read with two or more bits pending emits the byte above the remaining bits |
| `SshFingerprint.DecodeStepHold` | src/fingerprint_ssh.cpp:79-81 | a character read with fewer pending bits only shifts its six bits in |
| `SshFingerprint.ShiftIn6Bits` | src/fingerprint_ssh.cpp:79-84 | one loop turn keeps the emitted bytes and the pending bits equal to the bits read so far |
| `SshFingerprint.DecodeBase64` | src/fingerprint_ssh.cpp:68-89 | the val/valb loop returns `Decoded`: the 6-bit values before the first stop, cut MSB-first into bytes |
| `SshFingerprint.DecodeEncode` | src/fingerprint_ssh.cpp:68-89 | decoding the encoding of section 4 of RFC 4648 gives the bytes back |
| `SshFingerprint.Padding` | src/fingerprint_ssh.cpp:75 | the '=' characters that bring the length to a multiple of four, at most three |
| `SshFingerprint.EncodeBitsRead` | src/fingerprint_ssh.cpp:76-77 | the encoded characters read back as the encoded bits and the zero fill |
| `SshFingerprint.PackByteBits` | src/fingerprint_ssh.cpp:82-84 | bytes cut into bits and followed by fewer than 8 zero bits pack back into those bytes |
| `SshFingerprint.EncodeBeforeStop` | src/fingerprint_ssh.cpp:75 | decoding an encoding stops at its padding |
| `SshFingerprint.WordsAreWords` | src/fingerprint_ssh.cpp:49-52 | every word operator>> extracts is a non-empty run of non-space characters |
| `SshFingerprint.TakeWord` | src/fingerprint_ssh.cpp:49-52 | a word is the longest run of non-space characters at the front |
| `SshFingerprint.Words` | src/fingerprint_ssh.cpp:49-52 | a line gives no word exactly when it is all spaces |
| `SshFingerprint.FirstKeyIsFirst` | src/fingerprint_ssh.cpp:46-58 | there is a key exactly when some line is not empty, not a '#' comment, and has three words; the key is the third word of the first such line |
| `SshFingerprint.HostKeyFromScan` | src/fingerprint_ssh.cpp:43-58 | the key-line loop decodes the key of the first key line, or returns no bytes |
| `Visualize.CountAtPositive` | src/visualize.cpp:19-27 | a count is positive exactly when some record has that key and timestamp |
| `Visualize.SumRemove` | src/visualize.cpp:19-27 | the total of a counter map is any entry plus the total of the others |
| `Visualize.SumUpdate` | src/visualize.cpp:23-26 | setting one entry changes the total by the difference between the new and the old count |
| `Visualize.TotalBump` | src/visualize.cpp:23-26 | counting one record adds one to the total |
| `Visualize.BumpCounts` | src/visualize.cpp:19-27 | counting a record keeps every count equal to the number of records counted so far with that key and timestamp |
| `Visualize.BuildTimeline` | src/visualize.cpp:15-27 | each count is the number of records with that key and timestamp, there is no empty entry, and the counts add up to \|records\| |
| `Visualize.TimelineKeys` | src/visualize.cpp:17-27 | the timeline has a group exactly for the keys some record carries |
| `Visualize.MembersOfRecords` | src/visualize.cpp:67-73 | a host is listed exactly when a record names it, a fingerprint is among its fingerprints exactly when a record of it holds it, and a type count is positive exactly when it has a record of that type |
| `Visualize.AbsentHost` | src/visualize.cpp:88-90 | a host without records counts 0 of every type and has no fingerprint |
| `Visualize.TallyStep` | src/visualize.cpp:71 | one more record keeps host_counts equal to the per-type counts so far |
| `Visualize.NoteStep` | src/visualize.cpp:72 | one more record keeps host_fingerprints equal to the fingerprint sets so far |
| `Visualize.BuildSummary` | src/visualize.cpp:65-73 | host_counts and host_fingerprints hold an entry per host, with the per-type record counts and the distinct fingerprints |
| `Visualize.StringsInOrder` | src/visualize.cpp:82 | the host walk visits each host once, in strictly ascending order |
| `Visualize.KeysInOrder` | src/visualize.cpp:36 | the group walk visits each key once, in strictly ascending order |
| `Visualize.PointsInOrder` | src/visualize.cpp:47 | a group's points come in strictly ascending timestamp order, each once |
| `Visualize.GroupsInOrder` | src/visualize.cpp:36-55 | the groups come in ascending key order, each with its points in order |
| `Visualize.RowsInOrder` | src/visualize.cpp:82-92 | one summary row per host, in ascending host order |
| `Visualize.GenerateTimeline` | src/visualize.cpp:15-63 | the document has one group per key present, in ascending order, whose points are the timestamps with their record counts |
| `Visualize.PointsFromCounts` | src/visualize.cpp:47-51 | the points written for a key from the counters are the timestamps of its records with their counts |
| `Visualize.RowOfCounts` | src/visualize.cpp:88-90 | the row written from the counters is the one the records call for, with 0 for a type the host has no record of |
| `Visualize.GenerateSummary` | src/visualize.cpp:65-100 | one row per host in ascending order, with its TLS count, SSH count and number of distinct fingerprints |
| `Visualize.DerivedNameStripsExtension` | src/visualize.cpp:165-173 | a name without '.' is kept whole, and a name with an extension loses it |
| `Visualize.DerivedName` | src/visualize.cpp:165-173 | the name ends with the suffix after a prefix of the output, which is the whole output when it has no '.' and otherwise stops at its last '.' |
| `Visualize.FileNameDerived` | src/visualize.cpp:165-173 | the corrected name ends with the suffix after a prefix of the output that keeps every '/' of it |
| `Visualize.DerivedNameDropsDirectory` | src/visualize.cpp:165-173 | as written, "./report" gives "_timeline.json" |
| `Visualize.FileNameDerivedKeepsDirectory` | src/visualize.cpp:165-173 | the corrected derivation leaves the directory alone and derives the name within it |
| `Visualize.FileNameDerivedKeepsDotSlash` | src/visualize.cpp:165-173 | the corrected derivation gives "./report_timeline.json" |
| `Visualize.TimelineFile` | src/visualize.cpp:162-167 | no output gives data/timeline.json, an output for "timeline" is used as it is, and with "all" the file ends in _timeline.json |
| `Visualize.SummaryFile` | src/visualize.cpp:170-175 | no output gives data/summary.json, an output for "summary" is used as it is, and with "all" the file ends in _summary.json |
| `Visualize.AllFilesDiffer` | src/visualize.cpp:162-175 | with "all", the two documents go to different files |
| `Visualize.Run` | src/visualize.cpp:129-180 | status 1 exactly without a chart type or without records; the timeline is written for "timeline" and "all", the summary for "summary" and "all", each to its file |
| `Alerts.AssignSetsOneKey` | src/alert_manager.cpp:40-54 | one assignment sets its key as requested and leaves every other field alone |
| `Alerts.LineSetting` | src/alert_manager.cpp:35-38 | a line gives a key and value exactly when it holds '=' |
| `Alerts.ConfigFixedFields` | src/alert_manager.cpp:33-56 | reading lines never changes the fields no line can set |
| `Alerts.ConfigStep` | src/alert_manager.cpp:33-56 | reading one more line applies that line to what the earlier lines gave |
| `Alerts.ConfigLastWins` | src/alert_manager.cpp:33-56 | after reading lines, a key holds what its last line asked for, or its earlier value when no line names it |
| `Alerts.ConfigLineIgnored` | src/alert_manager.cpp:35-54 | a line without '=' or with an unknown key changes nothing |
| `Alerts.KeyNamedNames` | src/alert_manager.cpp:40-54 | the chain recognises exactly the seven configuration keys |
| `Alerts.SectionLayout` | src/alert_manager.cpp:139-155 | a section is empty for no records; otherwise its heading counts the records, one line per record follows in order, and an empty line closes it |
| `Alerts.AlertLinesAt` | src/alert_manager.cpp:141-153 | line i of a section body describes record i |
| `Alerts.MessageLayout` | src/alert_manager.cpp:129-158 | the title block, the message when there is one, then the CHANGED section and the NEW section |
| `Alerts.MessageReadsBack` | src/alert_manager.cpp:129-158 | an alert whose fields hold no line break reads back, line by line, as its lines |
| `Alerts.AlertManager.constructor` | src/alert_manager.cpp:19-21 | the default configuration, with console output on |
| `Alerts.AlertManager.LoadConfig` | src/alert_manager.cpp:23-59 | false with nothing changed exactly when the file cannot be opened; otherwise true with every line applied in order |
| `Alerts.AlertManager.ReadSettings` | src/alert_manager.cpp:33-56 | the getline loop applies each line in turn |
| `Alerts.AlertManager.SetField` | src/alert_manager.cpp:40-54 | one field set from its trimmed value; the switches only by "true" or "1" |
| `Alerts.AlertManager.SetConfig` | src/alert_manager.cpp:61-63 | the configuration is replaced |
| `Alerts.AlertManager.SendEmailAlert` | src/alert_manager.cpp:160-170 | the email path always reports failure |
| `Alerts.AlertManager.SendAlert` | src/alert_manager.cpp:69-92 | success exactly when email is off and the webhook is off or went through |
| `Alerts.AlertManager.GenerateAlertMessage` | src/alert_manager.cpp:129-158 | the text is the alert's lines, each ended by '\n' |
| `Alerts.AlertManager.AppendSection` | src/alert_manager.cpp:139-155 | appending one section extends the text by its lines |
| `TargetValidation.IpAccepted` | src/utils.py:10-14 | whatever ip_address accepts is valid |
| `TargetValidation.ValidateTargetAsWritten` | src/utils.py:4-24 | as written, only the empty non-address raises IndexError; an address is valid; a valid non-address has 1 to 255 characters |
| `TargetValidation.ValidateTarget` | src/utils.py:4-24 | the corrected check raises, accepts addresses and bounds the length exactly as written |
| `TargetValidation.LongRejected` | src/utils.py:17-18 | anything else longer than 255 characters is refused |
| `TargetValidation.EmptyRaises` | src/utils.py:19 | the empty string fails at host[-1] |
| `TargetValidation.WithoutFinalDot` | src/utils.py:19-20 | one trailing '.' is taken off and nothing else |
| `TargetValidation.AcceptedIsLabels` | src/utils.py:19-24 | an accepted non-address is labels of 1 to 63 letters, digits and '-', not starting or ending with '-', joined by '.', with at most one final '.' |
| `TargetValidation.LabelsAccepted` | src/utils.py:17-24 | such labels, at most 255 characters in all, are accepted |
| `TargetValidation.AcceptedCharacters` | src/utils.py:23-24 | an accepted non-address holds only letters, digits, '-' and '.' |
| `TargetValidation.RejectedCharacter` | src/utils.py:23-24 | one other character is enough for a refusal |
| `TargetValidation.GoogleAccepted` | tests/test_collectors.py:32 | "google.com" is accepted |
| `TargetValidation.InjectionRejected` | tests/test_collectors.py:33 | "google.com; rm -rf /" is refused |
| `TargetValidation.AddressAccepted` | tests/test_collectors.py:34 | "8.8.8.8" is accepted |
| `TargetValidation.EmptyLabelRejected` | src/utils.py:23-24 | "a..b" is refused |
| `TargetValidation.AsWrittenAcceptsNewline` | src/utils.py:23 | as written, "google.com\n" is accepted |
| `TargetValidation.AsWrittenAcceptedIsLabels` | src/utils.py:19-24 | as written, an accepted non-address is labels that each match the pattern, joined by '.', with at most one final '.' |
| `TargetValidation.AsWrittenAcceptedCharacters` | src/utils.py:23-24 | as written, an accepted non-address holds only letters, digits, '-', '.' and newlines, and a newline before the end is followed by '.' |
| `TargetValidation.AsWrittenRejectedCharacter` | src/utils.py:23-24 | as written, one character other than those is enough for a refusal |
| `TargetValidation.AsWrittenInnerNewlineRejected` | src/utils.py:23-24 | as written, a newline followed by anything but '.' is refused |
| `TargetValidation.NewlineRejected` | src/utils.py:23-24 | with whole-label matching, "google.com\n" and every other name holding a newline is refused |
| `TargetValidation.AgreeWithoutNewline` | src/utils.py:23-24 | the two agree on every name without a newline |
| `PlotArtifacts.Hex02OfByte` | release/plot_artifacts.py:142 | a byte is two lowercase digits, the high one first |
| `PlotArtifacts.RgbHexOfBytes` | release/plot_artifacts.py:141-142 | for components 0..255, seven characters: '#' and three lowercase digit pairs spelling the components |
| `PlotArtifacts.RgbHex` | release/plot_artifacts.py:141-142 | the colour starts with '#' and, for components 0..255, is seven characters of which the last six are lowercase hex digits |
| `PlotArtifacts.HexValueOfDigit` | release/plot_artifacts.py:142 | a lowercase digit reads back as its value |
| `PlotArtifacts.EscapeSvgIsEach` | release/plot_artifacts.py:145-152 | escaping '&' first and then the others is escaping each character on its own, so no entity is processed twice |
| `PlotArtifacts.EscapeSvgOneChar` | release/plot_artifacts.py:145-152 | on one character the replacement chain gives that character's entity, and no replacement touches what an earlier one wrote |
| `PlotArtifacts.EscapeSvgAppend` | release/plot_artifacts.py:145-152 | escaping works piece by piece |
| `PlotArtifacts.EscapeSvg` | release/plot_artifacts.py:145-152 | the escaped text holds no '<', '>', '"' or '\'' |
| `PlotArtifacts.EscapedHasNoMarkup` | release/plot_artifacts.py:145-152 | the output holds none of < > " ' |
| `PlotArtifacts.UnescapeEscapeSvg` | release/plot_artifacts.py:145-152 | reading the entities back gives the text |
| `PlotArtifacts.FilteredMembers` | release/plot_artifacts.py:175-177 | a row is kept exactly when its type matches without regard to case |
| `PlotArtifacts.FilteredAppend` | release/plot_artifacts.py:175-177 | filtering keeps the rows' order |
| `PlotArtifacts.Filtered` | release/plot_artifacts.py:175-177 | no more rows than given, each of the requested type |
| `PlotArtifacts.CountFingerprints` | release/plot_artifacts.py:180-187 | each (host or "unknown", value) pair counts the rows falling on it, a pair is a key exactly when some row counts for it, and the counts add up to the rows counted |
| `PlotArtifacts.CountStep` | release/plot_artifacts.py:182-186 | one more row adds one to its pair's count, or nothing when the row has no value |
| `PlotArtifacts.NonEmptyValues` | release/plot_artifacts.py:296-297 | at most one distinct value per row |
| `PlotArtifacts.NonEmptyValuesMembers` | release/plot_artifacts.py:296-297 | a value is counted exactly when it is non-empty and some row holds it |
| `PlotArtifacts.BuildSummary` | release/plot_artifacts.py:295-298 | the label, at most \|rows\| distinct hosts and fingerprints, and the number of rows |
| `PlotArtifacts.GlyphShape` | release/plot_artifacts.py:24-70 | every pattern has 7 rows of 5 bits |
| `PlotArtifacts.GlyphRows` | release/plot_artifacts.py:24-70 | every pattern has 7 rows |
| `PlotArtifacts.GlyphColumns` | release/plot_artifacts.py:24-70 | every row of every pattern has 5 bits |
| `PlotArtifacts.GlyphsShaped` | release/plot_artifacts.py:100-101 | the patterns of any text are 7 by 5 |
| `PlotArtifacts.MissingIsBlank` | release/plot_artifacts.py:100-101 | a character the font lacks gets the blank pattern |
| `PlotArtifacts.MissingDrawsNothing` | release/plot_artifacts.py:100-107 | a character the font lacks sets no pixel |
| `PlotArtifacts.TextInkStep` | release/plot_artifacts.py:99-108 | drawing one more character adds exactly its pixels, at the cursor 6·scale further on |
| `PlotArtifacts.TextInkWithin` | release/plot_artifacts.py:99-108 | every pixel the text sets lies in the box of its character cells |
| `PlotArtifacts.TextInkCovers` | release/plot_artifacts.py:99-108 | every pixel of the cell of a '1' is set |
| `PlotArtifacts.TextInkPrefix` | release/plot_artifacts.py:99-108 | drawing more characters keeps every pixel fewer characters set |
| `PlotArtifacts.RowInkWithin` | release/plot_artifacts.py:104-107 | a pattern row sets pixels only in its strip |
| `PlotArtifacts.PatternInkWithin` | release/plot_artifacts.py:102-107 | a pattern sets pixels only in the box of its character cell |
| `PlotArtifacts.RowInkCovers` | release/plot_artifacts.py:104-107 | every pixel of the cell of a '1' in a row is set |
| `PlotArtifacts.PatternInkCovers` | release/plot_artifacts.py:102-107 | every pixel of the cell of a '1' in a pattern is set |
| `PlotArtifacts.Canvas.constructor` | release/plot_artifacts.py:79-83 | height rows of width pixels, all background, no SVG element |
| `PlotArtifacts.Canvas.SetPixel` | release/plot_artifacts.py:85-87 | only pixel (x, y) changes, and only when it is on the canvas |
| `PlotArtifacts.Canvas.DrawRect` | release/plot_artifacts.py:89-95 | exactly the pixels of the box that are on the canvas take the colour, and one rect element is appended even when the box is off the canvas |
| `PlotArtifacts.Canvas.FillRow` | release/plot_artifacts.py:91-94 | one row of the rectangle takes the colour within the canvas, and nothing else changes |
| `PlotArtifacts.Canvas.DrawText` | release/plot_artifacts.py:97-112 | exactly the pixels of the upper-cased text's patterns take the colour, and one text element holding the escaped text is appended |
| `PlotArtifacts.Canvas.StampRow` | release/plot_artifacts.py:106-107 | one pixel row of a cell takes the colour within the canvas, and nothing else changes |
| `PlotArtifacts.Canvas.StampCell` | release/plot_artifacts.py:105-107 | the scale-by-scale cell of a '1' takes the colour within the canvas |
| `PlotArtifacts.Canvas.DrawGlyphRow` | release/plot_artifacts.py:103-107 | a pattern row sets exactly the cells of its '1' bits |
| `PlotArtifacts.Canvas.DrawGlyph` | release/plot_artifacts.py:102-107 | a pattern sets exactly its ink |
| `PlotArtifacts.Canvas.DrawNext` | release/plot_artifacts.py:99-108 | one pass of the character loop adds the next character's ink at the advancing cursor |

## Left out

- The libpcap calls (`pcap_open_offline`, `pcap_next_ex`) are left out because they are foreign: the frames and the end of the capture are inputs. `inet_ntop` is the `ntop` parameter.
- MD5 is the `md5` parameter, a function returning 16 bytes, because it is an OpenSSL call. SHA-256 and the formatting of SSH fingerprints are left out for the same reason.
- The network is left out: `src/fingerprint_tls.cpp`, the ssh-keyscan popen, the curl webhook and the Python collectors. `Alerts.AlertManager.SendAlert` takes whether the webhook request went through as a parameter.
- Console output is not modelled: `print_console_alert`, the diff report, `print_ascii_summary`'s formatting and the top-10 listing with its `std::sort`.
- `get_config` is not modelled; it only returns the `config` field.
- The argv loops of every `main` are left out, except the alert-option scan of the diff action. The chart type and the options arrive as parameters.
- Clocks are parameters: `format_timestamp`, `get_current_timestamp` and the `now` of a baseline.
- `load_metadata_date`, `load_csv_records`, `save_png`, `save_svg`, `plot_bar` and `plot_table` are left out: they are file formats, floating-point layout and zlib.
- `src/generate_eval_set.cpp`, `release/tools` and `src/visualizer.py` are not part of this model.
- `FingerprintStorage::save` and the CSV writer are modelled by the lines they append (`SavedCsvLines`, `CsvLine`), not by stream objects.
- `ipaddress.ip_address` is the `isIp` parameter. `re` is modelled only for the label pattern, over ASCII.
- Case mapping is ASCII only, for `std::toupper`, `std::tolower` and `str.upper`.
- `PlotArtifacts.Canvas`: the pixel rows are a `seq` of `seq`, so the aliasing of Python lists is not modelled.
- `PlotArtifacts.Glyph`: the font has no '?' pattern, so a missing character falls back to the pattern of ' '. That pattern is blank.
- `SshFingerprint.DecodeBase64`: `val` is kept modulo 2^12. `LowBitsShift` and `LowBitsByte` show this emits the same bytes as the unbounded shift. The signed-int overflow of the code after many characters is not modelled.
- `Ja3.ParseClientHelloSpec`: the model rejects no input the code accepts. The code checks the bounds before every read, and the model checks in the same places.
- `save_ja3_record` and the `--output` choice of `src/fingerprint_pcap.cpp` are not modelled: they write files through `FingerprintStorage::save`, and the reading side of that store is modelled in `FingerprintCommon`. The callback's records and counters are modelled.
- `resolve_timestamp` is declared in `include/utils.h` but defined nowhere in these sources, so it is not part of this model.
- `FingerprintCommon.LoadAll` and `BaselineDiff.LoadBaseline` read with the corrected value cleanup (see Findings). The as-written reader is `JsonRecords(…, false)`.
- `PcapReader.Deliver` uses the corrected extraction (see Findings), so its handshake is the whole record body. The code's copy drops the last five bytes, as `PcapReader.DeliverAsWritten` and `PcapReader.DeliverAsWrittenDropsFiveBytes` state.
- `PcapReader.Delivered` is built on `Deliver`, so it has the corrected handshakes.
- `PcapReader.DeliveredAreTlsHellos` holds of the corrected handshakes. The code copies nothing from a record of length 5, so a delivered handshake can be empty there.
- `PcapReader.FilterFrame` calls the corrected extraction where the code's loop body extracts as written.
- `PcapReader.Reader.ProcessPackets` returns the corrected handshakes of `Delivered`, not the code's truncated copies.
- `FingerprintPcap.FingerprintCapture` runs over the corrected handshakes, so its JA3 strings can differ from the code's when the last five bytes of a hello matter.
- `Visualize.Run` names its "all" files with the corrected `FileNameDerived` (see Findings). The code's `DerivedName` drops a "./" directory, as `Visualize.DerivedNameDropsDirectory` states.
- `Visualize.TimelineFile` uses the corrected `FileNameDerived` for "all", like `Visualize.Run`.
- `Visualize.SummaryFile` uses the corrected `FileNameDerived` for "all", like `Visualize.Run`.
- `TargetValidation.AcceptedIsLabels` is stated of the corrected `ValidateTarget` (see Findings). The code's pattern lets a final newline through. The as-written statement is `TargetValidation.AsWrittenAcceptedIsLabels`.
- `TargetValidation.AcceptedCharacters` is stated of the corrected check. The as-written statement, which allows newlines, is `TargetValidation.AsWrittenAcceptedCharacters`.
- `TargetValidation.RejectedCharacter` is stated of the corrected check. The as-written statements are `TargetValidation.AsWrittenRejectedCharacter` and `TargetValidation.AsWrittenInnerNewlineRejected`.
- `PlotArtifacts.Row`: rows are complete maps of strings. `csv.DictReader` gives `None` for the missing columns of a short row (release/plot_artifacts.py:171). Then `.upper()` raises AttributeError (release/plot_artifacts.py:177), and a `None` host can be counted (release/plot_artifacts.py:184). None of this is modelled.

## Findings

| source | as written | input that shows it | evidently intended | confidence | as-written member | corrected member |
|---|---|---|---|---|---|---|
| src/pcap_reader.cpp:250-251 | `payload_len = packet_len - payload_offset` is unsigned and wraps when the TCP data offset points past the capture, so the length checks pass and byte `payload_offset` is read | a 54-byte IPv4 frame with data offset 15 (payload at 94) | reject a payload offset beyond the captured bytes | high, not executed | `PcapReader.PayloadOffsetPastCapture` | `PcapReader.ExtractTlsHandshake` |
| src/pcap_reader.cpp:265-268 | a record of length 0 passes the length check, and its handshake type is read one byte past the capture | a frame ending right after a 5-byte record header of length 0 | require a non-empty record body | high, not executed | `PcapReader.EmptyRecordReadsPastCapture` | `PcapReader.ExtractTlsHandshake` |
| src/pcap_reader.cpp:275 | the copy takes `record_len - 5` bytes from `payload_offset + 5`, dropping the last five bytes of the handshake (and going backwards when `record_len < 5`) | any frame carrying a hello record (`FrameHandshakeRoundTrip`) | copy the whole record body of `record_len` bytes | high, not executed | `PcapReader.AsWrittenDropsFiveBytes` | `PcapReader.FrameHandshakeRoundTrip` |
| src/fingerprint_common.cpp:147-154 | quotes are stripped before the trailing ',' is dropped, so `"value",` keeps its quotes; each append rewrites the earlier records as read, adding a further pair of quotes | one record saved to a new file reads back with its timestamp as `"t"` | drop the ',' first, then the quotes | high, not executed | `FingerprintCommon.AsWrittenAppendRequotes` | `FingerprintCommon.AppendRoundTrip` |
| src/baseline_diff.cpp:62-65 | the baseline reads back with type, host and fingerprint still in quotes (the same cleanup order). A key saved once is never found in it: the diff reports it new and exits 0. A key saved in two saves is read back twice, once with an extra pair of quotes, and that requoted key is compared with the fingerprint in quotes: the diff reports it changed and exits 1 | the same record saved twice, then a baseline created and diffed at once | the diff reports every key unchanged and exits 0 | high, not executed | `BaselineDiff.AsWrittenResavedKeyChanges` | `BaselineDiff.CreateThenDiff` |
| src/visualize.cpp:165-173 | `find_last_of('.')` also finds the '.' of a directory, so the name loses its directory part | `--output ./report` with `all` gives `_timeline.json` | keep the directory: `./report_timeline.json` | high, not executed | `Visualize.DerivedNameDropsDirectory` | `Visualize.FileNameDerivedKeepsDotSlash` |
| src/utils.py:23 | `$` also matches before a final newline, so a label ending in '\n' passes | `"google.com\n"` is accepted | refuse any character outside the label class | high, not executed | `TargetValidation.AsWrittenAcceptsNewline` | `TargetValidation.NewlineRejected` |
