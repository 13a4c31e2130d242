// The release plotting script: the pixel canvas, colour and SVG text helpers, and the
// counting and summarising of CSV rows.

module PlotArtifacts {
  import opened Wrappers
  import opened Text
  import opened Utils
  import Visualize

  // ---------------------------------------------------------------- colours

  /** An (r, g, b) triple; Python ints, so no range is enforced. */
  type Color = (int, int, int)

  /** The lowercase hexadecimal digits of n, without leading zeros. */
  function HexDigits(n: nat): (s: string)
    ensures |s| >= 1 && forall i :: 0 <= i < |s| ==> IsLowerHex(s[i])
    decreases n
  {
    HexLowerIsLowerHex(n % 16);
    if n < 16 then [HexLower(n)] else HexDigits(n / 16) + [HexLower(n % 16)]
  }

  /** f"{c:02x}": at least two digits, zero padded after any sign. */
  function Hex02(c: int): (s: string)
    ensures |s| >= 2
    ensures IsByte(c) ==> |s| == 2 && forall i :: 0 <= i < 2 ==> IsLowerHex(s[i])
  {
    if c < 0 then "-" + HexDigits(-c)
    else if c < 16 then "0" + HexDigits(c)
    else
      assert c < 256 ==> HexDigits(c / 16) == [HexLower(c / 16)];
      HexDigits(c)
  }

  /** rgb_hex: '#' and each component in lowercase hexadecimal. */
  function RgbHex(color: Color): (s: string)
    ensures |s| >= 7 && s[0] == '#'
    ensures IsByte(color.0) && IsByte(color.1) && IsByte(color.2) ==>
      |s| == 7 && forall i :: 1 <= i < 7 ==> IsLowerHex(s[i])
  {
    "#" + Hex02(color.0) + Hex02(color.1) + Hex02(color.2)
  }

  predicate IsByte(c: int) { 0 <= c < 256 }

  /** The value of a lowercase hexadecimal digit. */
  function HexValue(c: char): (v: nat)
    requires IsLowerHex(c)
    ensures v < 16
  {
    if c <= '9' then c as int - '0' as int else c as int - 'a' as int + 10
  }

  /** The byte two lowercase hexadecimal digits spell. */
  function PairValue(s: string): nat
    requires |s| == 2 && IsLowerHex(s[0]) && IsLowerHex(s[1])
  {
    16 * HexValue(s[0]) + HexValue(s[1])
  }

  lemma HexValueOfDigit(d: nat)
    requires d < 16
    ensures IsLowerHex(HexLower(d)) && HexValue(HexLower(d)) == d
  {
    HexLowerIsLowerHex(d);
  }

  /** A byte in two lowercase hexadecimal digits, the high one first. */
  lemma {:induction false} Hex02OfByte(b: int)
    requires IsByte(b)
    ensures Hex02(b) == [HexLower(b / 16), HexLower(b % 16)]
  {
    if b >= 16 {
      assert HexDigits(b / 16) == [HexLower(b / 16)];
    }
  }

  /** For components in 0..255, rgb_hex gives seven characters, '#' and then three pairs of
      lowercase hexadecimal digits that spell the components back. */
  lemma RgbHexOfBytes(color: Color)
    requires IsByte(color.0) && IsByte(color.1) && IsByte(color.2)
    ensures var s := RgbHex(color);
      |s| == 7 && s[0] == '#' && (forall i :: 1 <= i < 7 ==> IsLowerHex(s[i])) &&
      PairValue(s[1..3]) == color.0 && PairValue(s[3..5]) == color.1 && PairValue(s[5..7]) == color.2
  {
    Hex02OfByte(color.0);
    Hex02OfByte(color.1);
    Hex02OfByte(color.2);
    HexValueOfDigit(color.0 / 16);
    HexValueOfDigit(color.0 % 16);
    HexValueOfDigit(color.1 / 16);
    HexValueOfDigit(color.1 % 16);
    HexValueOfDigit(color.2 / 16);
    HexValueOfDigit(color.2 % 16);
    var s := RgbHex(color);
    assert s == "#" + [HexLower(color.0 / 16), HexLower(color.0 % 16)] + [HexLower(color.1 / 16), HexLower(color.1 % 16)]
      + [HexLower(color.2 / 16), HexLower(color.2 % 16)];
  }

  // ---------------------------------------------------------------- escape_svg

  /** str.replace for a one-character pattern: every c replaced by rep. */
  function ReplaceChar(s: string, c: char, rep: string): string
    decreases |s|
  {
    if s == [] then "" else ReplaceChar(s[..|s| - 1], c, rep) + (if s[|s| - 1] == c then rep else [s[|s| - 1]])
  }

  /** Every character of the result is one of rep's or one of s other than c. */
  lemma {:induction false} ReplaceCharCharacters(s: string, c: char, rep: string)
    ensures forall x :: x in ReplaceChar(s, c, rep) ==> x in rep || (x != c && x in s)
    decreases |s|
  {
    if s != [] {
      var init := s[..|s| - 1];
      ReplaceCharCharacters(init, c, rep);
      var last := if s[|s| - 1] == c then rep else [s[|s| - 1]];
      assert ReplaceChar(s, c, rep) == ReplaceChar(init, c, rep) + last;
      forall x | x in init
        ensures x in s
      {
        var j :| 0 <= j < |init| && init[j] == x;
        assert s[j] == x;
      }
    }
  }

  /** No character of bad comes out of the replacement when none goes in and rep has none. */
  lemma ReplaceKeepsOut(s: string, c: char, rep: string, bad: string)
    requires forall x :: x in s && x != c ==> x !in bad
    requires forall x :: x in rep ==> x !in bad
    ensures forall x :: x in ReplaceChar(s, c, rep) ==> x !in bad
  {
    ReplaceCharCharacters(s, c, rep);
  }

  /** The replacement chain of escape_svg leaves none of '<', '>', '"' and '\'' behind. */
  lemma EscapeChainKeepsOut(s: string)
    ensures var r := ReplaceChar(ReplaceChar(ReplaceChar(ReplaceChar(ReplaceChar(s, '&', "&amp;"),
                       '<', "&lt;"), '>', "&gt;"), '"', "&quot;"), '\'', "&apos;");
      '<' !in r && '>' !in r && '"' !in r && '\'' !in r
  {
    var s1 := ReplaceChar(s, '&', "&amp;");
    var s2 := ReplaceChar(s1, '<', "&lt;");
    var s3 := ReplaceChar(s2, '>', "&gt;");
    var s4 := ReplaceChar(s3, '"', "&quot;");
    ReplaceKeepsOut(s1, '<', "&lt;", "<");
    ReplaceKeepsOut(s2, '>', "&gt;", "<>");
    ReplaceKeepsOut(s3, '"', "&quot;", "<>\"");
    ReplaceKeepsOut(s4, '\'', "&apos;", "<>\"'");
  }

  /** escape_svg: '&' first, then '<', '>', '"' and '\''. */
  function EscapeSvg(s: string): (r: string)
    ensures '<' !in r && '>' !in r && '"' !in r && '\'' !in r
  {
    EscapeChainKeepsOut(s);
    ReplaceChar(ReplaceChar(ReplaceChar(ReplaceChar(ReplaceChar(s, '&', "&amp;"),
      '<', "&lt;"), '>', "&gt;"), '"', "&quot;"), '\'', "&apos;")
  }

  /** The entity for one character, or the character itself. */
  function EscapeChar(ch: char): string
  {
    if ch == '&' then "&amp;"
    else if ch == '<' then "&lt;"
    else if ch == '>' then "&gt;"
    else if ch == '"' then "&quot;"
    else if ch == '\'' then "&apos;"
    else [ch]
  }

  /** Each character escaped on its own, in one pass. */
  function EscapeEach(s: string): string
    decreases |s|
  {
    if s == [] then "" else EscapeEach(s[..|s| - 1]) + EscapeChar(s[|s| - 1])
  }

  lemma {:induction false} ReplaceAppend(a: string, b: string, c: char, rep: string)
    ensures ReplaceChar(a + b, c, rep) == ReplaceChar(a, c, rep) + ReplaceChar(b, c, rep)
    decreases |b|
  {
    if b != [] {
      var b' := b[..|b| - 1];
      assert (a + b)[..|a + b| - 1] == a + b';
      ReplaceAppend(a, b', c, rep);
    } else {
      assert a + b == a;
    }
  }

  lemma {:induction false} ReplaceAbsent(s: string, c: char, rep: string)
    requires c !in s
    ensures ReplaceChar(s, c, rep) == s
    decreases |s|
  {
    if s != [] {
      ReplaceAbsent(s[..|s| - 1], c, rep);
      assert s[..|s| - 1] + [s[|s| - 1]] == s;
    }
  }

  lemma ReplaceOne(ch: char, c: char, rep: string)
    ensures ReplaceChar([ch], c, rep) == if ch == c then rep else [ch]
  {
    assert [ch][..0] == [];
  }

  /** The replacements after the one that wrote an entity leave it alone. */
  lemma ReplaceRest(e: string, k: nat)
    requires k <= 4
    requires forall i :: 0 <= i < |e| ==> e[i] != '<' && e[i] != '>' && e[i] != '"' && e[i] != '\''
    ensures k <= 0 ==> ReplaceChar(e, '<', "&lt;") == e
    ensures k <= 1 ==> ReplaceChar(e, '>', "&gt;") == e
    ensures k <= 2 ==> ReplaceChar(e, '"', "&quot;") == e
    ensures k <= 3 ==> ReplaceChar(e, '\'', "&apos;") == e
  {
    ReplaceAbsent(e, '<', "&lt;");
    ReplaceAbsent(e, '>', "&gt;");
    ReplaceAbsent(e, '"', "&quot;");
    ReplaceAbsent(e, '\'', "&apos;");
  }

  /** The chain on a single character gives that character's entity: no replacement
      touches what an earlier one wrote. */
  lemma EscapeSvgOneChar(ch: char)
    ensures EscapeSvg([ch]) == EscapeChar(ch)
  {
    if ch == '&' {
      EscapeSvgEntity(ch, "&amp;", 0);
    } else if ch == '<' {
      EscapeSvgEntity(ch, "&lt;", 1);
    } else if ch == '>' {
      EscapeSvgEntity(ch, "&gt;", 2);
    } else if ch == '"' {
      EscapeSvgEntity(ch, "&quot;", 3);
    } else {
      ReplaceOne(ch, '&', "&amp;");
      ReplaceOne(ch, '<', "&lt;");
      ReplaceOne(ch, '>', "&gt;");
      ReplaceOne(ch, '"', "&quot;");
      ReplaceOne(ch, '\'', "&apos;");
    }
  }

  /** The k-th replacement of the chain turns ch into e, and the later ones leave e alone. */
  lemma EscapeSvgEntity(ch: char, e: string, k: nat)
    requires k < 4 && e == ["&amp;", "&lt;", "&gt;", "&quot;"][k] && ch == "&<>\""[k]
    ensures ReplaceChar(ReplaceChar(ReplaceChar(ReplaceChar(ReplaceChar([ch], '&', "&amp;"),
              '<', "&lt;"), '>', "&gt;"), '"', "&quot;"), '\'', "&apos;") == e
  {
    var s1 := ReplaceChar([ch], '&', "&amp;");
    var s2 := ReplaceChar(s1, '<', "&lt;");
    var s3 := ReplaceChar(s2, '>', "&gt;");
    var s4 := ReplaceChar(s3, '"', "&quot;");
    ReplaceRest(e, k);
    ReplaceOne(ch, '&', "&amp;");
    if k >= 1 { ReplaceOne(ch, '<', "&lt;"); }
    if k >= 2 { ReplaceOne(ch, '>', "&gt;"); }
    if k >= 3 { ReplaceOne(ch, '"', "&quot;"); }
  }

  /** escape_svg escapes each character on its own. */
  lemma {:induction false} EscapeSvgIsEach(s: string)
    ensures EscapeSvg(s) == EscapeEach(s)
    decreases |s|
  {
    if s != [] {
      var p, ch := s[..|s| - 1], s[|s| - 1];
      assert s == p + [ch];
      EscapeSvgIsEach(p);
      EscapeSvgOneChar(ch);
      EscapeSvgAppend(p, [ch]);
    }
  }

  lemma EscapeSvgAppend(a: string, b: string)
    ensures EscapeSvg(a + b) == EscapeSvg(a) + EscapeSvg(b)
  {
    ReplaceAppend(a, b, '&', "&amp;");
    var a1, b1 := ReplaceChar(a, '&', "&amp;"), ReplaceChar(b, '&', "&amp;");
    ReplaceAppend(a1, b1, '<', "&lt;");
    var a2, b2 := ReplaceChar(a1, '<', "&lt;"), ReplaceChar(b1, '<', "&lt;");
    ReplaceAppend(a2, b2, '>', "&gt;");
    var a3, b3 := ReplaceChar(a2, '>', "&gt;"), ReplaceChar(b2, '>', "&gt;");
    ReplaceAppend(a3, b3, '"', "&quot;");
    var a4, b4 := ReplaceChar(a3, '"', "&quot;"), ReplaceChar(b3, '"', "&quot;");
    ReplaceAppend(a4, b4, '\'', "&apos;");
  }

  lemma {:induction false} EscapeEachAppend(a: string, b: string)
    ensures EscapeEach(a + b) == EscapeEach(a) + EscapeEach(b)
    decreases |b|
  {
    if b != [] {
      var b' := b[..|b| - 1];
      assert (a + b)[..|a + b| - 1] == a + b';
      EscapeEachAppend(a, b');
    } else {
      assert a + b == a;
    }
  }

  /** The characters escape_svg never leaves in its output. */
  predicate Markup(c: char)
  {
    c == '<' || c == '>' || c == '"' || c == '\''
  }

  /** The output of escape_svg holds none of < > " '. */
  lemma {:induction false} EscapedHasNoMarkup(s: string)
    ensures forall i :: 0 <= i < |EscapeSvg(s)| ==> !Markup(EscapeSvg(s)[i])
    decreases |s|
  {
    EscapeSvgIsEach(s);
    EscapeEachHasNoMarkup(s);
  }

  lemma {:induction false} EscapeEachHasNoMarkup(s: string)
    ensures forall i :: 0 <= i < |EscapeEach(s)| ==> !Markup(EscapeEach(s)[i])
    decreases |s|
  {
    if s != [] {
      EscapeEachHasNoMarkup(s[..|s| - 1]);
      var a, b := EscapeEach(s[..|s| - 1]), EscapeChar(s[|s| - 1]);
      assert forall i :: 0 <= i < |b| ==> !Markup(b[i]);
      assert forall i :: 0 <= i < |a + b| ==> (a + b)[i] == if i < |a| then a[i] else b[i - |a|];
    }
  }

  /** Reading the five entities back; every other character stands for itself. */
  function Unescape(s: string): string
    decreases |s|
  {
    if s == [] then ""
    else if |s| >= 5 && s[..5] == "&amp;" then "&" + Unescape(s[5..])
    else if |s| >= 4 && s[..4] == "&lt;" then "<" + Unescape(s[4..])
    else if |s| >= 4 && s[..4] == "&gt;" then ">" + Unescape(s[4..])
    else if |s| >= 6 && s[..6] == "&quot;" then "\"" + Unescape(s[6..])
    else if |s| >= 6 && s[..6] == "&apos;" then "'" + Unescape(s[6..])
    else [s[0]] + Unescape(s[1..])
  }

  lemma UnescapeOne(ch: char, rest: string)
    ensures Unescape(EscapeChar(ch) + rest) == [ch] + Unescape(rest)
  {
    if ch == '&' {
      UnescapeAmp(rest);
    } else if ch == '<' {
      UnescapeEntity("&lt;", rest);
    } else if ch == '>' {
      UnescapeEntity("&gt;", rest);
    } else if ch == '"' {
      UnescapeQuote("&quot;", rest);
    } else if ch == '\'' {
      UnescapeQuote("&apos;", rest);
    } else {
      UnescapePlain(ch, rest);
    }
  }

  lemma UnescapeAmp(rest: string)
    ensures Unescape("&amp;" + rest) == "&" + Unescape(rest)
  {
    var s := "&amp;" + rest;
    assert s[..5] == "&amp;" && s[5..] == rest;
  }

  /** The four-character entities, after which "&amp;" cannot match. */
  lemma UnescapeEntity(e: string, rest: string)
    requires e == "&lt;" || e == "&gt;"
    ensures Unescape(e + rest) == (if e == "&lt;" then "<" else ">") + Unescape(rest)
  {
    var s := e + rest;
    assert s[..4] == e && s[4..] == rest;
    assert |s| >= 5 ==> s[..5][1] == e[1];
  }

  /** The six-character entities, after which no shorter one can match. */
  lemma UnescapeQuote(e: string, rest: string)
    requires e == "&quot;" || e == "&apos;"
    ensures Unescape(e + rest) == (if e == "&quot;" then "\"" else "'") + Unescape(rest)
  {
    var s := e + rest;
    assert s[..6] == e && s[6..] == rest;
    assert s[..5][1] == e[1] && s[..4][1] == e[1];
    assert e[1] == (if e == "&quot;" then 'q' else 'a');
  }

  /** A character other than '&' stands for itself. */
  lemma UnescapePlain(ch: char, rest: string)
    requires ch != '&'
    ensures Unescape([ch] + rest) == [ch] + Unescape(rest)
  {
    var s := [ch] + rest;
    assert s[1..] == rest;
    assert |s| >= 4 ==> s[..4][0] == ch;
    assert |s| >= 5 ==> s[..5][0] == ch;
    assert |s| >= 6 ==> s[..6][0] == ch;
  }

  /** Unescaping undoes escape_svg. */
  lemma {:induction false} UnescapeEscapeSvg(s: string)
    ensures Unescape(EscapeSvg(s)) == s
  {
    EscapeSvgIsEach(s);
    UnescapeEach(s);
  }

  lemma {:induction false} UnescapeEach(s: string)
    ensures Unescape(EscapeEach(s)) == s
    decreases |s|
  {
    if s != [] {
      EscapeEachAppend([s[0]], s[1..]);
      assert [s[0]] + s[1..] == s;
      assert EscapeEach([s[0]]) == EscapeChar(s[0]) by {
        assert [s[0]][..0] == [];
      }
      UnescapeOne(s[0], EscapeEach(s[1..]));
      UnescapeEach(s[1..]);
    }
  }

  // ---------------------------------------------------------------- CSV rows

  /** One CSV row as csv.DictReader gives it. */
  type Row = map<string, string>

  /** row.get(key, default). */
  function Get(row: Row, key: string, default: string): string
  {
    if key in row then row[key] else default
  }

  /** The rows of _filtered: type matches the wanted one without regard to case. */
  predicate OfType(row: Row, recordType: string)
  {
    ToUpper(Get(row, "type", "")) == ToUpper(recordType)
  }

  /** _filtered: the rows of the given type, in their order. */
  function Filtered(rows: seq<Row>, recordType: string): (r: seq<Row>)
    ensures |r| <= |rows|
    ensures forall i :: 0 <= i < |r| ==> OfType(r[i], recordType)
    decreases |rows|
  {
    if rows == [] then []
    else
      var last := rows[|rows| - 1];
      Filtered(rows[..|rows| - 1], recordType) + (if OfType(last, recordType) then [last] else [])
  }

  /** Filtering keeps each row of the type and drops every other row. */
  lemma {:induction false} FilteredMembers(rows: seq<Row>, recordType: string, row: Row)
    ensures row in Filtered(rows, recordType) <==> row in rows && OfType(row, recordType)
    decreases |rows|
  {
    if rows != [] {
      FilteredMembers(rows[..|rows| - 1], recordType, row);
      assert rows == rows[..|rows| - 1] + [rows[|rows| - 1]];
    }
  }

  /** Filtering keeps the order: it works piece by piece. */
  lemma {:induction false} FilteredAppend(a: seq<Row>, b: seq<Row>, recordType: string)
    ensures Filtered(a + b, recordType) == Filtered(a, recordType) + Filtered(b, recordType)
    decreases |b|
  {
    if b == [] {
      assert a + b == a;
    } else {
      var b' := b[..|b| - 1];
      assert (a + b)[..|a + b| - 1] == a + b';
      FilteredAppend(a, b', recordType);
    }
  }

  // ---------------------------------------------------------------- count_fingerprints

  /** row.get(value_key) or row.get("fingerprint"): the first non-empty of the two, else
      whatever the fingerprint column holds (None when there is no such column). */
  function ValueOf(row: Row, valueKey: string): Option<string>
  {
    if valueKey in row && row[valueKey] != "" then Some(row[valueKey])
    else if "fingerprint" in row then Some(row["fingerprint"])
    else None
  }

  /** The (host, value) pair a row counts for, None when its value is missing or empty. */
  function CountedPair(row: Row, valueKey: string): Option<(string, string)>
  {
    var value := ValueOf(row, valueKey);
    if value.Some? && value.value != "" then Some((Get(row, "host", "unknown"), value.value)) else None
  }

  /** The number of rows counted for pair. */
  function PairCount(rows: seq<Row>, valueKey: string, pair: (string, string)): nat
    decreases |rows|
  {
    if rows == [] then 0
    else PairCount(rows[..|rows| - 1], valueKey, pair) + (if CountedPair(rows[|rows| - 1], valueKey) == Some(pair) then 1 else 0)
  }

  /** The number of rows counted at all. */
  function CountedRows(rows: seq<Row>, valueKey: string): nat
    decreases |rows|
  {
    if rows == [] then 0
    else CountedRows(rows[..|rows| - 1], valueKey) + (if CountedPair(rows[|rows| - 1], valueKey).Some? then 1 else 0)
  }

  lemma CountStep(counts: map<(string, string), nat>, rows: seq<Row>, valueKey: string, i: nat)
    requires i < |rows|
    requires forall p ::
      (p in counts <==> PairCount(rows[..i], valueKey, p) > 0) && (p in counts ==> counts[p] == PairCount(rows[..i], valueKey, p))
    requires Visualize.Sum(counts) == CountedRows(rows[..i], valueKey)
    ensures var next := match CountedPair(rows[i], valueKey)
        case None => counts
        case Some(p) => counts[p := (if p in counts then counts[p] else 0) + 1];
      (forall p :: (p in next <==> PairCount(rows[..i + 1], valueKey, p) > 0) &&
        (p in next ==> next[p] == PairCount(rows[..i + 1], valueKey, p))) &&
      Visualize.Sum(next) == CountedRows(rows[..i + 1], valueKey)
  {
    assert rows[..i + 1][..i] == rows[..i];
    match CountedPair(rows[i], valueKey)
    case None =>
    case Some(p) =>
      var n := if p in counts then counts[p] else 0;
      Visualize.SumUpdate(counts, p, n + 1);
  }

  /** count_fingerprints: how many rows fall on each (host, value) pair; a pair is a key
      exactly when some row counts for it, and the counts add up to the counted rows. */
  method CountFingerprints(rows: seq<Row>, valueKey: string) returns (counts: map<(string, string), nat>)
    ensures forall p ::
      (p in counts <==> PairCount(rows, valueKey, p) > 0) && (p in counts ==> counts[p] == PairCount(rows, valueKey, p))
    ensures Visualize.Sum(counts) == CountedRows(rows, valueKey)
  {
    counts := map[];
    var i := 0;
    while i < |rows|
      invariant i <= |rows|
      invariant forall p ::
        (p in counts <==> PairCount(rows[..i], valueKey, p) > 0) && (p in counts ==> counts[p] == PairCount(rows[..i], valueKey, p))
      invariant Visualize.Sum(counts) == CountedRows(rows[..i], valueKey)
    {
      var row := rows[i];
      var value := if valueKey in row && row[valueKey] != "" then Some(row[valueKey])
        else if "fingerprint" in row then Some(row["fingerprint"]) else None;
      var host := if "host" in row then row["host"] else "unknown";
      assert value == ValueOf(row, valueKey) && host == Get(row, "host", "unknown");
      CountStep(counts, rows, valueKey, i);
      if value.Some? && value.value != "" {
        var n := if (host, value.value) in counts then counts[(host, value.value)] else 0;
        counts := counts[(host, value.value) := n + 1];
      }
      i := i + 1;
    }
    assert rows[..i] == rows;
  }

  // ---------------------------------------------------------------- build_summary

  /** The distinct non-empty values rows hold in column key. */
  function NonEmptyValues(rows: seq<Row>, key: string): (vs: set<string>)
    ensures |vs| <= |rows|
    decreases |rows|
  {
    if rows == [] then {}
    else
      var last := rows[|rows| - 1];
      NonEmptyValues(rows[..|rows| - 1], key) + (if key in last && last[key] != "" then {last[key]} else {})
  }

  lemma {:induction false} NonEmptyValuesMembers(rows: seq<Row>, key: string, v: string)
    ensures v in NonEmptyValues(rows, key) <==> v != "" && exists i :: 0 <= i < |rows| && key in rows[i] && rows[i][key] == v
    decreases |rows|
  {
    if rows != [] {
      NonEmptyValuesMembers(rows[..|rows| - 1], key, v);
      HoldsValueSnoc(rows, rows[..|rows| - 1], key, v);
    }
  }

  /** A value is held by some row exactly when it is held by a row before the last or by the last. */
  lemma HoldsValueSnoc(rows: seq<Row>, p: seq<Row>, key: string, v: string)
    requires rows != [] && p == rows[..|rows| - 1]
    ensures (exists i :: 0 <= i < |rows| && key in rows[i] && rows[i][key] == v) <==>
      (exists i :: 0 <= i < |p| && key in p[i] && p[i][key] == v) ||
      (key in rows[|rows| - 1] && rows[|rows| - 1][key] == v)
  {
    if exists i :: 0 <= i < |rows| && key in rows[i] && rows[i][key] == v {
      var i :| 0 <= i < |rows| && key in rows[i] && rows[i][key] == v;
      if i < |p| {
        assert p[i] == rows[i];
      }
    }
    if exists i :: 0 <= i < |p| && key in p[i] && p[i][key] == v {
      var i :| 0 <= i < |p| && key in p[i] && p[i][key] == v;
      assert rows[i] == p[i];
    }
  }

  /** One row of the capture summary table. */
  datatype SummaryRow = SummaryRow(dataset: string, hosts: nat, fingerprints: nat, samples: nat)

  /** build_summary: the dataset name, the numbers of distinct non-empty hosts and fingerprints,
      and the number of rows; neither count exceeds the rows. */
  function BuildSummary(rows: seq<Row>, name: string): (r: SummaryRow)
    ensures r.dataset == name && r.samples == |rows|
    ensures r.hosts <= r.samples && r.fingerprints <= r.samples
  {
    SummaryRow(name, |NonEmptyValues(rows, "host")|, |NonEmptyValues(rows, "fingerprint")|, |rows|)
  }

  // ---------------------------------------------------------------- the 5x7 font

  /** The characters FONT_5X7 has a pattern for; '?' is not one of them. */
  const FontKeys: set<char> := {'A', 'B', 'C', 'D', 'E', 'F', 'G', 'H', 'I', 'J', 'K', 'L', 'M', 'N', 'O', 'P', 'Q', 'R', 'S', 'T', 'U', 'V', 'W', 'X', 'Y', 'Z', '0', '1', '2', '3', '4', '5', '6', '7', '8', '9', ' ', '-', '/', ':', '.', ',', '(', ')', '_'}

  /** The pattern FONT_5X7 gives ' ': no pixel set. */
  const SpaceGlyph: seq<string> := ["00000", "00000", "00000", "00000", "00000", "00000", "00000"]

  /** The pattern draw_text uses for ch: FONT_5X7's own, each of 7 rows of 5 bits with '1'
      for a set pixel; for any other character the one of '?', which the font does not
      have, so the one of ' '. */
  function Glyph(ch: char): seq<string>
  {
    match ch
    case 'A' => ["01110", "10001", "10001", "11111", "10001", "10001", "10001"]
    case 'B' => ["11110", "10001", "11110", "10001", "10001", "10001", "11110"]
    case 'C' => ["01110", "10001", "10000", "10000", "10000", "10001", "01110"]
    case 'D' => ["11110", "10001", "10001", "10001", "10001", "10001", "11110"]
    case 'E' => ["11111", "10000", "11110", "10000", "10000", "10000", "11111"]
    case 'F' => ["11111", "10000", "11110", "10000", "10000", "10000", "10000"]
    case 'G' => ["01110", "10001", "10000", "10000", "10011", "10001", "01111"]
    case 'H' => ["10001", "10001", "11111", "10001", "10001", "10001", "10001"]
    case 'I' => ["01110", "00100", "00100", "00100", "00100", "00100", "01110"]
    case 'J' => ["00001", "00001", "00001", "00001", "10001", "10001", "01110"]
    case 'K' => ["10001", "10010", "11100", "10010", "10001", "10001", "10001"]
    case 'L' => ["10000", "10000", "10000", "10000", "10000", "10000", "11111"]
    case 'M' => ["10001", "11011", "10101", "10101", "10001", "10001", "10001"]
    case 'N' => ["10001", "11001", "10101", "10011", "10001", "10001", "10001"]
    case 'O' => ["01110", "10001", "10001", "10001", "10001", "10001", "01110"]
    case 'P' => ["11110", "10001", "10001", "11110", "10000", "10000", "10000"]
    case 'Q' => ["01110", "10001", "10001", "10001", "10101", "10010", "01101"]
    case 'R' => ["11110", "10001", "10001", "11110", "10010", "10001", "10001"]
    case 'S' => ["01111", "10000", "10000", "01110", "00001", "00001", "11110"]
    case 'T' => ["11111", "00100", "00100", "00100", "00100", "00100", "00100"]
    case 'U' => ["10001", "10001", "10001", "10001", "10001", "10001", "01110"]
    case 'V' => ["10001", "10001", "10001", "10001", "01010", "01010", "00100"]
    case 'W' => ["10001", "10001", "10001", "10101", "10101", "11011", "10001"]
    case 'X' => ["10001", "01010", "00100", "00100", "01010", "01010", "10001"]
    case 'Y' => ["10001", "01010", "00100", "00100", "00100", "00100", "00100"]
    case 'Z' => ["11111", "00001", "00010", "00100", "01000", "10000", "11111"]
    case '0' => ["01110", "10001", "10011", "10101", "11001", "10001", "01110"]
    case '1' => ["00100", "01100", "00100", "00100", "00100", "00100", "01110"]
    case '2' => ["01110", "10001", "00001", "00010", "00100", "01000", "11111"]
    case '3' => ["11110", "00001", "00001", "01110", "00001", "00001", "11110"]
    case '4' => ["10001", "10001", "10001", "11111", "00001", "00001", "00001"]
    case '5' => ["11111", "10000", "11110", "00001", "00001", "00001", "11110"]
    case '6' => ["01111", "10000", "11110", "10001", "10001", "10001", "01110"]
    case '7' => ["11111", "00001", "00010", "00100", "01000", "01000", "01000"]
    case '8' => ["01110", "10001", "10001", "01110", "10001", "10001", "01110"]
    case '9' => ["01110", "10001", "10001", "01111", "00001", "00001", "11110"]
    case ' ' => ["00000", "00000", "00000", "00000", "00000", "00000", "00000"]
    case '-' => ["00000", "00000", "00000", "11111", "00000", "00000", "00000"]
    case '/' => ["00001", "00010", "00100", "01000", "10000", "00000", "00000"]
    case ':' => ["00000", "00100", "00100", "00000", "00100", "00100", "00000"]
    case '.' => ["00000", "00000", "00000", "00000", "00000", "00110", "00110"]
    case ',' => ["00000", "00000", "00000", "00000", "00000", "00110", "01100"]
    case '(' => ["00010", "00100", "01000", "01000", "01000", "00100", "00010"]
    case ')' => ["01000", "00100", "00010", "00010", "00010", "00100", "01000"]
    case '_' => ["00000", "00000", "00000", "00000", "00000", "00000", "11111"]
    case _ => SpaceGlyph
  }

  /** 7 rows of 5 bits. */
  predicate Shaped(pattern: seq<string>)
  {
    |pattern| == 7 && forall k :: 0 <= k < 7 ==> |pattern[k]| == 5
  }

  /** Every pattern has 7 rows. */
  lemma GlyphRows(ch: char)
    ensures |Glyph(ch)| == 7
  {
  }

  /** Every row of every pattern has 5 bits. */
  lemma GlyphColumns(ch: char, k: nat)
    requires k < 7
    ensures |Glyph(ch)[k]| == 5
  {
    GlyphRows(ch);
  }

  /** Every pattern draw_text uses has 7 rows of 5 bits. */
  lemma GlyphShape(ch: char)
    ensures Shaped(Glyph(ch))
  {
    GlyphRows(ch);
    forall k | 0 <= k < 7
      ensures |Glyph(ch)[k]| == 5
    {
      GlyphColumns(ch, k);
    }
  }

  /** A character the font lacks gets the blank pattern. */
  lemma MissingIsBlank(ch: char)
    requires ch !in FontKeys
    ensures Glyph(ch) == SpaceGlyph
  {
  }

  /** The pattern of each character of s, in order. */
  function Glyphs(s: string): seq<seq<string>>
  {
    seq(|s|, i requires 0 <= i < |s| => Glyph(s[i]))
  }

  /** The patterns of any text are 7 by 5. */
  lemma GlyphsShaped(s: string)
    ensures forall i :: 0 <= i < |s| ==> Shaped(Glyphs(s)[i])
  {
    forall i | 0 <= i < |s|
      ensures Shaped(Glyphs(s)[i])
    {
      GlyphShape(s[i]);
    }
  }

  // ---------------------------------------------------------------- the pixels draw_text sets

  /** Pixel (c, r) lies in the w by h box whose top-left corner is (x, y). */
  predicate InBox(c: int, r: int, x: int, y: int, w: int, h: int)
  {
    x <= c < x + w && y <= r < y + h
  }

  /** (c, r) is set by one row of a pattern drawn from (cx, cy): a '1' at column k covers
      the scale by scale cell at (cx + k * scale, cy). */
  predicate RowInk(cx: int, cy: int, bits: string, scale: int, c: int, r: int)
    decreases |bits|
  {
    |bits| > 0 &&
    (RowInk(cx, cy, bits[..|bits| - 1], scale, c, r) ||
     (bits[|bits| - 1] == '1' && InBox(c, r, cx + (|bits| - 1) * scale, cy, scale, scale)))
  }

  /** (c, r) is set by a pattern drawn from (cx, y): row k is drawn from y + k * scale. */
  predicate PatternInk(cx: int, y: int, pattern: seq<string>, scale: int, c: int, r: int)
    decreases |pattern|
  {
    |pattern| > 0 &&
    (PatternInk(cx, y, pattern[..|pattern| - 1], scale, c, r) ||
     RowInk(cx, y + (|pattern| - 1) * scale, pattern[|pattern| - 1], scale, c, r))
  }

  /** How far the cursor moves per character: five columns and one of spacing. */
  function Advance(scale: int): int
  {
    5 * scale + scale
  }

  /** (c, r) is set by the patterns g drawn from (x, y): pattern i from x + i * Advance(scale). */
  predicate TextInk(x: int, y: int, g: seq<seq<string>>, scale: int, c: int, r: int)
    decreases |g|
  {
    |g| > 0 &&
    (TextInk(x, y, g[..|g| - 1], scale, c, r) ||
     PatternInk(x + (|g| - 1) * Advance(scale), y, g[|g| - 1], scale, c, r))
  }

  /** Drawing one more pattern adds exactly its pixels. */
  lemma TextInkStep(x: int, y: int, g: seq<seq<string>>, i: nat, scale: int)
    requires i < |g|
    ensures forall c, r :: TextInk(x, y, g[..i + 1], scale, c, r) <==> TextInk(x, y, g[..i], scale, c, r) || PatternInk(x + i * Advance(scale), y, g[i], scale, c, r)
  {
    assert g[..i + 1][..i] == g[..i];
  }

  /** A row without a '1' sets nothing. */
  lemma {:induction false} RowWithoutOnes(cx: int, cy: int, bits: string, scale: int, c: int, r: int)
    requires '1' !in bits
    ensures !RowInk(cx, cy, bits, scale, c, r)
    decreases |bits|
  {
    if |bits| > 0 {
      var init := bits[..|bits| - 1];
      assert forall k :: 0 <= k < |init| ==> init[k] == bits[k];
      RowWithoutOnes(cx, cy, init, scale, c, r);
    }
  }

  /** A pattern without a '1' sets nothing. */
  lemma {:induction false} PatternWithoutOnes(cx: int, y: int, pattern: seq<string>, scale: int, c: int, r: int)
    requires forall k :: 0 <= k < |pattern| ==> '1' !in pattern[k]
    ensures !PatternInk(cx, y, pattern, scale, c, r)
    decreases |pattern|
  {
    if |pattern| > 0 {
      var init := pattern[..|pattern| - 1];
      PatternWithoutOnes(cx, y, init, scale, c, r);
      RowWithoutOnes(cx, y + (|pattern| - 1) * scale, pattern[|pattern| - 1], scale, c, r);
    }
  }

  /** A character outside the font leaves every pixel as it was. */
  lemma MissingDrawsNothing(ch: char, cx: int, y: int, scale: int, c: int, r: int)
    requires ch !in FontKeys
    ensures !PatternInk(cx, y, Glyph(ch), scale, c, r)
  {
    MissingIsBlank(ch);
    PatternWithoutOnes(cx, y, SpaceGlyph, scale, c, r);
  }

  /** A row's pixels lie in the strip it covers. */
  lemma {:induction false} RowInkWithin(cx: int, cy: int, bits: string, scale: int, c: int, r: int)
    requires RowInk(cx, cy, bits, scale, c, r)
    ensures scale > 0 && cx <= c < cx + |bits| * scale && cy <= r < cy + scale
    decreases |bits|
  {
    var n := |bits| - 1;
    if RowInk(cx, cy, bits[..n], scale, c, r) {
      RowInkWithin(cx, cy, bits[..n], scale, c, r);
    }
    assert (n + 1) * scale == n * scale + scale;
    assert n * scale <= (n + 1) * scale;
  }

  /** A pattern of at most five columns stays in the box five cells wide and one cell per
      row high. */
  lemma {:induction false} PatternInkWithin(cx: int, y: int, pattern: seq<string>, scale: int, c: int, r: int)
    requires forall k :: 0 <= k < |pattern| ==> |pattern[k]| <= 5
    requires PatternInk(cx, y, pattern, scale, c, r)
    ensures scale > 0 && cx <= c < cx + 5 * scale && y <= r < y + |pattern| * scale
    decreases |pattern|
  {
    var n := |pattern| - 1;
    if PatternInk(cx, y, pattern[..n], scale, c, r) {
      PatternInkWithin(cx, y, pattern[..n], scale, c, r);
    } else {
      RowInkWithin(cx, y + n * scale, pattern[n], scale, c, r);
      assert |pattern[n]| * scale <= 5 * scale;
    }
    assert (n + 1) * scale == n * scale + scale;
  }

  /** Every pixel draw_text sets lies in the box of |g| character cells from (x, y). */
  lemma {:induction false} TextInkWithin(x: int, y: int, g: seq<seq<string>>, scale: int, c: int, r: int)
    requires forall i :: 0 <= i < |g| ==> Shaped(g[i])
    requires TextInk(x, y, g, scale, c, r)
    ensures scale > 0 && x <= c < x + |g| * Advance(scale) && y <= r < y + 7 * scale
    decreases |g|
  {
    var n := |g| - 1;
    if TextInk(x, y, g[..n], scale, c, r) {
      TextInkWithin(x, y, g[..n], scale, c, r);
    } else {
      PatternInkWithin(x + n * Advance(scale), y, g[n], scale, c, r);
    }
    assert (n + 1) * Advance(scale) == n * Advance(scale) + Advance(scale);
  }

  /** Drawing more of a row sets at least what the shorter row sets. */
  lemma {:induction false} RowInkPrefix(cx: int, cy: int, bits: string, k: nat, scale: int, c: int, r: int)
    requires k <= |bits| && RowInk(cx, cy, bits[..k], scale, c, r)
    ensures RowInk(cx, cy, bits, scale, c, r)
    decreases |bits|
  {
    if k < |bits| {
      var init := bits[..|bits| - 1];
      assert init[..k] == bits[..k];
      RowInkPrefix(cx, cy, init, k, scale, c, r);
    } else {
      assert bits[..k] == bits;
    }
  }

  /** Every pixel of the cell of a '1' in a row is set. */
  lemma RowInkCovers(cx: int, cy: int, bits: string, scale: int, k: nat, dx: int, dy: int)
    requires k < |bits| && bits[k] == '1' && 0 <= dx < scale && 0 <= dy < scale
    ensures RowInk(cx, cy, bits, scale, cx + k * scale + dx, cy + dy)
  {
    var p := bits[..k + 1];
    assert p[..k] == bits[..k];
    assert RowInk(cx, cy, p, scale, cx + k * scale + dx, cy + dy);
    RowInkPrefix(cx, cy, bits, k + 1, scale, cx + k * scale + dx, cy + dy);
  }

  /** Drawing more rows of a pattern sets at least what fewer rows set. */
  lemma {:induction false} PatternInkPrefix(cx: int, y: int, pattern: seq<string>, k: nat, scale: int, c: int, r: int)
    requires k <= |pattern| && PatternInk(cx, y, pattern[..k], scale, c, r)
    ensures PatternInk(cx, y, pattern, scale, c, r)
    decreases |pattern|
  {
    if k < |pattern| {
      var init := pattern[..|pattern| - 1];
      assert init[..k] == pattern[..k];
      PatternInkPrefix(cx, y, init, k, scale, c, r);
    } else {
      assert pattern[..k] == pattern;
    }
  }

  /** Every pixel of the cell of a '1' in a pattern is set. */
  lemma PatternInkCovers(cx: int, y: int, pattern: seq<string>, scale: int, row: nat, col: nat, dx: int, dy: int)
    requires row < |pattern| && col < |pattern[row]| && pattern[row][col] == '1'
    requires 0 <= dx < scale && 0 <= dy < scale
    ensures PatternInk(cx, y, pattern, scale, cx + col * scale + dx, y + row * scale + dy)
  {
    var c, r := cx + col * scale + dx, y + row * scale + dy;
    RowInkCovers(cx, y + row * scale, pattern[row], scale, col, dx, dy);
    var p := pattern[..row + 1];
    assert p[..row] == pattern[..row];
    assert PatternInk(cx, y, p, scale, c, r);
    PatternInkPrefix(cx, y, pattern, row + 1, scale, c, r);
  }

  /** Drawing more patterns sets at least what fewer patterns set. */
  lemma {:induction false} TextInkPrefix(x: int, y: int, g: seq<seq<string>>, k: nat, scale: int, c: int, r: int)
    requires k <= |g| && TextInk(x, y, g[..k], scale, c, r)
    ensures TextInk(x, y, g, scale, c, r)
    decreases |g|
  {
    if k < |g| {
      var init := g[..|g| - 1];
      assert init[..k] == g[..k];
      TextInkPrefix(x, y, init, k, scale, c, r);
    } else {
      assert g[..k] == g;
    }
  }

  /** Every pixel of the cell of a '1' in pattern i is set: that pattern is drawn from
      x + i * Advance(scale). */
  lemma TextInkCovers(x: int, y: int, g: seq<seq<string>>, scale: int, i: nat, row: nat, col: nat, dx: int, dy: int)
    requires i < |g| && Shaped(g[i]) && row < 7 && col < 5 && g[i][row][col] == '1'
    requires 0 <= dx < scale && 0 <= dy < scale
    ensures TextInk(x, y, g, scale, x + i * Advance(scale) + col * scale + dx, y + row * scale + dy)
  {
    var cx := x + i * Advance(scale);
    var c, r := cx + col * scale + dx, y + row * scale + dy;
    PatternInkCovers(cx, y, g[i], scale, row, col, dx, dy);
    TextInkStep(x, y, g, i, scale);
    TextInkPrefix(x, y, g, i + 1, scale, c, r);
  }

  // ---------------------------------------------------------------- the SVG elements

  /** The element draw_rect appends. */
  function RectElement(x: int, y: int, w: int, h: int, color: Color): string
  {
    "<rect x=\"" + IntToString(x) + "\" y=\"" + IntToString(y) + "\" width=\"" + IntToString(w) +
    "\" height=\"" + IntToString(h) + "\" fill=\"" + RgbHex(color) + "\" />"
  }

  /** The element draw_text appends: the text itself, escaped, with its baseline one font
      size (7 * scale) below y. */
  function TextElement(x: int, y: int, text: string, color: Color, scale: int): string
  {
    "<text x=\"" + IntToString(x) + "\" y=\"" + IntToString(y + 7 * scale) +
    "\" font-family=\"Arial, sans-serif\" font-size=\"" + IntToString(7 * scale) +
    "\" fill=\"" + RgbHex(color) + "\">" + EscapeSvg(text) + "</text>"
  }

  // ---------------------------------------------------------------- Canvas

  /** The length of range(n). */
  function Clamp(n: int): nat
  {
    if n < 0 then 0 else n
  }

  /** The raster image and the SVG elements drawn so far. */
  class Canvas {
    const width: int
    const height: int
    const background: Color
    var pixels: seq<seq<Color>>
    var svgElements: seq<string>

    /** height rows of width pixels each. */
    ghost predicate Valid()
      reads this
    {
      |pixels| == Clamp(height) && forall r :: 0 <= r < |pixels| ==> |pixels[r]| == Clamp(width)
    }

    /** __post_init__: every pixel is the background and there is no SVG element. */
    constructor(width: int, height: int, background: Color)
      ensures this.width == width && this.height == height && this.background == background
      ensures Valid()
      ensures forall r, c :: 0 <= r < |pixels| && 0 <= c < |pixels[r]| ==> pixels[r][c] == background
      ensures svgElements == []
    {
      this.width := width;
      this.height := height;
      this.background := background;
      pixels := seq(Clamp(height), _ => seq(Clamp(width), _ => background));
      svgElements := [];
    }

    /** set_pixel: pixel (x, y) becomes color when it is on the canvas; nothing else changes. */
    method SetPixel(x: int, y: int, color: Color)
      requires Valid()
      modifies this
      ensures Valid() && svgElements == old(svgElements)
      ensures forall r, c :: 0 <= r < |pixels| && 0 <= c < |pixels[r]| ==> pixels[r][c] == if r == y && c == x then color else old(pixels)[r][c]
    {
      if 0 <= x < width && 0 <= y < height {
        pixels := pixels[y := pixels[y][x := color]];
      }
    }

    /** The inner loop of draw_rect: row yy from column max(0, x) up to min(width, x + w). */
    method FillRow(x: int, w: int, yy: int, color: Color)
      requires Valid()
      modifies this
      ensures Valid() && svgElements == old(svgElements)
      ensures forall r, c :: 0 <= r < |pixels| && 0 <= c < |pixels[r]| ==> pixels[r][c] == if r == yy && x <= c < x + w then color else old(pixels)[r][c]
    {
      var x0 := if x < 0 then 0 else x;
      var x1 := if width < x + w then width else x + w;
      var xx := x0;
      while xx < x1
        invariant Valid() && svgElements == old(svgElements)
        invariant x0 <= xx && (xx <= x1 || xx == x0)
        invariant forall r, c :: 0 <= r < |pixels| && 0 <= c < |pixels[r]| ==> pixels[r][c] == if r == yy && x0 <= c < xx then color else old(pixels)[r][c]
        decreases x1 - xx
      {
        SetPixel(xx, yy, color);
        xx := xx + 1;
      }
    }

    /** draw_rect: the pixels of the box on the canvas become color, and the rect element
        is appended. */
    method DrawRect(x: int, y: int, w: int, h: int, color: Color)
      requires Valid()
      modifies this
      ensures Valid() && svgElements == old(svgElements) + [RectElement(x, y, w, h, color)]
      ensures forall r, c :: 0 <= r < |pixels| && 0 <= c < |pixels[r]| ==> pixels[r][c] == if InBox(c, r, x, y, w, h) then color else old(pixels)[r][c]
    {
      var y0 := if y < 0 then 0 else y;
      var y1 := if height < y + h then height else y + h;
      var yy := y0;
      while yy < y1
        invariant Valid() && svgElements == old(svgElements)
        invariant y0 <= yy && (yy <= y1 || yy == y0)
        invariant forall r, c :: 0 <= r < |pixels| && 0 <= c < |pixels[r]| ==> pixels[r][c] == if y0 <= r < yy && x <= c < x + w then color else old(pixels)[r][c]
        decreases y1 - yy
      {
        FillRow(x, w, yy, color);
        yy := yy + 1;
      }
      svgElements := svgElements + [RectElement(x, y, w, h, color)];
    }

    /** The dx loop of draw_text: pixels (px + dx, py) for dx in range(scale). */
    method StampRow(px: int, py: int, scale: int, color: Color)
      requires Valid()
      modifies this
      ensures Valid() && svgElements == old(svgElements)
      ensures forall r, c :: 0 <= r < |pixels| && 0 <= c < |pixels[r]| ==> pixels[r][c] == if r == py && px <= c < px + scale then color else old(pixels)[r][c]
    {
      var dx := 0;
      while dx < scale
        invariant Valid() && svgElements == old(svgElements)
        invariant 0 <= dx && (dx <= scale || dx == 0)
        invariant forall r, c :: 0 <= r < |pixels| && 0 <= c < |pixels[r]| ==> pixels[r][c] == if r == py && px <= c < px + dx then color else old(pixels)[r][c]
        decreases scale - dx
      {
        SetPixel(px + dx, py, color);
        dx := dx + 1;
      }
    }

    /** The dy and dx loops of draw_text: the scale by scale cell at (px, py). */
    method StampCell(px: int, py: int, scale: int, color: Color)
      requires Valid()
      modifies this
      ensures Valid() && svgElements == old(svgElements)
      ensures forall r, c :: 0 <= r < |pixels| && 0 <= c < |pixels[r]| ==> pixels[r][c] == if InBox(c, r, px, py, scale, scale) then color else old(pixels)[r][c]
    {
      var dy := 0;
      while dy < scale
        invariant Valid() && svgElements == old(svgElements)
        invariant 0 <= dy && (dy <= scale || dy == 0)
        invariant forall r, c :: 0 <= r < |pixels| && 0 <= c < |pixels[r]| ==> pixels[r][c] == if InBox(c, r, px, py, scale, dy) then color else old(pixels)[r][c]
        decreases scale - dy
      {
        StampRow(px, py + dy, scale, color);
        dy := dy + 1;
      }
    }

    /** The column loop of draw_text: a cell for every '1' of one pattern row. */
    method DrawGlyphRow(cx: int, cy: int, bits: string, scale: int, color: Color)
      requires Valid()
      modifies this
      ensures Valid() && svgElements == old(svgElements)
      ensures forall r, c :: 0 <= r < |pixels| && 0 <= c < |pixels[r]| ==> pixels[r][c] == if RowInk(cx, cy, bits, scale, c, r) then color else old(pixels)[r][c]
    {
      var k := 0;
      while k < |bits|
        invariant 0 <= k <= |bits|
        invariant Valid() && svgElements == old(svgElements)
        invariant forall r, c :: 0 <= r < |pixels| && 0 <= c < |pixels[r]| ==> pixels[r][c] == if RowInk(cx, cy, bits[..k], scale, c, r) then color else old(pixels)[r][c]
      {
        assert bits[..k + 1][..k] == bits[..k];
        if bits[k] == '1' {
          StampCell(cx + k * scale, cy, scale, color);
        }
        k := k + 1;
      }
      assert bits[..k] == bits;
    }

    /** The row loop of draw_text: one pattern, row k from cy + k * scale. */
    method DrawGlyph(cx: int, y: int, pattern: seq<string>, scale: int, color: Color)
      requires Valid()
      modifies this
      ensures Valid() && svgElements == old(svgElements)
      ensures forall r, c :: 0 <= r < |pixels| && 0 <= c < |pixels[r]| ==> pixels[r][c] == if PatternInk(cx, y, pattern, scale, c, r) then color else old(pixels)[r][c]
    {
      var k := 0;
      while k < |pattern|
        invariant 0 <= k <= |pattern|
        invariant Valid() && svgElements == old(svgElements)
        invariant forall r, c :: 0 <= r < |pixels| && 0 <= c < |pixels[r]| ==> pixels[r][c] == if PatternInk(cx, y, pattern[..k], scale, c, r) then color else old(pixels)[r][c]
      {
        assert pattern[..k + 1][..k] == pattern[..k];
        DrawGlyphRow(cx, y + k * scale, pattern[k], scale, color);
        k := k + 1;
      }
      assert pattern[..k] == pattern;
    }

    /** One pass of draw_text's character loop: pattern i of g, drawn from
        x + i * Advance(scale), over pixels that show g[..i] drawn over base. */
    method DrawNext(x: int, y: int, ghost g: seq<seq<string>>, i: nat, pattern: seq<string>, cursorX: int, scale: int, color: Color, ghost base: seq<seq<Color>>)
      requires Valid() && i < |g| && pattern == g[i] && cursorX == x + i * Advance(scale)
      requires |base| == |pixels| && forall r :: 0 <= r < |base| ==> |base[r]| == |pixels[r]|
      requires forall r, c :: 0 <= r < |pixels| && 0 <= c < |pixels[r]| ==> pixels[r][c] == if TextInk(x, y, g[..i], scale, c, r) then color else base[r][c]
      modifies this
      ensures Valid() && svgElements == old(svgElements)
      ensures forall r, c :: 0 <= r < |pixels| && 0 <= c < |pixels[r]| ==> pixels[r][c] == if TextInk(x, y, g[..i + 1], scale, c, r) then color else base[r][c]
    {
      DrawGlyph(cursorX, y, pattern, scale, color);
      TextInkStep(x, y, g, i, scale);
    }

    /** draw_text: the upper-cased text drawn pattern by pattern, the cursor moving five
        columns and one of spacing per character; then the text element is appended. */
    method DrawText(x: int, y: int, text: string, color: Color, scale: int)
      requires Valid()
      modifies this
      ensures Valid() && svgElements == old(svgElements) + [TextElement(x, y, text, color, scale)]
      ensures forall r, c :: 0 <= r < |pixels| && 0 <= c < |pixels[r]| ==> pixels[r][c] == if TextInk(x, y, Glyphs(ToUpper(text)), scale, c, r) then color else old(pixels)[r][c]
    {
      var upper := ToUpper(text);
      ghost var g := Glyphs(upper);
      var cursorX := x;
      var i := 0;
      while i < |upper|
        invariant 0 <= i <= |upper|
        invariant Valid() && svgElements == old(svgElements)
        invariant cursorX == x + i * Advance(scale)
        invariant forall r, c :: 0 <= r < |pixels| && 0 <= c < |pixels[r]| ==> pixels[r][c] == if TextInk(x, y, g[..i], scale, c, r) then color else old(pixels)[r][c]
      {
        var pattern := Glyph(upper[i]);
        DrawNext(x, y, g, i, pattern, cursorX, scale, color, old(pixels));
        GlyphShape(upper[i]);
        cursorX := cursorX + |pattern[0]| * scale + scale;
        assert (i + 1) * Advance(scale) == i * Advance(scale) + Advance(scale);
        i := i + 1;
      }
      assert g[..i] == g;
      svgElements := svgElements + [TextElement(x, y, text, color, scale)];
    }
  }
}
