/** The string helpers of namespace utils: colon-separated hexadecimal fingerprints,
    host:port parsing, getline-style splitting, whitespace trimming and ASCII case
    mapping; and std::stoi, on which the port parsers rely. */
module Utils {
  import opened Wrappers
  import opened Bytes
  import opened Text

  // ---------------------------------------------------------------- std::stoi

  const Int32Min: int := -0x8000_0000
  const Int32Max: int := 0x7FFF_FFFF

  /** The text after its leading run of std::isspace characters. */
  function DropCSpace(s: string): (r: string)
    ensures |r| <= |s| && r == s[|s| - |r|..]
    ensures r == [] || !IsCSpace(r[0])
    decreases |s|
  {
    if s != [] && IsCSpace(s[0]) then DropCSpace(s[1..]) else s
  }

  /** The longest run of decimal digits at the front of s. */
  function DigitPrefix(s: string): (r: string)
    ensures |r| <= |s| && r == s[..|r|] && AllDigits(r)
    ensures |r| == |s| || !IsDigit(s[|r|])
    decreases |s|
  {
    if s != [] && IsDigit(s[0]) then [s[0]] + DigitPrefix(s[1..]) else []
  }

  /** std::stoi in base 10: leading white space, an optional sign, then as many digits as
      there are; trailing text is ignored. No digit (std::invalid_argument) or a value
      outside int (std::out_of_range) gives None. */
  function Stoi(s: string): (r: Option<int>)
    ensures r.Some? ==> Int32Min <= r.value <= Int32Max
  {
    var t := DropCSpace(s);
    var signed := t != [] && (t[0] == '-' || t[0] == '+');
    var digits := DigitPrefix(if signed then t[1..] else t);
    if digits == [] then None
    else
      var v: int := if signed && t[0] == '-' then 0 - DigitsValue(digits) else DigitsValue(digits);
      if Int32Min <= v <= Int32Max then Some(v) else None
  }

  lemma {:induction false} DigitPrefixOfDigits(s: string)
    requires AllDigits(s)
    ensures DigitPrefix(s) == s
  {
  }

  lemma {:induction false} DropCSpaceOfDigits(s: string)
    requires s != [] && AllDigits(s)
    ensures DropCSpace(s) == s
    ensures DropCSpace("-" + s) == "-" + s
  {
    assert !IsCSpace(s[0]);
  }

  /** A digit string with no white space or sign in front is read as its value. */
  lemma {:induction false} StoiOfDigits(s: string)
    requires s != [] && AllDigits(s) && DigitsValue(s) <= Int32Max
    ensures Stoi(s) == Some(DigitsValue(s))
  {
    DropCSpaceOfDigits(s);
    DigitPrefixOfDigits(s);
    assert !(s[0] == '-' || s[0] == '+');
  }

  /** ... and with a '-' in front as its negation. */
  lemma {:induction false} StoiOfNegatedDigits(s: string)
    requires s != [] && AllDigits(s) && DigitsValue(s) <= -Int32Min
    ensures Stoi("-" + s) == Some(0 - DigitsValue(s))
  {
    DropCSpaceOfDigits(s);
    DigitPrefixOfDigits(s);
    assert ("-" + s)[1..] == s;
  }

  /** std::stoi reads back every int that std::to_string writes. */
  lemma {:induction false} StoiIntToString(n: int)
    requires Int32Min <= n <= Int32Max
    ensures Stoi(IntToString(n)) == Some(n)
  {
    if n < 0 {
      var d := Decimal(-n);
      DecimalRoundTrip(-n);
      assert DigitsValue(d) == -n;
      StoiOfNegatedDigits(d);
      assert IntToString(n) == "-" + d;
    } else {
      var d := Decimal(n);
      DecimalRoundTrip(n);
      assert DigitsValue(d) == n;
      StoiOfDigits(d);
      assert IntToString(n) == d;
    }
  }

  /** Text with no digit after the sign is rejected. */
  lemma {:induction false} StoiNeedsADigit(s: string)
    requires forall i :: 0 <= i < |s| ==> !IsDigit(s[i])
    ensures Stoi(s) == None
  {
    var t := DropCSpace(s);
    if t != [] {
      assert t[0] == s[|s| - |t|];
      if t[0] == '-' || t[0] == '+' {
        var u := t[1..];
        assert u == [] || u[0] == s[|s| - |t| + 1];
      }
    }
  }

  // ---------------------------------------------------------------- format_fingerprint

  /** One byte as two upper-case hexadecimal digits. */
  function HexPair(b: Byte): (r: string)
    ensures |r| == 2 && IsUpperHex(r[0]) && IsUpperHex(r[1])
  {
    HexUpperIsUpperHex(b / 16);
    HexUpperIsUpperHex(b % 16);
    [HexUpper(b / 16), HexUpper(b % 16)]
  }

  /** The value of an upper-case hexadecimal digit. */
  function UpperHexValue(c: char): (v: nat)
    requires IsUpperHex(c)
    ensures v < 16
  {
    if c <= '9' then c as int - 48 else c as int - 55
  }

  /** The fingerprint as upper-case hexadecimal byte pairs separated by ':'. */
  function ColonHex(fp: seq<Byte>): (s: string)
    ensures |s| == if fp == [] then 0 else 3 * |fp| - 1
    decreases |fp|
  {
    if fp == [] then ""
    else if |fp| == 1 then HexPair(fp[0])
    else ColonHex(fp[..|fp| - 1]) + ":" + HexPair(fp[|fp| - 1])
  }

  /** Byte i sits at positions 3i and 3i + 1, and every third character is the separator. */
  lemma {:induction false} ColonHexLayout(fp: seq<Byte>)
    ensures var s := ColonHex(fp);
      (forall i :: 0 <= i < |fp| ==> s[3 * i..3 * i + 2] == HexPair(fp[i])) &&
      (forall k :: 0 <= k < |s| && k % 3 == 2 ==> s[k] == ':')
    decreases |fp|
  {
    if |fp| > 1 {
      var front := fp[..|fp| - 1];
      ColonHexLayout(front);
      var f := ColonHex(front);
      var s := f + ":" + HexPair(fp[|fp| - 1]);
      assert ColonHex(fp) == s;
      forall i | 0 <= i < |fp|
        ensures s[3 * i..3 * i + 2] == HexPair(fp[i])
      {
        if i < |fp| - 1 {
          assert s[3 * i..3 * i + 2] == f[3 * i..3 * i + 2];
          assert fp[i] == front[i];
        }
      }
    }
  }

  lemma {:induction false} HexPairValue(b: Byte)
    ensures UpperHexValue(HexPair(b)[0]) * 16 + UpperHexValue(HexPair(b)[1]) == b
  {
    assert UpperHexValue(HexUpper(b / 16)) == b / 16;
    assert UpperHexValue(HexUpper(b % 16)) == b % 16;
  }

  /** Reading the hexadecimal pairs back gives the fingerprint's bytes. */
  lemma {:induction false} ColonHexDecodes(fp: seq<Byte>, i: nat)
    requires i < |fp|
    ensures var s := ColonHex(fp);
      IsUpperHex(s[3 * i]) && IsUpperHex(s[3 * i + 1]) &&
      UpperHexValue(s[3 * i]) * 16 + UpperHexValue(s[3 * i + 1]) == fp[i]
  {
    var s := ColonHex(fp);
    var j := 3 * i;
    var p := HexPair(fp[i]);
    ColonHexLayout(fp);
    assert s[j..j + 2] == p;
    assert s[j] == p[0] && s[j + 1] == p[1];
    HexPairValue(fp[i]);
  }

  lemma {:induction false} ColonHexPrefix(fp: seq<Byte>, i: nat)
    requires 1 <= i < |fp|
    ensures ColonHex(fp[..i + 1]) == ColonHex(fp[..i]) + ":" + HexPair(fp[i])
  {
    assert fp[..i + 1][..i] == fp[..i];
  }

  lemma {:induction false} ColonHexExample(fp: seq<Byte>)
    requires fp == [0xAA, 0xBB, 0xCC, 0xDD, 0xEE, 0xFF]
    ensures ColonHex(fp) == "AA" + ":" + "BB" + ":" + "CC" + ":" + "DD" + ":" + "EE" + ":" + "FF"
  {
    assert fp[..1] == [0xAA];
    ColonHexPrefix(fp, 1);
    ColonHexPrefix(fp, 2);
    ColonHexPrefix(fp, 3);
    ColonHexPrefix(fp, 4);
    ColonHexPrefix(fp, 5);
    assert fp[..6] == fp;
    var aa, bb, cc, dd, ee, ff := HexPair(0xAA), HexPair(0xBB), HexPair(0xCC), HexPair(0xDD), HexPair(0xEE), HexPair(0xFF);
    assert aa == "AA" && bb == "BB" && cc == "CC" && dd == "DD" && ee == "EE" && ff == "FF";
  }

  /** format_fingerprint: the stream loop appending ':' before every pair but the first. */
  method FormatFingerprint(fp: seq<Byte>) returns (s: string)
    ensures s == ColonHex(fp)
  {
    s := "";
    var i := 0;
    while i < |fp|
      invariant 0 <= i <= |fp|
      invariant s == ColonHex(fp[..i])
    {
      if i > 0 {
        s := s + ":";
      }
      s := s + HexPair(fp[i]);
      assert fp[..i + 1][..i] == fp[..i];
      i := i + 1;
    }
    assert fp[..i] == fp;
  }

  // ---------------------------------------------------------------- parse_host_port

  /** std::string::find_last_of for one character. */
  function LastIndexOf(s: string, c: char): (r: Option<nat>)
    ensures r.None? <==> c !in s
    ensures r.Some? ==> r.value < |s| && s[r.value] == c && c !in s[r.value + 1..]
    decreases |s|
  {
    if s == [] then None
    else if s[|s| - 1] == c then Some(|s| - 1)
    else
      var r := LastIndexOf(s[..|s| - 1], c);
      assert s == s[..|s| - 1] + [s[|s| - 1]];
      assert r.Some? ==> s[r.value + 1..] == s[..|s| - 1][r.value + 1..] + [s[|s| - 1]];
      r
  }

  /** In a concatenation the last occurrence is in the second part when it has one, and
      otherwise where it is in the first. */
  lemma {:induction false} LastIndexOfAppend(a: string, b: string, c: char)
    ensures LastIndexOf(a + b, c) == if c in b then Some(|a| + LastIndexOf(b, c).value) else LastIndexOf(a, c)
    decreases |b|
  {
    if b == [] {
      assert a + b == a;
    } else {
      var b' := b[..|b| - 1];
      assert (a + b)[..|a + b| - 1] == a + b';
      assert b == b' + [b[|b| - 1]];
      LastIndexOfAppend(a, b', c);
    }
  }

  /** parse_host_port: without ':' the whole input is the host and the port -1; otherwise
      the host is everything before the last ':' and the port is std::stoi of the rest,
      whose failure makes the call fail. No range check on the port. */
  function ParseHostPort(input: string): (r: Option<(string, int)>)
    ensures ':' !in input ==> r == Some((input, -1))
    ensures ':' in input && r.Some? ==>
      var k := |r.value.0|;
      k < |input| && input[..k] == r.value.0 && input[k] == ':' && ':' !in input[k + 1..] &&
      Stoi(input[k + 1..]) == Some(r.value.1)
    ensures r.None? ==>
      (exists k :: 0 <= k < |input| && input[k] == ':' && ':' !in input[k + 1..] && Stoi(input[k + 1..]).None?)
  {
    match LastIndexOf(input, ':')
    case None => Some((input, -1))
    case Some(k) =>
      var host, port := input[..k], Stoi(input[k + 1..]);
      assert |host| == k;
      if port.Some? then Some((host, port.value)) else None
  }

  /** A host followed by ':' and a rendered port comes back apart. */
  lemma {:induction false} ParseHostPortRoundTrip(host: string, port: int)
    requires Int32Min <= port <= Int32Max
    ensures ParseHostPort(host + ":" + IntToString(port)) == Some((host, port))
  {
    var s := host + ":" + IntToString(port);
    var t := IntToString(port);
    assert ':' !in t by {
      assert forall i :: 0 <= i < |t| ==> t[i] == '-' || IsDigit(t[i]);
    }
    assert s[|host|] == ':';
    assert s[|host| + 1..] == t;
    assert s[..|host|] == host;
    var k := LastIndexOf(s, ':').value;
    assert k == |host|;
    StoiIntToString(port);
  }

  lemma {:induction false} IntToString443()
    ensures IntToString(443) == "443"
  {
    assert Decimal(4) == "4";
    assert Decimal(44) == "44";
  }
  lemma {:induction false} ParseHostPortWithPort()
    ensures ParseHostPort("example.com:443") == Some(("example.com", 443))
  {
    var h, p := "example.com", "443";
    var s := h + ":" + p;
    assert s == "example.com:443";
    IntToString443();
    ParseHostPortRoundTrip(h, 443);
    assert ParseHostPort(s) == Some((h, 443));
  }
  lemma {:induction false} ParseHostPortWithoutPort()
    ensures ParseHostPort("example.com") == Some(("example.com", -1))
  {
    var h := "example.com";
    assert forall i :: 0 <= i < |h| ==> h[i] != ':';
    assert ParseHostPort(h) == Some((h, -1));
  }

  // ---------------------------------------------------------------- split

  /** The tokens std::getline yields: every field, except that a final empty field is not
      produced (so "" gives none and one trailing delimiter adds nothing). */
  function GetlineSplit(s: string, d: char): (r: seq<string>)
    ensures forall k :: 0 <= k < |r| ==> d !in r[k]
  {
    var f := SplitAll(s, d);
    SplitAllPartsHaveNoDelimiter(s, d);
    if f[|f| - 1] == "" then f[..|f| - 1] else f
  }

  /** utils::split: the getline loop, pushing each token as the delimiter ends it. */
  method Split(str: string, delimiter: char) returns (tokens: seq<string>)
    ensures tokens == GetlineSplit(str, delimiter)
  {
    tokens := [];
    var token := "";
    var i := 0;
    while i < |str|
      invariant 0 <= i <= |str|
      invariant tokens + [token] == SplitAll(str[..i], delimiter)
    {
      assert str[..i + 1] == str[..i] + [str[i]];
      SplitStep(str[..i], str[i], delimiter, tokens, token);
      if str[i] == delimiter {
        tokens := tokens + [token];
        token := "";
      } else {
        token := token + [str[i]];
      }
      i := i + 1;
    }
    assert str[..i] == str;
    assert (tokens + [token])[..|tokens|] == tokens;
    if token != "" {
      tokens := tokens + [token];
    }
  }

  /** One more character for the getline loop: a delimiter ends the token, anything else extends it. */
  lemma {:induction false} SplitStep(p: string, c: char, d: char, tokens: seq<string>, token: string)
    requires tokens + [token] == SplitAll(p, d)
    ensures SplitAll(p + [c], d) == if c == d then tokens + [token] + [""] else tokens + [token + [c]]
  {
    SplitAllSnoc(p, c, d);
    assert (tokens + [token])[..|tokens|] == tokens;
  }

  /** The tokens joined with the delimiter give back the input, save the one trailing
      delimiter whose empty field getline does not produce. */
  lemma {:induction false} SplitRejoins(s: string, d: char)
    ensures JoinWith(GetlineSplit(s, d), d) + (if s != [] && s[|s| - 1] == d then [d] else []) == s
  {
    var f := SplitAll(s, d);
    var n := |f|;
    JoinSplit(s, d);
    if f[n - 1] == "" {
      if n == 1 {
        assert JoinWith(f, d) == "";
      } else {
        assert JoinWith(f, d) == JoinWith(f[..n - 1], d) + [d] + "";
      }
    }
    if s != [] {
      var p, c := s[..|s| - 1], s[|s| - 1];
      assert s == p + [c];
      SplitAllSnoc(p, c, d);
      if c != d {
        assert f[n - 1] != "";
      }
    }
  }

  lemma {:induction false} SplitExample()
    ensures GetlineSplit("a,b,c", ',') == ["a", "b", "c"]
  {
    SplitJoin(["a", "b", "c"], ',');
    assert JoinWith(["a", "b", "c"], ',') == "a,b,c" by {
      assert ["a", "b", "c"][..2] == ["a", "b"];
      assert ["a", "b"][..1] == ["a"];
    }
  }

  // ---------------------------------------------------------------- trim

  predicate AllTrimSpace(s: string) { forall i :: 0 <= i < |s| ==> IsTrimSpace(s[i]) }

  function DropLeadingSpace(s: string): (r: string)
    ensures |r| <= |s| && r == s[|s| - |r|..] && AllTrimSpace(s[..|s| - |r|])
    ensures r == [] || !IsTrimSpace(r[0])
    decreases |s|
  {
    if s != [] && IsTrimSpace(s[0]) then DropLeadingSpace(s[1..]) else s
  }

  function DropTrailingSpace(s: string): (r: string)
    ensures |r| <= |s| && r == s[..|r|] && AllTrimSpace(s[|r|..])
    ensures r == [] || !IsTrimSpace(r[|r| - 1])
    decreases |s|
  {
    if s != [] && IsTrimSpace(s[|s| - 1]) then DropTrailingSpace(s[..|s| - 1]) else s
  }

  /** r is the part of s starting at i once the white space around it is taken away. */
  predicate TrimmedAt(s: string, r: string, i: nat)
  {
    i + |r| <= |s| && r == s[i..i + |r|] && AllTrimSpace(s[..i]) && AllTrimSpace(s[i + |r|..]) &&
    (r == [] || (!IsTrimSpace(r[0]) && !IsTrimSpace(r[|r| - 1])))
  }

  /** utils::trim: the text between the first and the last character outside " \t\n\r". */
  function Trim(s: string): (r: string)
    ensures exists i :: TrimmedAt(s, r, i)
  {
    var a := DropLeadingSpace(s);
    var r := DropTrailingSpace(a);
    var i := |s| - |a|;
    assert s[i..i + |r|] == a[..|r|] == r;
    assert s[i + |r|..] == a[|r|..];
    assert r != [] ==> r[0] == a[0];
    assert TrimmedAt(s, r, i);
    r
  }

  lemma {:induction false} DropLeadingSpaceExact(s: string, i: nat)
    requires i <= |s| && AllTrimSpace(s[..i]) && (i == |s| || !IsTrimSpace(s[i]))
    ensures DropLeadingSpace(s) == s[i..]
    decreases i
  {
    if i > 0 {
      assert IsTrimSpace(s[..i][0]);
      assert s[1..][..i - 1] == s[1..i];
      assert s[1..][i - 1..] == s[i..];
      DropLeadingSpaceExact(s[1..], i - 1);
    }
  }

  lemma {:induction false} DropTrailingSpaceExact(s: string, j: nat)
    requires j <= |s| && AllTrimSpace(s[j..]) && (j == 0 || !IsTrimSpace(s[j - 1]))
    ensures DropTrailingSpace(s) == s[..j]
    decreases |s| - j
  {
    if j < |s| {
      assert IsTrimSpace(s[j..][|s| - 1 - j]);
      assert s[..|s| - 1][j..] == s[j..|s| - 1];
      DropTrailingSpaceExact(s[..|s| - 1], j);
    }
  }

  /** The characterisation above determines the result. */
  lemma {:induction false} TrimUnique(s: string, i: nat, t: string)
    requires TrimmedAt(s, t, i)
    ensures Trim(s) == t
  {
    if t == [] {
      TrimOnlySpace(s, i);
    } else {
      TrimSomeText(s, i, t);
    }
  }

  lemma {:induction false} TrimOnlySpace(s: string, i: nat)
    requires TrimmedAt(s, [], i)
    ensures DropLeadingSpace(s) == []
  {
    assert AllTrimSpace(s) by {
      forall k | 0 <= k < |s| ensures IsTrimSpace(s[k]) {
        if k < i { assert s[..i][k] == s[k]; } else { assert s[i..][k - i] == s[k]; }
      }
    }
    DropLeadingSpaceExact(s, |s|);
  }

  lemma {:induction false} TrimSomeText(s: string, i: nat, t: string)
    requires TrimmedAt(s, t, i) && t != []
    ensures DropTrailingSpace(DropLeadingSpace(s)) == t
  {
    assert s[i] == t[0];
    DropLeadingSpaceExact(s, i);
    var a := s[i..];
    assert a[|t|..] == s[i + |t|..];
    assert a[|t| - 1] == t[|t| - 1];
    DropTrailingSpaceExact(a, |t|);
    assert a[..|t|] == t;
  }


  lemma {:induction false} TrimIdempotent(s: string)
    ensures Trim(Trim(s)) == Trim(s)
  {
    var t := Trim(s);
    var i :| TrimmedAt(s, t, i);
    assert t[0..0 + |t|] == t;
    TrimUnique(t, 0, t);
  }

  lemma {:induction false} TrimAllSpace(s: string)
    requires AllTrimSpace(s)
    ensures Trim(s) == ""
  {
    assert s[..0] == [] && s[0..] == s;
    TrimUnique(s, 0, "");
  }

  lemma {:induction false} TrimExample()
    ensures Trim("  hello  ") == "hello"
  {
    var s, t := "  hello  ", "hello";
    assert s[2..7] == t;
    assert s[..2] == "  " && s[7..] == "  ";
    TrimUnique(s, 2, t);
  }

  lemma {:induction false} TrimTabsExample()
    ensures Trim("\t\nworld\n\t") == "world"
  {
    var s, t := "\t\nworld\n\t", "world";
    assert s[2..7] == t;
    assert s[..2] == "\t\n" && s[7..] == "\n\t";
    TrimUnique(s, 2, t);
  }

  // ---------------------------------------------------------------- case mapping

  /** utils::to_upper: std::toupper on every character (ASCII letters only). */
  function ToUpper(s: string): (r: string)
    ensures |r| == |s|
    ensures forall i :: 0 <= i < |s| ==> r[i] == UpperChar(s[i])
    decreases |s|
  {
    if s == [] then [] else [UpperChar(s[0])] + ToUpper(s[1..])
  }

  /** utils::to_lower: std::tolower on every character (ASCII letters only). */
  function ToLower(s: string): (r: string)
    ensures |r| == |s|
    ensures forall i :: 0 <= i < |s| ==> r[i] == LowerChar(s[i])
    decreases |s|
  {
    if s == [] then [] else [LowerChar(s[0])] + ToLower(s[1..])
  }

  lemma {:induction false} ToUpperIdempotent(s: string)
    ensures ToUpper(ToUpper(s)) == ToUpper(s)
  {
  }

  lemma {:induction false} ToLowerIdempotent(s: string)
    ensures ToLower(ToLower(s)) == ToLower(s)
  {
  }

  /** Case-insensitive comparison through either mapping agrees. */
  lemma {:induction false} ToLowerOfToUpper(s: string)
    ensures ToLower(ToUpper(s)) == ToLower(s)
  {
  }
}
