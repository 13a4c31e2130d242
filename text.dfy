/** Character-level building blocks shared by the model: decimal and hexadecimal
    rendering as the C++ streams and std::to_string produce it, and field splitting
    at a delimiter as Python's str.split and the "join with a separator" loops do. */
module Text {
  import opened Wrappers

  // ---------------------------------------------------------------- decimal

  predicate IsDigit(c: char) { '0' <= c <= '9' }

  function DigitChar(d: nat): (c: char)
    requires d < 10
    ensures IsDigit(c)
  {
    (48 + d) as char
  }

  function DigitValue(c: char): nat
    requires IsDigit(c)
  {
    c as int - 48
  }

  predicate AllDigits(s: string) { forall i :: 0 <= i < |s| ==> IsDigit(s[i]) }

  /** The decimal rendering of a natural number, most significant digit first, no leading zero. */
  function Decimal(n: nat): (s: string)
    ensures |s| >= 1 && AllDigits(s)
    ensures |s| > 1 ==> s[0] != '0'
    decreases n
  {
    if n < 10 then [DigitChar(n)] else Decimal(n / 10) + [DigitChar(n % 10)]
  }

  /** The value of a string of decimal digits (reads it back). */
  function DigitsValue(s: string): nat
    requires AllDigits(s)
    decreases |s|
  {
    if s == [] then 0 else DigitsValue(s[..|s| - 1]) * 10 + DigitValue(s[|s| - 1])
  }

  /** A non-empty sequence is its prefix followed by its last element. */
  lemma InitLast<T>(s: seq<T>)
    requires s != []
    ensures s == s[..|s| - 1] + [s[|s| - 1]]
  {
  }

  /** Indexing into a sequence with one element appended. */
  lemma Snoc<T>(pre: seq<T>, x: T)
    ensures (pre + [x])[..|pre|] == pre && (pre + [x])[|pre|] == x
    ensures forall j :: 0 <= j < |pre| ==> (pre + [x])[j] == pre[j]
  {
  }

  /** Concatenation is associative. */
  lemma AppendAssoc<T>(a: seq<T>, b: seq<T>, c: seq<T>)
    ensures a + b + c == a + (b + c)
  {
  }

  /** A prefix one longer is the prefix and the next element. */
  lemma TakeSnoc<T>(s: seq<T>, i: nat)
    requires i < |s|
    ensures s[..i + 1] == s[..i] + [s[i]]
  {
  }

  /** A non-empty sequence is its first element followed by the rest. */
  lemma HeadRest<T>(s: seq<T>)
    requires s != []
    ensures s == [s[0]] + s[1..]
  {
  }

  lemma {:induction false} DecimalRoundTrip(n: nat)
    ensures DigitsValue(Decimal(n)) == n
    decreases n
  {
    if n >= 10 {
      DecimalRoundTrip(n / 10);
      var s := Decimal(n);
      assert s[..|s| - 1] == Decimal(n / 10);
    }
  }

  /** Different numbers render differently, so a decimal field identifies its value. */
  lemma {:induction false} DecimalInjective(m: nat, n: nat)
    requires Decimal(m) == Decimal(n)
    ensures m == n
  {
    DecimalRoundTrip(m);
    DecimalRoundTrip(n);
  }

  /** std::to_string / operator<< for a signed integer. */
  function IntToString(i: int): (s: string)
    ensures |s| >= 1 && IsDigit(s[|s| - 1])
    ensures forall k :: 0 <= k < |s| ==> s[k] == '-' || IsDigit(s[k])
  {
    if i < 0 then "-" + Decimal(-i) else Decimal(i)
  }

  // ---------------------------------------------------------------- hexadecimal

  function HexLower(d: nat): (c: char)
    requires d < 16
  {
    if d < 10 then DigitChar(d) else (87 + d) as char
  }

  function HexUpper(d: nat): (c: char)
    requires d < 16
  {
    if d < 10 then DigitChar(d) else (55 + d) as char
  }

  predicate IsLowerHex(c: char) { '0' <= c <= '9' || 'a' <= c <= 'f' }

  predicate IsUpperHex(c: char) { '0' <= c <= '9' || 'A' <= c <= 'F' }

  lemma {:induction false} HexLowerIsLowerHex(d: nat)
    requires d < 16
    ensures IsLowerHex(HexLower(d))
  {
  }

  lemma {:induction false} HexUpperIsUpperHex(d: nat)
    requires d < 16
    ensures IsUpperHex(HexUpper(d))
  {
  }

  // ---------------------------------------------------------------- fields

  /** All the fields of s between occurrences of d, empty fields kept (Python's str.split(d)). */
  function SplitAll(s: string, d: char): (r: seq<string>)
    ensures |r| >= 1
    decreases |s|
  {
    if s == [] then [""] else AddChar(SplitAll(s[..|s| - 1], d), s[|s| - 1], d)
  }

  /** One more character read: d opens a new field, anything else extends the last one. */
  function AddChar(fields: seq<string>, c: char, d: char): (r: seq<string>)
    requires |fields| >= 1
    ensures |r| >= 1
  {
    if c == d then fields + [""] else fields[..|fields| - 1] + [fields[|fields| - 1] + [c]]
  }

  /** The parts joined with d between neighbours; no parts give "". */
  function JoinWith(parts: seq<string>, d: char): string
    decreases |parts|
  {
    if |parts| == 0 then ""
    else if |parts| == 1 then parts[0]
    else JoinWith(parts[..|parts| - 1], d) + [d] + parts[|parts| - 1]
  }

  lemma {:induction false} SplitAllPartsHaveNoDelimiter(s: string, d: char)
    ensures forall k :: 0 <= k < |SplitAll(s, d)| ==> d !in SplitAll(s, d)[k]
    decreases |s|
  {
    if s != [] {
      SplitAllPartsHaveNoDelimiter(s[..|s| - 1], d);
    }
  }

  lemma {:induction false} SplitAllWithoutDelimiter(s: string, d: char)
    requires d !in s
    ensures SplitAll(s, d) == [s]
    decreases |s|
  {
    if s != [] {
      SplitAllWithoutDelimiter(s[..|s| - 1], d);
      assert s[..|s| - 1] + [s[|s| - 1]] == s;
    }
  }

  lemma {:induction false} SplitAllSnoc(p: string, c: char, d: char)
    ensures SplitAll(p + [c], d) == AddChar(SplitAll(p, d), c, d)
  {
    assert (p + [c])[..|p|] == p;
  }

  /** Reading a character after A + B only touches the B part. */
  lemma {:induction false} AddCharConcat(A: seq<string>, B: seq<string>, c: char, d: char)
    requires |B| >= 1
    ensures AddChar(A + B, c, d) == A + AddChar(B, c, d)
  {
    if c != d {
      assert (A + B)[..|A + B| - 1] == A + B[..|B| - 1];
    }
  }

  /** A delimiter splits the fields of the text on its left from those on its right. */
  lemma {:induction false} SplitAllAppend(a: string, b: string, d: char)
    ensures SplitAll(a + [d] + b, d) == SplitAll(a, d) + SplitAll(b, d)
    decreases |b|
  {
    if b == [] {
      SplitAllSnoc(a, d, d);
      assert a + [d] + b == a + [d];
    } else {
      var b', c := b[..|b| - 1], b[|b| - 1];
      assert b == b' + [c];
      assert a + [d] + b == (a + [d] + b') + [c];
      calc {
        SplitAll(a + [d] + b, d);
        { SplitAllSnoc(a + [d] + b', c, d); }
        AddChar(SplitAll(a + [d] + b', d), c, d);
        { SplitAllAppend(a, b', d); }
        AddChar(SplitAll(a, d) + SplitAll(b', d), c, d);
        { AddCharConcat(SplitAll(a, d), SplitAll(b', d), c, d); }
        SplitAll(a, d) + AddChar(SplitAll(b', d), c, d);
        { SplitAllSnoc(b', c, d); }
        SplitAll(a, d) + SplitAll(b, d);
      }
    }
  }

  /** One more field after a delimiter. */
  lemma {:induction false} SplitAllSnocField(a: string, parts: seq<string>, b: string, d: char)
    requires SplitAll(a, d) == parts && d !in b
    ensures SplitAll(a + [d] + b, d) == parts + [b]
  {
    SplitAllAppend(a, b, d);
    SplitAllWithoutDelimiter(b, d);
  }

  /** One more part after a delimiter. */
  lemma {:induction false} JoinWithSnoc(parts: seq<string>, x: string, d: char)
    requires parts != []
    ensures JoinWith(parts + [x], d) == JoinWith(parts, d) + [d] + x
  {
    assert (parts + [x])[..|parts|] == parts;
  }

  /** Splitting undoes joining when no part contains the delimiter. */
  lemma {:induction false} SplitJoin(parts: seq<string>, d: char)
    requires |parts| >= 1
    requires forall k :: 0 <= k < |parts| ==> d !in parts[k]
    ensures SplitAll(JoinWith(parts, d), d) == parts
    decreases |parts|
  {
    if |parts| == 1 {
      SplitAllWithoutDelimiter(parts[0], d);
    } else {
      SplitJoin(parts[..|parts| - 1], d);
      SplitJoinStep(parts, d);
    }
  }

  /** The last part joined on after a delimiter is split off again. */
  lemma {:induction false} SplitJoinStep(parts: seq<string>, d: char)
    requires |parts| >= 2 && d !in parts[|parts| - 1]
    requires SplitAll(JoinWith(parts[..|parts| - 1], d), d) == parts[..|parts| - 1]
    ensures SplitAll(JoinWith(parts, d), d) == parts
  {
    SplitAllSnocField(JoinWith(parts[..|parts| - 1], d), parts[..|parts| - 1], parts[|parts| - 1], d);
    InitLast(parts);
  }

  /** Joining after reading a character is joining before it, followed by that character. */
  lemma {:induction false} JoinAddChar(fields: seq<string>, c: char, d: char)
    requires |fields| >= 1
    ensures JoinWith(AddChar(fields, c, d), d) == JoinWith(fields, d) + [c]
  {
    var n := |fields|;
    if c == d {
      assert (fields + [""])[..n] == fields;
    } else {
      var front, last := fields[..n - 1], fields[n - 1];
      assert fields == front + [last];
      assert (front + [last + [c]])[..n - 1] == front;
      if n > 1 {
        assert JoinWith(fields, d) == JoinWith(front, d) + [d] + last;
        assert JoinWith(front + [last + [c]], d) == JoinWith(front, d) + [d] + (last + [c]);
      }
    }
  }

  /** Joining the fields with the delimiter gives back the text. */
  lemma {:induction false} JoinSplit(s: string, d: char)
    ensures JoinWith(SplitAll(s, d), d) == s
    decreases |s|
  {
    if s != [] {
      var s', c := s[..|s| - 1], s[|s| - 1];
      JoinSplit(s', d);
      JoinAddChar(SplitAll(s', d), c, d);
      assert s' + [c] == s;
    }
  }

  // ---------------------------------------------------------------- whitespace

  /** The characters utils::trim removes: " \t\n\r". */
  predicate IsTrimSpace(c: char) { c == ' ' || c == '\t' || c == '\n' || c == '\r' }

  /** The characters std::isspace accepts in the "C" locale (stream extraction and strtol skip these). */
  predicate IsCSpace(c: char) { c == ' ' || c == '\t' || c == '\n' || c == 11 as char || c == 12 as char || c == '\r' }

  // ---------------------------------------------------------------- ASCII case

  function UpperChar(c: char): char { if 'a' <= c <= 'z' then (c as int - 32) as char else c }

  function LowerChar(c: char): char { if 'A' <= c <= 'Z' then (c as int + 32) as char else c }

  // ---------------------------------------------------------------- searching

  /** std::string::find for one character: the first index holding c. */
  function FirstIndexOf(s: string, c: char): (r: Option<nat>)
    ensures r.None? <==> c !in s
    ensures r.Some? ==> r.value < |s| && s[r.value] == c && c !in s[..r.value]
    decreases |s|
  {
    if s == [] then None
    else if s[0] == c then Some(0)
    else
      var r := FirstIndexOf(s[1..], c);
      assert s == [s[0]] + s[1..];
      assert r.Some? ==> s[..r.value + 1] == [s[0]] + s[1..][..r.value];
      if r.Some? then Some(r.value + 1) else None
  }

  /** The character c not in a, then c: the first c is the one after a. */
  lemma {:induction false} FirstIndexAfter(a: string, c: char, b: string)
    requires c !in a
    ensures FirstIndexOf(a + [c] + b, c) == Some(|a|)
  {
    var s := a + [c] + b;
    assert s[..|a|] == a;
    assert s[|a|] == c;
  }

  /** p occurs in s starting at index i. */
  predicate OccursAt(s: string, p: string, i: nat)
  {
    i + |p| <= |s| && s[i..i + |p|] == p
  }

  /** std::string::find(p) != npos. */
  predicate Contains(s: string, p: string)
  {
    exists i :: 0 <= i <= |s| && OccursAt(s, p, i)
  }

  /** Text lacking one of p's characters cannot contain p. */
  lemma {:induction false} MissingCharNotContained(s: string, p: string, c: char)
    requires c in p && c !in s
    ensures !Contains(s, p)
  {
    var k :| 0 <= k < |p| && p[k] == c;
    forall i | 0 <= i <= |s| ensures !OccursAt(s, p, i) {
      if i + |p| <= |s| {
        assert s[i..i + |p|][k] == s[i + k];
      }
    }
  }

  /** Whatever contains p contains every piece of p. */
  lemma {:induction false} ContainsPiece(s: string, p: string, j: nat, q: string)
    requires Contains(s, p) && OccursAt(p, q, j)
    ensures Contains(s, q)
  {
    var i: nat :| i <= |s| && OccursAt(s, p, i);
    assert p == s[i..i + |p|];
    assert forall t :: 0 <= t < |q| ==> q[t] == p[j + t] == s[i + j + t];
    assert s[i + j..i + j + |q|] == q;
    assert OccursAt(s, q, i + j);
  }

  /** w cannot straddle into a or b when their facing characters are not in w, so
      a + k + b contains w only if one of the three does. */
  lemma {:induction false} NotContainedAcross(a: string, k: string, b: string, w: string)
    requires w != []
    requires !Contains(a, w) && !Contains(k, w) && !Contains(b, w)
    requires a != [] ==> a[|a| - 1] !in w
    requires b != [] ==> b[0] !in w
    ensures !Contains(a + k + b, w)
  {
    var s := a + k + b;
    var n := |w|;
    assert s == a + (k + b);
    forall i | 0 <= i <= |s| ensures !OccursAt(s, w, i) {
      if i + n > |s| {
      } else if i + n <= |a| {
        OccursInPrefix(a, k + b, w, i);
        assert !OccursAt(a, w, i);
      } else if i < |a| {
        if OccursAt(s, w, i) {
          assert s[|a| - 1] == a[|a| - 1];
          OccursHasChar(s, w, i, |a| - 1);
        }
      } else if i + n <= |a| + |k| {
        OccursInSuffix(a, k + b, w, i);
        OccursInPrefix(k, b, w, i - |a|);
        assert !OccursAt(k, w, i - |a|);
      } else if i < |a| + |k| {
        if OccursAt(s, w, i) {
          assert s[|a| + |k|] == b[0];
          OccursHasChar(s, w, i, |a| + |k|);
        }
      } else {
        OccursInSuffix(a + k, b, w, i);
        assert !OccursAt(b, w, i - |a| - |k|);
      }
    }
  }

  /** An occurrence that ends inside t is one in t whatever follows. */
  lemma {:induction false} OccursInPrefix(t: string, rest: string, w: string, i: nat)
    requires i + |w| <= |t|
    ensures OccursAt(t + rest, w, i) == OccursAt(t, w, i)
  {
    assert (t + rest)[i..i + |w|] == t[i..i + |w|];
  }

  /** An occurrence that starts after pre is one in what follows pre. */
  lemma {:induction false} OccursInSuffix(pre: string, t: string, w: string, i: nat)
    requires |pre| <= i
    ensures OccursAt(pre + t, w, i) == OccursAt(t, w, i - |pre|)
  {
    if i + |w| <= |pre| + |t| {
      assert (pre + t)[i..i + |w|] == t[i - |pre|..i - |pre| + |w|];
    }
  }

  /** Every character an occurrence covers is a character of w. */
  lemma {:induction false} OccursHasChar(s: string, w: string, i: nat, j: nat)
    requires OccursAt(s, w, i) && i <= j < i + |w|
    ensures s[j] in w
  {
    assert s[i..i + |w|][j - i] == s[j];
  }
}
