// validate_target: the check that a collection target is an IP address or a host name.

module TargetValidation {
  import opened Wrappers
  import opened Text

  // ---------------------------------------------------------------- labels

  /** A character of the class [A-Z\d-] under IGNORECASE, on ASCII. */
  predicate LabelChar(c: char)
  {
    ('A' <= c <= 'Z') || ('a' <= c <= 'z') || ('0' <= c <= '9') || c == '-'
  }

  /** A host-name label: 1 to 63 label characters, not starting or ending with '-'. */
  predicate ValidLabel(x: string)
  {
    1 <= |x| <= 63 && (forall i :: 0 <= i < |x| ==> LabelChar(x[i])) && x[0] != '-' && x[|x| - 1] != '-'
  }

  /** What the pattern (?!-)[A-Z\d-]{1,63}(?<!-)$ accepts with re.match: a label, or a
      label followed by one final '\n', since '$' also matches just before a string's
      final newline. */
  predicate LabelMatches(x: string)
  {
    ValidLabel(x) || (|x| >= 1 && x[|x| - 1] == '\n' && ValidLabel(x[..|x| - 1]))
  }

  /** The host name with one trailing '.' taken off. */
  function WithoutFinalDot(host: string): (h: string)
    requires host != []
    ensures host[|host| - 1] == '.' ==> host == h + "."
    ensures host[|host| - 1] != '.' ==> h == host
  {
    if host[|host| - 1] == '.' then host[..|host| - 1] else host
  }

  /** The error host[-1] raises on the empty string. */
  const IndexErrorMessage := "string index out of range"

  // ---------------------------------------------------------------- validate_target

  /** validate_target as written: isIp stands for ipaddress.ip_address accepting the
      string; otherwise at most 255 characters, one final '.' dropped, and every
      '.'-separated label matched by the pattern. */
  function ValidateTargetAsWritten(isIp: string -> bool, host: string): (r: Result<bool, string>)
    ensures r.Err? <==> !isIp(host) && host == []
    ensures r.Err? ==> r.error == IndexErrorMessage
    ensures isIp(host) ==> r == Ok(true)
    ensures r == Ok(true) && !isIp(host) ==> 0 < |host| <= 255
  {
    if isIp(host) then Ok(true)
    else if |host| > 255 then Ok(false)
    else if host == [] then Err(IndexErrorMessage)
    else
      var labels := SplitAll(WithoutFinalDot(host), '.');
      Ok(forall i :: 0 <= i < |labels| ==> LabelMatches(labels[i]))
  }

  /** validate_target with each label matched in full, no final newline let through. */
  function ValidateTarget(isIp: string -> bool, host: string): (r: Result<bool, string>)
    ensures r.Err? <==> !isIp(host) && host == []
    ensures r.Err? ==> r.error == IndexErrorMessage
    ensures isIp(host) ==> r == Ok(true)
    ensures r == Ok(true) && !isIp(host) ==> 0 < |host| <= 255
  {
    if isIp(host) then Ok(true)
    else if |host| > 255 then Ok(false)
    else if host == [] then Err(IndexErrorMessage)
    else
      var labels := SplitAll(WithoutFinalDot(host), '.');
      Ok(forall i :: 0 <= i < |labels| ==> ValidLabel(labels[i]))
  }

  // ---------------------------------------------------------------- the outcome in each case

  /** Whatever ip_address accepts is a valid target, whatever its length. */
  lemma IpAccepted(isIp: string -> bool, host: string)
    requires isIp(host)
    ensures ValidateTarget(isIp, host) == Ok(true)
  {
  }

  /** Anything else longer than 255 characters is refused. */
  lemma LongRejected(isIp: string -> bool, host: string)
    requires !isIp(host) && |host| > 255
    ensures ValidateTarget(isIp, host) == Ok(false)
  {
  }

  /** The empty string, not an address, fails at host[-1]. */
  lemma EmptyRaises(isIp: string -> bool)
    requires !isIp("")
    ensures ValidateTarget(isIp, "") == Err(IndexErrorMessage)
  {
  }

  /** The parts joined by '.' end with the last part's last character. */
  lemma {:induction false} JoinEndsWithLastPart(parts: seq<string>, d: char)
    requires |parts| >= 1 && parts[|parts| - 1] != []
    ensures var j := JoinWith(parts, d); var last := parts[|parts| - 1];
      |j| >= |last| && j[|j| - 1] == last[|last| - 1]
  {
  }

  /** Every character of the parts joined by d is d or a character of some part. */
  lemma {:induction false} JoinCharacters(parts: seq<string>, d: char, i: nat)
    requires i < |JoinWith(parts, d)|
    ensures var c := JoinWith(parts, d)[i]; c == d || exists k, m :: 0 <= k < |parts| && 0 <= m < |parts[k]| && parts[k][m] == c
    decreases |parts|
  {
    if |parts| > 1 {
      var init := parts[..|parts| - 1];
      var j := JoinWith(init, d);
      var last := parts[|parts| - 1];
      assert JoinWith(parts, d) == j + [d] + last;
      if i < |j| {
        JoinCharacters(init, d, i);
        var c := j[i];
        if c != d {
          var k, m :| 0 <= k < |init| && 0 <= m < |init[k]| && init[k][m] == c;
          assert parts[k] == init[k];
        }
      } else if i > |j| {
        assert JoinWith(parts, d)[i] == last[i - |j| - 1];
      }
    }
  }

  /** Labels joined by '.', with or without one final '.'. */
  predicate JoinedLabels(host: string, labels: seq<string>)
  {
    |labels| >= 1 && (forall i :: 0 <= i < |labels| ==> ValidLabel(labels[i])) &&
    (host == JoinWith(labels, '.') || host == JoinWith(labels, '.') + ".")
  }

  /** An accepted non-address is labels joined by '.', optionally followed by one '.'. */
  lemma AcceptedIsLabels(isIp: string -> bool, host: string)
    requires !isIp(host) && ValidateTarget(isIp, host) == Ok(true)
    ensures JoinedLabels(host, SplitAll(WithoutFinalDot(host), '.'))
  {
    JoinSplit(WithoutFinalDot(host), '.');
  }

  /** Labels joined by '.', optionally followed by one '.', are accepted when there are at
      most 255 characters. */
  lemma LabelsAccepted(isIp: string -> bool, host: string, labels: seq<string>)
    requires !isIp(host) && |host| <= 255 && JoinedLabels(host, labels)
    ensures ValidateTarget(isIp, host) == Ok(true)
  {
    var j := JoinWith(labels, '.');
    JoinEndsWithLastPart(labels, '.');
    assert WithoutFinalDot(host) == j;
    forall k | 0 <= k < |labels|
      ensures '.' !in labels[k]
    {
      assert forall m :: 0 <= m < |labels[k]| ==> LabelChar(labels[k][m]);
    }
    SplitJoin(labels, '.');
  }

  /** A character that may appear in an accepted host name. */
  predicate HostChar(c: char)
  {
    LabelChar(c) || c == '.'
  }

  /** Nothing but letters, digits, '-' and '.' gets through, so no shell metacharacter. */
  lemma AcceptedCharacters(isIp: string -> bool, host: string)
    requires !isIp(host) && ValidateTarget(isIp, host) == Ok(true)
    ensures forall i :: 0 <= i < |host| ==> HostChar(host[i])
  {
    var h := WithoutFinalDot(host);
    var labels := SplitAll(h, '.');
    JoinSplit(h, '.');
    forall i | 0 <= i < |host|
      ensures HostChar(host[i])
    {
      if i < |h| {
        assert h[i] == host[i];
        JoinCharacters(labels, '.', i);
        if host[i] != '.' {
          var k, m :| 0 <= k < |labels| && 0 <= m < |labels[k]| && labels[k][m] == host[i];
          assert ValidLabel(labels[k]);
        }
      }
    }
  }

  /** One character other than a letter, digit, '-' or '.' is enough for a refusal. */
  lemma RejectedCharacter(isIp: string -> bool, host: string, i: nat)
    requires !isIp(host) && i < |host| <= 255 && !HostChar(host[i])
    ensures ValidateTarget(isIp, host) == Ok(false)
  {
    if ValidateTarget(isIp, host) == Ok(true) {
      AcceptedCharacters(isIp, host);
    }
  }

  // ---------------------------------------------------------------- the examples of tests/test_collectors.py

  lemma GoogleAccepted(isIp: string -> bool)
    requires !isIp("google.com")
    ensures ValidateTarget(isIp, "google.com") == Ok(true)
  {
    var labels := ["google", "com"];
    assert JoinWith(labels, '.') == "google.com";
    assert ValidLabel(labels[0]) && ValidLabel(labels[1]);
    LabelsAccepted(isIp, "google.com", labels);
  }

  lemma InjectionRejected(isIp: string -> bool)
    requires !isIp("google.com; rm -rf /")
    ensures ValidateTarget(isIp, "google.com; rm -rf /") == Ok(false)
  {
    var host := "google.com; rm -rf /";
    assert !HostChar(host[10]);
    RejectedCharacter(isIp, host, 10);
  }

  lemma AddressAccepted(isIp: string -> bool)
    requires isIp("8.8.8.8")
    ensures ValidateTarget(isIp, "8.8.8.8") == Ok(true)
  {
  }

  /** An empty label, as in "a..b", is refused. */
  lemma EmptyLabelRejected(isIp: string -> bool)
    requires !isIp("a..b")
    ensures ValidateTarget(isIp, "a..b") == Ok(false)
  {
    var labels := ["a", "", "b"];
    assert JoinWith(labels, '.') == "a..b";
    SplitJoin(labels, '.');
    assert !ValidLabel(labels[1]);
  }

  // ---------------------------------------------------------------- the final newline

  /** As written, a name followed by a newline passes, because '$' matches before it. */
  lemma AsWrittenAcceptsNewline(isIp: string -> bool)
    requires !isIp("google.com\n")
    ensures ValidateTargetAsWritten(isIp, "google.com\n") == Ok(true)
  {
    var labels := ["google", "com\n"];
    assert JoinWith(labels, '.') == "google.com\n";
    assert ValidLabel(labels[0]);
    assert labels[1][..3] == "com";
    assert ValidLabel(labels[1][..3]);
    AsWrittenLabelsAccepted(isIp, "google.com\n", labels);
  }

  /** As written, labels joined by '.' that each match the pattern are accepted. */
  lemma AsWrittenLabelsAccepted(isIp: string -> bool, host: string, labels: seq<string>)
    requires !isIp(host) && |host| <= 255 && |labels| >= 1 && host == JoinWith(labels, '.')
    requires forall i :: 0 <= i < |labels| ==> LabelMatches(labels[i]) && '.' !in labels[i]
    requires labels[|labels| - 1] != [] && labels[|labels| - 1][|labels[|labels| - 1]| - 1] != '.'
    ensures ValidateTargetAsWritten(isIp, host) == Ok(true)
  {
    JoinEndsWithLastPart(labels, '.');
    assert WithoutFinalDot(host) == host;
    SplitJoin(labels, '.');
  }

  /** With whole-label matching that name, and every other name holding a newline, is refused. */
  lemma NewlineRejected(isIp: string -> bool, host: string)
    requires !isIp(host) && '\n' in host
    ensures ValidateTarget(isIp, host) == Ok(false)
  {
    if |host| <= 255 {
      var i :| 0 <= i < |host| && host[i] == '\n';
      RejectedCharacter(isIp, host, i);
    }
  }

  /** As written, an accepted non-address is matching labels joined by '.', optionally
      followed by one '.'. */
  lemma AsWrittenAcceptedIsLabels(isIp: string -> bool, host: string)
    requires !isIp(host) && ValidateTargetAsWritten(isIp, host) == Ok(true)
    ensures var labels := SplitAll(WithoutFinalDot(host), '.');
      |labels| >= 1 && (forall i :: 0 <= i < |labels| ==> LabelMatches(labels[i])) &&
      (host == JoinWith(labels, '.') || host == JoinWith(labels, '.') + ".")
  {
    JoinSplit(WithoutFinalDot(host), '.');
  }

  /** A newline only ever closes a part: the character after it is the delimiter. */
  lemma {:induction false} JoinNewlineFollowed(parts: seq<string>, d: char, i: nat)
    requires d != '\n'
    requires forall k, m :: 0 <= k < |parts| && 0 <= m < |parts[k]| - 1 ==> parts[k][m] != '\n'
    requires i + 1 < |JoinWith(parts, d)| && JoinWith(parts, d)[i] == '\n'
    ensures JoinWith(parts, d)[i + 1] == d
    decreases |parts|
  {
    var init := parts[..|parts| - 1];
    var j := JoinWith(init, d);
    var last := parts[|parts| - 1];
    assert JoinWith(parts, d) == j + [d] + last;
    if i + 1 < |j| {
      JoinNewlineFollowed(init, d, i);
    }
  }

  /** As written, an accepted non-address holds letters, digits, '-', '.' and newlines, and
      each newline ends a label: it is the host's last character or comes before a '.'. */
  lemma AsWrittenAcceptedCharacters(isIp: string -> bool, host: string)
    requires !isIp(host) && ValidateTargetAsWritten(isIp, host) == Ok(true)
    ensures forall i :: 0 <= i < |host| ==> HostChar(host[i]) || host[i] == '\n'
    ensures forall i :: 0 <= i < |host| - 1 && host[i] == '\n' ==> host[i + 1] == '.'
  {
    var h := WithoutFinalDot(host);
    var labels := SplitAll(h, '.');
    JoinSplit(h, '.');
    forall k, m | 0 <= k < |labels| && 0 <= m < |labels[k]| - 1
      ensures labels[k][m] != '\n'
    {
      assert LabelMatches(labels[k]);
      if !ValidLabel(labels[k]) {
        assert labels[k][m] == labels[k][..|labels[k]| - 1][m];
      }
    }
    forall i | 0 <= i < |host|
      ensures HostChar(host[i]) || host[i] == '\n'
    {
      if i < |h| {
        assert h[i] == host[i];
        JoinCharacters(labels, '.', i);
        if host[i] != '.' {
          var k, m :| 0 <= k < |labels| && 0 <= m < |labels[k]| && labels[k][m] == host[i];
          assert LabelMatches(labels[k]);
          if !ValidLabel(labels[k]) && m < |labels[k]| - 1 {
            assert labels[k][m] == labels[k][..|labels[k]| - 1][m];
          }
        }
      }
    }
    forall i | 0 <= i < |host| - 1 && host[i] == '\n'
      ensures host[i + 1] == '.'
    {
      if i + 1 < |h| {
        assert h[i] == host[i] && h[i + 1] == host[i + 1];
        JoinNewlineFollowed(labels, '.', i);
      }
    }
  }

  /** As written, one character other than a letter, digit, '-', '.' or newline is enough
      for a refusal. */
  lemma AsWrittenRejectedCharacter(isIp: string -> bool, host: string, i: nat)
    requires !isIp(host) && i < |host| <= 255 && !HostChar(host[i]) && host[i] != '\n'
    ensures ValidateTargetAsWritten(isIp, host) == Ok(false)
  {
    if ValidateTargetAsWritten(isIp, host) == Ok(true) {
      AsWrittenAcceptedCharacters(isIp, host);
    }
  }

  /** As written, a newline inside a label, with anything but '.' after it, is refused. */
  lemma AsWrittenInnerNewlineRejected(isIp: string -> bool, host: string, i: nat)
    requires !isIp(host) && i + 1 < |host| <= 255 && host[i] == '\n' && host[i + 1] != '.'
    ensures ValidateTargetAsWritten(isIp, host) == Ok(false)
  {
    if ValidateTargetAsWritten(isIp, host) == Ok(true) {
      AsWrittenAcceptedCharacters(isIp, host);
    }
  }

  /** The two agree on every name without a newline. */
  lemma AgreeWithoutNewline(isIp: string -> bool, host: string)
    requires '\n' !in host
    ensures ValidateTargetAsWritten(isIp, host) == ValidateTarget(isIp, host)
  {
    if !isIp(host) && 0 < |host| <= 255 {
      var h := WithoutFinalDot(host);
      assert forall m :: 0 <= m < |h| ==> h[m] == host[m];
      var labels := SplitAll(h, '.');
      JoinSplit(h, '.');
      forall i, m | 0 <= i < |labels| && 0 <= m < |labels[i]|
        ensures labels[i][m] != '\n'
      {
        PartCharInJoin(labels, '.', i, m);
      }
      forall i | 0 <= i < |labels|
        ensures LabelMatches(labels[i]) == ValidLabel(labels[i])
      {
      }
    }
  }

  /** A character of one of the parts is a character of their join. */
  lemma {:induction false} PartCharInJoin(parts: seq<string>, d: char, k: nat, m: nat)
    requires k < |parts| && m < |parts[k]|
    ensures parts[k][m] in JoinWith(parts, d)
    decreases |parts|
  {
    if |parts| > 1 {
      var init := parts[..|parts| - 1];
      var j := JoinWith(init, d);
      assert JoinWith(parts, d) == j + [d] + parts[|parts| - 1];
      if k < |parts| - 1 {
        PartCharInJoin(init, d, k, m);
        assert init[k] == parts[k];
      } else {
        assert JoinWith(parts, d)[|j| + 1 + m] == parts[k][m];
      }
    }
  }
}
