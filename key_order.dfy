/** The orders std::map keeps its keys in: std::string's lexicographic operator< and
    std::tuple's, and the ascending walk a range-for over a std::map performs. */
module KeyOrder {

  /** std::string operator<: the first differing character decides; a proper prefix
      comes first. */
  predicate StrLess(a: string, b: string)
    decreases |a|
  {
    if a == [] then b != []
    else if b == [] then false
    else if a[0] != b[0] then a[0] < b[0]
    else StrLess(a[1..], b[1..])
  }

  lemma {:induction false} StrLessIrreflexive(a: string)
    ensures !StrLess(a, a)
    decreases |a|
  {
    if a != [] {
      StrLessIrreflexive(a[1..]);
    }
  }

  lemma {:induction false} StrLessAsymmetric(a: string, b: string)
    requires StrLess(a, b)
    ensures !StrLess(b, a)
    decreases |a|
  {
    if a != [] && b != [] && a[0] == b[0] {
      StrLessAsymmetric(a[1..], b[1..]);
    }
  }

  lemma {:induction false} StrLessTransitive(a: string, b: string, c: string)
    requires StrLess(a, b) && StrLess(b, c)
    ensures StrLess(a, c)
    decreases |a|
  {
    if a != [] && a[0] == b[0] && b[0] == c[0] {
      StrLessTransitive(a[1..], b[1..], c[1..]);
    }
  }

  lemma {:induction false} StrLessTotal(a: string, b: string)
    ensures a == b || StrLess(a, b) || StrLess(b, a)
    decreases |a|
  {
    if a != [] && b != [] && a[0] == b[0] {
      StrLessTotal(a[1..], b[1..]);
      if a[1..] == b[1..] {
        assert a == [a[0]] + a[1..] && b == [b[0]] + b[1..];
      }
    }
  }

  /** s is the least string of ss. */
  predicate IsLeastStr(s: string, ss: set<string>)
  {
    s in ss && forall t :: t in ss && t != s ==> StrLess(s, t)
  }

  /** Every non-empty finite set of strings has a least string. */
  lemma {:induction false} StrLeastExists(ss: set<string>)
    requires ss != {}
    ensures exists s :: IsLeastStr(s, ss)
    decreases |ss|
  {
    var a :| a in ss;
    if ss != {a} {
      var rest := ss - {a};
      StrLeastExists(rest);
      var m :| IsLeastStr(m, rest);
      StrLessTotal(a, m);
      if StrLess(a, m) {
        forall t | t in ss && t != a ensures StrLess(a, t) {
          if t != m {
            StrLessTransitive(a, m, t);
          }
        }
        assert IsLeastStr(a, ss);
      } else {
        assert IsLeastStr(m, ss);
      }
    } else {
      assert IsLeastStr(a, ss);
    }
  }

  /** The (type, host, port) key of the fingerprint maps. */
  type Key = (string, string, int)

  /** std::tuple operator<: lexicographic over the three components. */
  predicate KeyLess(a: Key, b: Key)
  {
    StrLess(a.0, b.0) || (a.0 == b.0 && (StrLess(a.1, b.1) || (a.1 == b.1 && a.2 < b.2)))
  }

  lemma {:induction false} KeyLessIrreflexive(a: Key)
    ensures !KeyLess(a, a)
  {
    StrLessIrreflexive(a.0);
    StrLessIrreflexive(a.1);
  }

  lemma {:induction false} KeyLessTransitive(a: Key, b: Key, c: Key)
    requires KeyLess(a, b) && KeyLess(b, c)
    ensures KeyLess(a, c)
  {
    if StrLess(a.0, b.0) && StrLess(b.0, c.0) {
      StrLessTransitive(a.0, b.0, c.0);
    }
    if a.0 == b.0 == c.0 && StrLess(a.1, b.1) && StrLess(b.1, c.1) {
      StrLessTransitive(a.1, b.1, c.1);
    }
  }

  lemma {:induction false} KeyLessTotal(a: Key, b: Key)
    ensures a == b || KeyLess(a, b) || KeyLess(b, a)
  {
    StrLessTotal(a.0, b.0);
    StrLessTotal(a.1, b.1);
  }

  /** k is the least key of s. */
  predicate IsLeast(k: Key, s: set<Key>)
  {
    k in s && forall j :: j in s && j != k ==> KeyLess(k, j)
  }

  /** Every non-empty finite set of keys has a least key, and only one. */
  lemma {:induction false} LeastExists(s: set<Key>)
    requires s != {}
    ensures exists k :: IsLeast(k, s)
    decreases |s|
  {
    var a :| a in s;
    if s != {a} {
      var rest := s - {a};
      LeastExists(rest);
      var m :| IsLeast(m, rest);
      KeyLessTotal(a, m);
      if KeyLess(a, m) {
        forall j | j in s && j != a ensures KeyLess(a, j) {
          if j != m {
            KeyLessTransitive(a, m, j);
          }
        }
        assert IsLeast(a, s);
      } else {
        assert IsLeast(m, s);
      }
    } else {
      assert IsLeast(a, s);
    }
  }

  lemma {:induction false} LeastUnique(k: Key, k': Key, s: set<Key>)
    requires IsLeast(k, s) && IsLeast(k', s)
    ensures k == k'
  {
    if k != k' {
      assert KeyLess(k, k') && KeyLess(k', k);
      KeyLessTransitive(k, k', k);
      KeyLessIrreflexive(k);
    }
  }

  /** The keys of a std::map in the order a range-for visits them. */
  ghost function Ascending(s: set<Key>): (r: seq<Key>)
    ensures |r| == |s|
    ensures forall i :: 0 <= i < |r| ==> r[i] in s
    ensures forall k :: k in s ==> k in r
    decreases |s|
  {
    if s == {} then []
    else
      LeastExists(s);
      var k :| IsLeast(k, s);
      [k] + Ascending(s - {k})
  }

  /** The walk starts at the least key and goes on with the walk of the others. */
  lemma {:induction false} AscendingHead(s: set<Key>)
    requires s != {}
    ensures IsLeast(Ascending(s)[0], s) && Ascending(s)[1..] == Ascending(s - {Ascending(s)[0]})
  {
  }

  /** That order is strictly increasing. */
  lemma {:induction false} AscendingIncreases(s: set<Key>)
    ensures forall i, j :: 0 <= i < j < |Ascending(s)| ==> KeyLess(Ascending(s)[i], Ascending(s)[j])
    decreases |s|
  {
    if s != {} {
      var r := Ascending(s);
      AscendingHead(s);
      AscendingIncreases(s - {r[0]});
      forall i, j | 0 <= i < j < |r| ensures KeyLess(r[i], r[j]) {
        if i > 0 {
          assert r[i] == r[1..][i - 1] && r[j] == r[1..][j - 1];
        } else {
          assert r[j] == r[1..][j - 1];
          assert r[j] in s - {r[0]};
        }
      }
    }
  }

  /** Walking from the least key: the first key is the least, the rest is the walk of what remains. */
  lemma {:induction false} AscendingFromLeast(s: set<Key>, k: Key)
    requires IsLeast(k, s)
    ensures Ascending(s) == [k] + Ascending(s - {k})
  {
    var r := Ascending(s);
    AscendingHead(s);
    LeastUnique(k, r[0], s);
    assert r == [r[0]] + r[1..];
  }
}
