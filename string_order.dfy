/**
 * Python's ordering of `str` values (code point by code point, a proper
 * prefix first) and `sorted(...)` of a set of strings. Dafny's own `<` on
 * sequences means "proper prefix", so the order is defined here.
 */
module StringOrder {

  /** `a < b` on Python strings. */
  predicate Less(a: string, b: string)
    decreases |a|
  {
    if a == [] then b != []
    else if b == [] then false
    else if a[0] != b[0] then a[0] < b[0]
    else Less(a[1..], b[1..])
  }

  lemma {:induction false} LessIrreflexive(a: string)
    ensures !Less(a, a)
    decreases |a|
  {
    if a != [] {
      LessIrreflexive(a[1..]);
    }
  }

  lemma {:induction false} LessTransitive(a: string, b: string, c: string)
    requires Less(a, b) && Less(b, c)
    ensures Less(a, c)
    decreases |a|
  {
    if a != [] && b != [] && c != [] && a[0] == b[0] == c[0] {
      LessTransitive(a[1..], b[1..], c[1..]);
    }
  }

  /** Any two different strings are ordered one way or the other. */
  lemma {:induction false} LessTotal(a: string, b: string)
    requires a != b
    ensures Less(a, b) || Less(b, a)
    decreases |a|
  {
    if a != [] && b != [] && a[0] == b[0] {
      assert a == [a[0]] + a[1..] && b == [b[0]] + b[1..];
      LessTotal(a[1..], b[1..]);
    }
  }

  lemma LessAsymmetric(a: string, b: string)
    requires Less(a, b)
    ensures !Less(b, a)
  {
    if Less(b, a) {
      LessTransitive(a, b, a);
      LessIrreflexive(a);
    }
  }

  /** Every element after position `i` is greater: sorted and free of duplicates. */
  predicate StrictlyAscending(s: seq<string>) {
    forall i, j :: 0 <= i < j < |s| ==> Less(s[i], s[j])
  }

  predicate IsLeast(m: string, s: set<string>) {
    m in s && forall x :: x in s && x != m ==> Less(m, x)
  }

  lemma {:induction false} LeastExists(s: set<string>)
    requires s != {}
    ensures exists m :: IsLeast(m, s)
    decreases |s|
  {
    var y :| y in s;
    if s != {y} {
      LeastExists(s - {y});
      var m :| IsLeast(m, s - {y});
      if Less(m, y) {
        assert IsLeast(m, s);
      } else {
        LessTotal(m, y);
        forall x | x in s && x != y ensures Less(y, x) {
          if x != m { LessTransitive(y, m, x); }
        }
        assert IsLeast(y, s);
      }
    } else {
      assert IsLeast(y, s);
    }
  }

  lemma LeastUnique(s: set<string>, m: string, n: string)
    requires IsLeast(m, s) && IsLeast(n, s)
    ensures m == n
  {
    if m != n {
      LessAsymmetric(m, n);
    }
  }

  lemma LeastUniqueAll(s: set<string>)
    ensures forall m, n :: IsLeast(m, s) && IsLeast(n, s) ==> m == n
  {
    forall m, n | IsLeast(m, s) && IsLeast(n, s) ensures m == n {
      LeastUnique(s, m, n);
    }
  }

  /** The least element of a non-empty set. */
  function Least(s: set<string>): (m: string)
    requires s != {}
    ensures IsLeast(m, s)
  {
    LeastExists(s);
    LeastUniqueAll(s);
    var m :| IsLeast(m, s);
    m
  }

  /** `sorted(s)` for a set of strings: its elements, strictly ascending. */
  function SortedList(s: set<string>): (r: seq<string>)
    ensures StrictlyAscending(r)
    ensures forall x :: x in r <==> x in s
    ensures |r| == |s|
    decreases |s|
  {
    if s == {} then []
    else
      var m := Least(s);
      var rest := SortedList(s - {m});
      assert forall k :: 0 <= k < |rest| ==> Less(m, rest[k]) by {
        forall k | 0 <= k < |rest| ensures Less(m, rest[k]) {
          assert rest[k] in rest;
        }
      }
      [m] + rest
  }

  /** The sorted list of a set is the only strictly ascending list of its elements. */
  lemma {:induction false} SortedListUnique(s: set<string>, r: seq<string>)
    requires StrictlyAscending(r)
    requires forall x :: x in r <==> x in s
    ensures r == SortedList(s)
    decreases |r|
  {
    if r == [] {
      assert s == {};
    } else {
      assert IsLeast(r[0], s) by {
        forall x | x in s && x != r[0] ensures Less(r[0], x) {
          var k :| 0 <= k < |r| && r[k] == x;
        }
      }
      LeastUnique(s, r[0], Least(s));
      forall x ensures x in r[1..] <==> x in s - {r[0]} {
        if x in r[1..] {
          var k :| 1 <= k < |r| && r[k] == x;
          LessIrreflexive(x);
        }
      }
      SortedListUnique(s - {r[0]}, r[1..]);
      assert s != {};
      assert SortedList(s) == [r[0]] + SortedList(s - {r[0]});
      assert r == [r[0]] + r[1..];
    }
  }
}
