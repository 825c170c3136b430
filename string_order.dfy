/** The default order of `Array.prototype.sort` on strings, taken here as
    lexicographic order on characters, and the sorted enumeration of a set of
    keys (`Object.keys(o).sort()`). */
module StringOrder {
  import opened Sequences

  /** `a` sorts strictly before `b`: a proper prefix comes first, otherwise
      the first differing character decides. */
  predicate Less(a: string, b: string): (r: bool)
    ensures a < b ==> r
    ensures r ==> a != b
    decreases |a|
  {
    if a == [] then b != []
    else if b == [] then false
    else a[0] < b[0] || (a[0] == b[0] && Less(a[1..], b[1..]))
  }

  /** The same order stated by positions rather than by recursion. */
  lemma {:induction false} LessByPositions(a: string, b: string)
    ensures Less(a, b) <==>
      (a < b || exists i :: 0 <= i < |a| && i < |b| && a[..i] == b[..i] && a[i] < b[i])
    decreases |a|
  {
    if a != [] && b != [] {
      LessByPositions(a[1..], b[1..]);
      if Less(a, b) && a[0] == b[0] && !(a[1..] < b[1..]) {
        var i :| 0 <= i < |a[1..]| && i < |b[1..]| && a[1..][..i] == b[1..][..i] && a[1..][i] < b[1..][i];
        assert a[..i + 1] == [a[0]] + a[1..][..i];
        assert b[..i + 1] == [b[0]] + b[1..][..i];
        assert a[i + 1] < b[i + 1];
      }
      if !Less(a, b) && !(a < b) {
        forall i | 0 <= i < |a| && i < |b| && a[..i] == b[..i]
          ensures !(a[i] < b[i])
        {
          if i > 0 {
            assert a[0] == a[..i][0] == b[..i][0] == b[0];
            assert a[1..][..i - 1] == a[..i][1..] == b[..i][1..] == b[1..][..i - 1];
            assert a[1..][i - 1] == a[i] && b[1..][i - 1] == b[i];
          }
        }
      }
    }
  }

  lemma {:induction false} LessIrreflexive(a: string)
    ensures !Less(a, a)
    decreases |a|
  {
    if a != [] {
      LessIrreflexive(a[1..]);
    }
  }

  lemma {:induction false} LessTransitive(a: string, b: string, c: string)
    requires Less(a, b) && Less(b, c)
    ensures Less(a, c)
    decreases |a|
  {
    if a != [] && a[0] == b[0] && b[0] == c[0] {
      LessTransitive(a[1..], b[1..], c[1..]);
    }
  }

  lemma {:induction false} LessTotal(a: string, b: string)
    ensures a == b || Less(a, b) || Less(b, a)
    decreases |a|
  {
    if a != [] && b != [] && a[0] == b[0] {
      LessTotal(a[1..], b[1..]);
      if a[1..] == b[1..] {
        assert a == [a[0]] + a[1..] && b == [b[0]] + b[1..];
      }
    }
  }

  lemma LessAsymmetric(a: string, b: string)
    ensures !(Less(a, b) && Less(b, a))
  {
    if Less(a, b) && Less(b, a) {
      LessTransitive(a, b, a);
      LessIrreflexive(a);
    }
  }

  /** `m` is the smallest member of `s`. */
  predicate IsLeast(m: string, s: set<string>) {
    m in s && forall y | y in s :: y == m || Less(m, y)
  }

  lemma {:induction false} LeastExists(s: set<string>)
    requires s != {}
    ensures exists m :: IsLeast(m, s)
    decreases |s|
  {
    var x :| x in s;
    if s != {x} {
      var rest := s - {x};
      LeastExists(rest);
      var m :| IsLeast(m, rest);
      LessTotal(x, m);
      if Less(x, m) {
        forall y | y in s ensures y == x || Less(x, y) {
          if y != x && y != m {
            LessTransitive(x, m, y);
          }
        }
        assert IsLeast(x, s);
      } else {
        assert IsLeast(m, s);
      }
    } else {
      assert IsLeast(x, s);
    }
  }

  lemma LeastUnique(s: set<string>)
    ensures forall m1, m2 :: IsLeast(m1, s) && IsLeast(m2, s) ==> m1 == m2
  {
    forall m1, m2 | IsLeast(m1, s) && IsLeast(m2, s) ensures m1 == m2 {
      LessAsymmetric(m1, m2);
    }
  }

  /** Each key sorts strictly before every later one. */
  predicate StrictlyAscending(ks: seq<string>) {
    forall i, j :: 0 <= i < j < |ks| ==> Less(ks[i], ks[j])
  }

  /** The members of `s` in ascending order. */
  function SortedKeys(s: set<string>): (ks: seq<string>)
    ensures StrictlyAscending(ks)
    ensures Elements(ks) == s
    ensures |ks| == |s|
    decreases |s|
  {
    if s == {} then []
    else
      LeastExists(s);
      LeastUnique(s);
      var m :| IsLeast(m, s);
      var rest := SortedKeys(s - {m});
      ConsAscending(m, rest, s);
      [m] + rest
  }

  /** Putting the least member in front of an ascending enumeration of the
      others gives an ascending enumeration of the whole set. */
  lemma ConsAscending(m: string, rest: seq<string>, s: set<string>)
    requires IsLeast(m, s)
    requires StrictlyAscending(rest) && Elements(rest) == s - {m} && |rest| == |s - {m}|
    ensures StrictlyAscending([m] + rest)
    ensures Elements([m] + rest) == s
    ensures |[m] + rest| == |s|
  {
    var ks := [m] + rest;
    assert StrictlyAscending(ks) by {
      forall i, j | 0 <= i < j < |ks| ensures Less(ks[i], ks[j]) {
        if i == 0 {
          assert rest[j - 1] in Elements(rest);
          assert ks[j] == rest[j - 1];
        } else {
          assert ks[i] == rest[i - 1] && ks[j] == rest[j - 1];
        }
      }
    }
    assert Elements(ks) == {m} + Elements(rest);
  }

  /** The sorted enumeration starts with the least member. */
  lemma SortedKeysHead(s: set<string>, m: string)
    requires IsLeast(m, s)
    ensures SortedKeys(s) == [m] + SortedKeys(s - {m})
  {
    LeastUnique(s);
  }

  /** The first key of an ascending sequence is its least member. */
  lemma AscendingHead(ks: seq<string>)
    requires StrictlyAscending(ks) && ks != []
    ensures IsLeast(ks[0], Elements(ks))
  {
    forall y | y in Elements(ks) ensures y == ks[0] || Less(ks[0], y) {
      var j :| 0 <= j < |ks| && ks[j] == y;
      assert j == 0 || Less(ks[0], ks[j]);
    }
  }

  /** A strictly ascending sequence holding exactly the members of `s` is the
      sorted enumeration of `s`: the order depends on nothing but the set. */
  lemma {:induction false} AscendingUnique(ks: seq<string>, s: set<string>)
    requires StrictlyAscending(ks) && Elements(ks) == s
    ensures ks == SortedKeys(s)
    decreases |ks|
  {
    if ks != [] {
      var m := ks[0];
      AscendingHead(ks);
      var tail := ks[1..];
      assert ks == [m] + tail;
      assert m !in tail by {
        LessIrreflexive(m);
        forall j | 0 <= j < |tail| ensures tail[j] != m {
          assert Less(ks[0], ks[j + 1]);
        }
      }
      assert Elements(tail) == s - {m};
      AscendingUnique(tail, s - {m});
      SortedKeysHead(s, m);
    }
  }
}
