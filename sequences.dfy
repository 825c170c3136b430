/** Sequence helpers shared by the identifier table and the property merger.
    A JavaScript `Set` keeps its members in insertion order; it is represented
    here by a duplicate-free sequence, and `Add` is `Set.prototype.add`. */
module Sequences {

  /** No value occurs twice in `s`. */
  predicate Distinct<T(==)>(s: seq<T>) {
    forall i, j :: 0 <= i < j < |s| ==> s[i] != s[j]
  }

  /** The values occurring in `s`. */
  function Elements<T>(s: seq<T>): set<T> {
    set x | x in s
  }

  /** The values of `a ++ b` are those of `a` and those of `b`. */
  lemma ElementsConcat<T>(a: seq<T>, b: seq<T>)
    ensures Elements(a + b) == Elements(a) + Elements(b)
  {
  }

  /** A prefix one longer is the prefix followed by the next element. */
  lemma PrefixSnoc<T>(s: seq<T>, i: nat)
    requires i < |s|
    ensures s[..i + 1] == s[..i] + [s[i]]
  {
  }

  /** Position of the first occurrence of `x` in `s`. */
  function FirstIndex<T(==)>(s: seq<T>, x: T): (r: nat)
    requires x in s
    ensures r < |s| && s[r] == x
    ensures forall k :: 0 <= k < r ==> s[k] != x
  {
    if s[0] == x then 0 else 1 + FirstIndex(s[1..], x)
  }

  /** Adding `v` to an insertion-ordered set: a value already present is
      ignored, a new one is placed after all the others. */
  function Add<T(==)>(s: seq<T>, v: T): (r: seq<T>)
    ensures Elements(r) == Elements(s) + {v}
    ensures s <= r
    ensures Distinct(s) ==> Distinct(r)
    ensures v in s ==> r == s
  {
    if v in s then s else s + [v]
  }

  /** Adding every value of `xs`, in order, to the insertion-ordered set `s`. */
  function AppendAbsent<T(==)>(s: seq<T>, xs: seq<T>): (r: seq<T>)
    ensures Elements(r) == Elements(s) + Elements(xs)
    ensures s <= r
    ensures Distinct(s) ==> Distinct(r)
    decreases |xs|
  {
    if xs == [] then s
    else
      var init := xs[..|xs| - 1];
      assert xs == init + [xs[|xs| - 1]];
      assert Elements(xs) == Elements(init) + {xs[|xs| - 1]};
      Add(AppendAbsent(s, init), xs[|xs| - 1])
  }

  /** Adding `xs ++ [x]` is adding `xs` and then `x`. */
  lemma AppendAbsentSnoc<T>(s: seq<T>, xs: seq<T>, x: T)
    ensures AppendAbsent(s, xs + [x]) == Add(AppendAbsent(s, xs), x)
  {
    assert (xs + [x])[..|xs|] == xs;
  }

  /** The insertion-ordered set built from `xs` (`new Set(xs)`); its members
      as a sequence (`[...set.values()]`). */
  function Dedup<T(==)>(xs: seq<T>): (r: seq<T>)
    ensures Distinct(r)
    ensures Elements(r) == Elements(xs)
  {
    AppendAbsent([], xs)
  }

  /** Adding `xs ++ ys` is adding `xs` and then `ys`. */
  lemma {:induction false} AppendAbsentConcat<T>(s: seq<T>, xs: seq<T>, ys: seq<T>)
    ensures AppendAbsent(s, xs + ys) == AppendAbsent(AppendAbsent(s, xs), ys)
    decreases |ys|
  {
    if ys == [] {
      assert xs + ys == xs;
    } else {
      var init := ys[..|ys| - 1];
      var last := ys[|ys| - 1];
      assert (xs + ys)[..|xs + ys| - 1] == xs + init;
      assert (xs + ys)[|xs + ys| - 1] == last;
      AppendAbsentConcat(s, xs, init);
    }
  }

  /** Adding values that are all missing from `s` and pairwise distinct
      just appends them. */
  lemma {:induction false} AppendAbsentFresh<T>(s: seq<T>, xs: seq<T>)
    requires Distinct(s + xs)
    ensures AppendAbsent(s, xs) == s + xs
    decreases |xs|
  {
    if xs != [] {
      var init := xs[..|xs| - 1];
      var last := xs[|xs| - 1];
      assert s + xs == (s + init) + [last];
      assert Distinct(s + init) by {
        forall i, j | 0 <= i < j < |s + init|
          ensures (s + init)[i] != (s + init)[j]
        {
          assert (s + init)[i] == (s + xs)[i] && (s + init)[j] == (s + xs)[j];
        }
      }
      AppendAbsentFresh(s, init);
      assert last !in s + init by {
        forall k | 0 <= k < |s + init| ensures (s + init)[k] != last {
          assert (s + init)[k] == (s + xs)[k] && last == (s + xs)[|s + xs| - 1];
        }
      }
    }
  }

  /** Adding values that are all present already changes nothing. */
  lemma {:induction false} AppendAbsentPresent<T>(s: seq<T>, xs: seq<T>)
    requires Elements(xs) <= Elements(s)
    ensures AppendAbsent(s, xs) == s
    decreases |xs|
  {
    if xs != [] {
      var init := xs[..|xs| - 1];
      assert xs == init + [xs[|xs| - 1]];
      assert Elements(xs) == Elements(init) + {xs[|xs| - 1]};
      AppendAbsentPresent(s, init);
    }
  }

  /** A duplicate-free sequence is its own insertion-ordered set. */
  lemma DedupDistinct<T>(s: seq<T>)
    requires Distinct(s)
    ensures Dedup(s) == s
  {
    AppendAbsentFresh([], s);
  }

  /** Adding `xs` to a set `s` gives the set built from `s ++ xs`: the old
      members keep their order, the new ones follow in encounter order. */
  lemma AppendAbsentIsDedup<T>(s: seq<T>, xs: seq<T>)
    requires Distinct(s)
    ensures AppendAbsent(s, xs) == Dedup(s + xs)
  {
    AppendAbsentConcat([], s, xs);
    DedupDistinct(s);
  }

  /** Building a set twice is building it once. */
  lemma DedupDedup<T>(xs: seq<T>, ys: seq<T>)
    ensures Dedup(Dedup(xs) + ys) == Dedup(xs + ys)
  {
    AppendAbsentIsDedup(Dedup(xs), ys);
    AppendAbsentConcat([], xs, ys);
  }

  /** Building the set of `xs ++ [x]` adds `x` to the set of `xs`. */
  lemma DedupSnoc<T>(xs: seq<T>, x: T)
    ensures Dedup(xs + [x]) == Add(Dedup(xs), x)
  {
    assert (xs + [x])[..|xs|] == xs;
  }

  /** The set built from `p` is a prefix of the one built from `p ++ xs`. */
  lemma DedupPrefix<T>(p: seq<T>, xs: seq<T>)
    ensures Dedup(p) <= Dedup(p + xs)
  {
    AppendAbsentConcat([], p, xs);
  }

  /** The first occurrence of a value in `p` is also its first occurrence in
      any extension of `p`. */
  lemma {:induction false} FirstIndexPrefix<T>(p: seq<T>, q: seq<T>, x: T)
    requires x in p
    ensures x in p + q && FirstIndex(p + q, x) == FirstIndex(p, x)
  {
    var i := FirstIndex(p, x);
    assert (p + q)[i] == x;
    assert forall k :: 0 <= k < i ==> (p + q)[k] == p[k];
  }

  /** The members of `Dedup(s)` come in the order of their first occurrence
      in `s`. */
  lemma {:induction false} DedupOrder<T>(s: seq<T>, i: nat, j: nat)
    requires i < j < |Dedup(s)|
    ensures Dedup(s)[i] in s && Dedup(s)[j] in s
    ensures FirstIndex(s, Dedup(s)[i]) < FirstIndex(s, Dedup(s)[j])
    decreases |s|
  {
    var d := Dedup(s);
    assert d[i] in Elements(d) && d[j] in Elements(d);
    var p := s[..|s| - 1];
    var last := s[|s| - 1];
    assert s == p + [last];
    var dp := Dedup(p);
    assert d == Add(dp, last);
    assert dp <= d;
    if j < |dp| {
      DedupOrder(p, i, j);
      FirstIndexPrefix(p, [last], d[i]);
      FirstIndexPrefix(p, [last], d[j]);
    } else {
      assert d[j] == last && last !in dp;
      assert last !in p by { assert Elements(dp) == Elements(p); }
      assert d[i] in Elements(dp);
      FirstIndexPrefix(p, [last], d[i]);
      assert FirstIndex(s, last) == |s| - 1;
    }
  }

  /** A duplicate-free sequence has as many values as positions. */
  lemma {:induction false} DistinctCardinality<T>(s: seq<T>)
    requires Distinct(s)
    ensures |Elements(s)| == |s|
    decreases |s|
  {
    if s != [] {
      var p := s[..|s| - 1];
      var last := s[|s| - 1];
      assert s == p + [last];
      assert Distinct(p) by {
        forall i, j | 0 <= i < j < |p| ensures p[i] != p[j] {
          assert p[i] == s[i] && p[j] == s[j];
        }
      }
      assert last !in Elements(p) by {
        forall k | 0 <= k < |p| ensures p[k] != last {
          assert p[k] == s[k];
        }
      }
      assert Elements(s) == Elements(p) + {last};
      DistinctCardinality(p);
    }
  }
}
