/** `addProperties(props, properties = {})` of src/utils.js: merges
    `(key, values)` pairs into a property dictionary, keeping each touched
    key's values free of duplicates and in first-seen order. */
module PropertyMerge {
  import opened Sequences

  /** A dictionary value during a merge: the plain array the caller stored,
      or the insertion-ordered `Set` it becomes once the merge touches it. */
  datatype Slot<V> = List(items: seq<V>) | OrderedSet(items: seq<V>)

  /** The keys of the pairs in `props`. */
  function KeysOf<V>(props: seq<(string, seq<V>)>): set<string> {
    set i | 0 <= i < |props| :: props[i].0
  }

  /** The values of every pair in `props` whose key is `k`, in order. */
  function ValuesFor<V>(props: seq<(string, seq<V>)>, k: string): seq<V>
    decreases |props|
  {
    if props == [] then []
    else
      var last := props[|props| - 1];
      ValuesFor(props[..|props| - 1], k) + (if last.0 == k then last.1 else [])
  }

  /** What the dictionary held under `k` before the merge (none: empty). */
  function Prior<V>(acc: map<string, seq<V>>, k: string): seq<V> {
    if k in acc then acc[k] else []
  }

  /** The dictionary after merging `props` into `acc`, stated key by key:
      a key of `props` gets its earlier values followed by all the values
      given for it, as an insertion-ordered set; every other key keeps its
      value as it was. */
  function Merge<V(==)>(acc: map<string, seq<V>>, props: seq<(string, seq<V>)>): map<string, seq<V>> {
    map k | k in acc.Keys + KeysOf(props) ::
      if k in KeysOf(props) then Dedup(Prior(acc, k) + ValuesFor(props, k)) else acc[k]
  }

  lemma KeysOfSnoc<V>(props: seq<(string, seq<V>)>, p: (string, seq<V>))
    ensures KeysOf(props + [p]) == KeysOf(props) + {p.0}
  {
    var q := props + [p];
    forall k | k in KeysOf(q) ensures k in KeysOf(props) + {p.0} {
      var i :| 0 <= i < |q| && q[i].0 == k;
      if i < |props| {
        assert q[i] == props[i];
      }
    }
    forall k | k in KeysOf(props) ensures k in KeysOf(q) {
      var i :| 0 <= i < |props| && props[i].0 == k;
      assert q[i] == props[i];
    }
    assert q[|props|] == p;
  }

  lemma {:induction false} KeysOfConcat<V>(a: seq<(string, seq<V>)>, b: seq<(string, seq<V>)>)
    ensures KeysOf(a + b) == KeysOf(a) + KeysOf(b)
    decreases |b|
  {
    if b == [] {
      assert a + b == a;
    } else {
      var init := b[..|b| - 1];
      var last := b[|b| - 1];
      assert a + b == (a + init) + [last];
      assert b == init + [last];
      KeysOfConcat(a, init);
      KeysOfSnoc(a + init, last);
      KeysOfSnoc(init, last);
    }
  }

  lemma ValuesForSnoc<V>(props: seq<(string, seq<V>)>, p: (string, seq<V>), k: string)
    ensures ValuesFor(props + [p], k) == ValuesFor(props, k) + (if p.0 == k then p.1 else [])
  {
    assert (props + [p])[..|props|] == props;
  }

  /** A key that no pair carries has no values. */
  lemma {:induction false} ValuesForAbsent<V>(props: seq<(string, seq<V>)>, k: string)
    requires k !in KeysOf(props)
    ensures ValuesFor(props, k) == []
    decreases |props|
  {
    if props != [] {
      var init := props[..|props| - 1];
      assert props == init + [props[|props| - 1]];
      KeysOfSnoc(init, props[|props| - 1]);
      ValuesForAbsent(init, k);
    }
  }

  /** The values for `k` in `a ++ b` are those in `a` followed by those in `b`. */
  lemma {:induction false} ValuesForConcat<V>(a: seq<(string, seq<V>)>, b: seq<(string, seq<V>)>, k: string)
    ensures ValuesFor(a + b, k) == ValuesFor(a, k) + ValuesFor(b, k)
    decreases |b|
  {
    if b == [] {
      assert a + b == a;
    } else {
      var init := b[..|b| - 1];
      var last := b[|b| - 1];
      assert a + b == (a + init) + [last];
      assert b == init + [last];
      ValuesForConcat(a, init, k);
      ValuesForSnoc(a + init, last, k);
      ValuesForSnoc(init, last, k);
    }
  }

  /** A value is among the values for `k` exactly when some pair with key
      `k` lists it. */
  lemma {:induction false} ValuesForMembers<V>(props: seq<(string, seq<V>)>, k: string, v: V)
    ensures v in ValuesFor(props, k) <==> exists i :: 0 <= i < |props| && props[i].0 == k && v in props[i].1
    decreases |props|
  {
    if props != [] {
      var init := props[..|props| - 1];
      var last := props[|props| - 1];
      ValuesForMembers(init, k, v);
      if v in ValuesFor(props, k) && !(v in ValuesFor(init, k)) {
        assert props[|props| - 1].0 == k && v in props[|props| - 1].1;
      }
      if exists i :: 0 <= i < |props| && props[i].0 == k && v in props[i].1 {
        var i :| 0 <= i < |props| && props[i].0 == k && v in props[i].1;
        if i < |init| {
          assert init[i] == props[i];
        }
      }
    }
  }

  /** Every key named in `props` ends up with a duplicate-free sequence that
      holds its earlier values and all values given for it, the earlier
      values first, each once. */
  lemma MergeTouched<V>(acc: map<string, seq<V>>, props: seq<(string, seq<V>)>, k: string)
    requires k in KeysOf(props)
    ensures k in Merge(acc, props)
    ensures Distinct(Merge(acc, props)[k])
    ensures Elements(Merge(acc, props)[k]) == Elements(Prior(acc, k)) + Elements(ValuesFor(props, k))
    ensures Dedup(Prior(acc, k)) <= Merge(acc, props)[k]
  {
    var p, vs := Prior(acc, k), ValuesFor(props, k);
    assert Merge(acc, props)[k] == Dedup(p + vs);
    assert Elements(p + vs) == Elements(p) + Elements(vs) by {
      ElementsConcat(p, vs);
    }
    DedupPrefix(p, vs);
  }

  /** The values of a key named in `props` come in the order of their first
      occurrence among its earlier values followed by the values given for it. */
  lemma MergeOrder<V>(acc: map<string, seq<V>>, props: seq<(string, seq<V>)>, k: string, i: nat, j: nat)
    requires k in KeysOf(props)
    requires i < j < |Merge(acc, props)[k]|
    ensures Merge(acc, props)[k][i] in Prior(acc, k) + ValuesFor(props, k)
    ensures Merge(acc, props)[k][j] in Prior(acc, k) + ValuesFor(props, k)
    ensures FirstIndex(Prior(acc, k) + ValuesFor(props, k), Merge(acc, props)[k][i])
          < FirstIndex(Prior(acc, k) + ValuesFor(props, k), Merge(acc, props)[k][j])
  {
    var s := Prior(acc, k) + ValuesFor(props, k);
    assert Merge(acc, props)[k] == Dedup(s);
    DedupOrder(s, i, j);
  }

  /** The merged value of a key named in `props`. */
  lemma MergeAt<V>(acc: map<string, seq<V>>, props: seq<(string, seq<V>)>, k: string)
    requires k in KeysOf(props)
    ensures k in Merge(acc, props) && Merge(acc, props)[k] == Dedup(Prior(acc, k) + ValuesFor(props, k))
  {
  }

  /** A value is held under a key named in `props` exactly when the key held
      it before or some pair with that key lists it. */
  lemma MergeMembers<V>(acc: map<string, seq<V>>, props: seq<(string, seq<V>)>, k: string, v: V)
    requires k in KeysOf(props)
    ensures k in Merge(acc, props)
    ensures v in Merge(acc, props)[k] <==>
      v in Prior(acc, k) || exists i :: 0 <= i < |props| && props[i].0 == k && v in props[i].1
  {
    MergeTouched(acc, props, k);
    ValuesForMembers(props, k, v);
    assert v in Merge(acc, props)[k] <==> v in Elements(Merge(acc, props)[k]);
  }

  /** Keys that `props` does not name keep their value exactly, duplicates
      included, and the keys afterwards are the old ones plus those of `props`. */
  lemma MergeUntouched<V>(acc: map<string, seq<V>>, props: seq<(string, seq<V>)>, k: string)
    ensures Merge(acc, props).Keys == acc.Keys + KeysOf(props)
    ensures k in acc && k !in KeysOf(props) ==> Merge(acc, props)[k] == acc[k]
  {
  }

  /** Key by key, merging `a` then `b` agrees with merging `a ++ b`. */
  lemma MergeSplitAt<V>(acc: map<string, seq<V>>, a: seq<(string, seq<V>)>, b: seq<(string, seq<V>)>, k: string)
    requires k in Merge(acc, a + b)
    ensures k in Merge(Merge(acc, a), b)
    ensures Merge(Merge(acc, a), b)[k] == Merge(acc, a + b)[k]
  {
    KeysOfConcat(a, b);
    ValuesForConcat(a, b, k);
    var m1 := Merge(acc, a);
    var p := Prior(acc, k);
    var va, vb := ValuesFor(a, k), ValuesFor(b, k);
    assert p + (va + vb) == (p + va) + vb;
    if k in KeysOf(a) {
      if k in KeysOf(b) {
        assert Prior(m1, k) == Dedup(p + va);
        DedupDedup(p + va, vb);
      } else {
        ValuesForAbsent(b, k);
        assert (p + va) + vb == p + va;
      }
    } else {
      ValuesForAbsent(a, k);
      assert p + va == p;
      if k in KeysOf(b) {
        assert Prior(m1, k) == p;
      }
    }
  }

  /** Merging `a` and then `b` is merging `a ++ b` at once. */
  lemma MergeSplit<V>(acc: map<string, seq<V>>, a: seq<(string, seq<V>)>, b: seq<(string, seq<V>)>)
    ensures Merge(Merge(acc, a), b) == Merge(acc, a + b)
  {
    var lhs := Merge(Merge(acc, a), b);
    var rhs := Merge(acc, a + b);
    KeysOfConcat(a, b);
    assert lhs.Keys == rhs.Keys;
    forall k | k in rhs ensures lhs[k] == rhs[k] {
      MergeSplitAt(acc, a, b, k);
    }
  }

  /** Merging the same pairs a second time changes nothing. */
  lemma MergeIdempotent<V>(acc: map<string, seq<V>>, props: seq<(string, seq<V>)>)
    ensures Merge(Merge(acc, props), props) == Merge(acc, props)
  {
    var m1 := Merge(acc, props);
    var m2 := Merge(m1, props);
    assert m2.Keys == m1.Keys;
    forall k | k in m2 ensures m2[k] == m1[k] {
      if k in KeysOf(props) {
        var d := m1[k];
        var vs := ValuesFor(props, k);
        assert Elements(d) == Elements(Prior(acc, k) + vs);
        assert Elements(vs) <= Elements(d);
        AppendAbsentIsDedup(d, vs);
        AppendAbsentPresent(d, vs);
      }
    }
  }

  /** Merging pairs that all carry the same key into an empty dictionary. */
  lemma MergeOneKey<V>(props: seq<(string, seq<V>)>, k: string)
    requires KeysOf(props) == {k}
    ensures Merge(map[], props) == map[k := Dedup(ValuesFor(props, k))]
  {
    var m := Merge(map[], props);
    var e: map<string, seq<V>> := map[];
    assert m[k] == Dedup(ValuesFor(props, k)) by {
      MergeAt(e, props, k);
      assert Prior(e, k) + ValuesFor(props, k) == ValuesFor(props, k);
    }
    assert m.Keys == {k} by {
      assert e.Keys == {};
    }
    SingletonMap(m, k, Dedup(ValuesFor(props, k)));
  }

  /** A map with the single key `k` is `map[k := m[k]]`. */
  lemma SingletonMap<W>(m: map<string, W>, k: string, w: W)
    requires m.Keys == {k} && m[k] == w
    ensures m == map[k := w]
  {
  }

  /** Merging a single pair into an empty dictionary. */
  lemma MergeOnePair<V>(k: string, vs: seq<V>)
    ensures Merge(map[], [(k, vs)]) == map[k := Dedup(vs)]
  {
    var props := [(k, vs)];
    assert KeysOf(props) == {k} by {
      assert props[0].0 == k;
    }
    assert ValuesFor(props, k) == vs by {
      ValuesForSnoc([], (k, vs), k);
      assert [] + props == props;
    }
    MergeOneKey(props, k);
  }

  /** The set built from `[a, b, a]` is `[a, b]`. */
  lemma DedupRepeat<T>(a: T, b: T)
    requires a != b
    ensures Dedup([a, b, a]) == [a, b]
  {
    var once := [a, b];
    assert Distinct(once);
    DedupDistinct(once);
    assert [a, b, a] == once + [a];
    DedupSnoc(once, a);
  }

  /** A fresh dictionary given `[["color", ["red", "blue", "red"]]]` holds
      `{color: ["red", "blue"]}`. */
  lemma MergeExampleDedup()
    ensures Merge(map[], [("color", ["red", "blue", "red"])]) == map["color" := ["red", "blue"]]
  {
    MergeOnePair("color", ["red", "blue", "red"]);
    DedupRepeat("red", "blue");
  }

  /** Two merges of one key each into a fresh dictionary collect that key's
      values of both, once each. */
  lemma MergeOneKeyTwice<V>(k: string, first: seq<V>, second: seq<V>)
    ensures Merge(Merge(map[], [(k, first)]), [(k, second)]) == map[k := Dedup(first + second)]
  {
    var a, b := [(k, first)], [(k, second)];
    var both := a + b;
    assert Merge(map[], both) == map[k := Dedup(first + second)] by {
      assert KeysOf(both) == {k} by {
        KeysOfConcat(a, b);
        assert a[0].0 == k && b[0].0 == k;
      }
      assert ValuesFor(both, k) == first + second by {
        ValuesForSnoc([], a[0], k);
        ValuesForSnoc(a, b[0], k);
        assert [] + a == a && a + [b[0]] == both;
      }
      MergeOneKey(both, k);
    }
    MergeSplit(map[], a, b);
  }

  /** Merging `[["tag", ["x"]]]` and then `[["tag", ["y", "x"]]]` into the
      same fresh dictionary leaves `{tag: ["x", "y"]}`. */
  lemma MergeExampleAccumulate()
    ensures Merge(Merge(map[], [("tag", ["x"])]), [("tag", ["y", "x"])]) == map["tag" := ["x", "y"]]
  {
    MergeOneKeyTwice("tag", ["x"], ["y", "x"]);
    assert ["x"] + ["y", "x"] == ["x", "y", "x"];
    DedupRepeat("x", "y");
  }

  /** The `Set` key `k` holds once the pairs `done` have been handled and
      the current pair's key has been converted. */
  ghost function Converted<V>(acc: map<string, seq<V>>, done: seq<(string, seq<V>)>, k: string): seq<V> {
    Dedup(Prior(acc, k) + ValuesFor(done, k))
  }

  /** What key `k` holds part-way through the first loop of `addProperties`,
      once the pairs `done` have been handled: a key of `done` holds a `Set`,
      any other key still holds the caller's array. */
  ghost function StagedAt<V>(acc: map<string, seq<V>>, done: seq<(string, seq<V>)>, k: string): Slot<V> {
    if k in KeysOf(done) then OrderedSet(Converted(acc, done, k)) else List(Prior(acc, k))
  }

  /** Whether the current pair's key already holds a `Set` or is converted
      now (`new Set(properties[key])`), it ends up holding `Converted`; a key
      seen nowhere yet starts from the empty set. */
  lemma ConvertedSlot<V>(acc: map<string, seq<V>>, done: seq<(string, seq<V>)>, k: string)
    ensures StagedAt(acc, done, k).OrderedSet? ==> StagedAt(acc, done, k).items == Converted(acc, done, k)
    ensures StagedAt(acc, done, k).List? ==> Dedup(StagedAt(acc, done, k).items) == Converted(acc, done, k)
    ensures k !in acc && k !in KeysOf(done) ==> Converted(acc, done, k) == []
  {
    if k !in KeysOf(done) {
      ValuesForAbsent(done, k);
      assert Prior(acc, k) + ValuesFor(done, k) == Prior(acc, k);
    }
  }

  /** Handling one more pair adds its values to its key's `Set` and leaves
      every other key as it was. */
  lemma StagedStepAt<V>(acc: map<string, seq<V>>, done: seq<(string, seq<V>)>, key: string, values: seq<V>, k: string)
    ensures StagedAt(acc, done + [(key, values)], k)
      == if k == key then OrderedSet(AppendAbsent(Converted(acc, done, key), values)) else StagedAt(acc, done, k)
  {
    var next := done + [(key, values)];
    KeysOfSnoc(done, (key, values));
    ValuesForSnoc(done, (key, values), k);
    if k == key {
      var y := Prior(acc, k) + ValuesFor(done, k);
      assert Prior(acc, k) + ValuesFor(next, k) == y + values;
      AppendAbsentIsDedup(Dedup(y), values);
      DedupDedup(y, values);
    } else {
      assert ValuesFor(next, k) == ValuesFor(done, k);
    }
  }

  /** Once all pairs are handled, each key's items are its merged value. */
  lemma StagedFinalAt<V>(acc: map<string, seq<V>>, props: seq<(string, seq<V>)>, k: string)
    requires k in acc.Keys + KeysOf(props)
    ensures k in Merge(acc, props) && StagedAt(acc, props, k).items == Merge(acc, props)[k]
  {
  }

  /** The values of a dictionary as its reader sees them. */
  function PlainOf<V>(slots: map<string, Slot<V>>): (m: map<string, seq<V>>)
    ensures m.Keys == slots.Keys
  {
    map k | k in slots :: slots[k].items
  }

  /** A JavaScript object used as a property dictionary. */
  class Properties<V> {
    var slots: map<string, Slot<V>>

    /** Between calls every value is a plain array. */
    ghost predicate Valid()
      reads this
    {
      forall k | k in slots :: slots[k].List?
    }

    /** The dictionary as the caller reads it. */
    function Plain(): map<string, seq<V>>
      reads this
    {
      PlainOf(slots)
    }

    /** The empty object literal `{}`. */
    constructor ()
      ensures Valid() && Plain() == map[]
    {
      slots := map[];
    }

    /** An object literal whose values are the caller's arrays. */
    constructor FromMap(m: map<string, seq<V>>)
      ensures Valid() && Plain() == m
    {
      slots := map k | k in m :: List(m[k]);
    }
  }

  /** `slots` is the dictionary once the pairs `done` have been handled. */
  ghost predicate IsStaged<V>(slots: map<string, Slot<V>>, acc: map<string, seq<V>>, done: seq<(string, seq<V>)>) {
    && slots.Keys == acc.Keys + KeysOf(done)
    && forall k | k in slots :: slots[k] == StagedAt(acc, done, k)
  }

  /** Handling one more pair keeps the dictionary staged. */
  lemma StagedStep<V>(before: map<string, Slot<V>>, after: map<string, Slot<V>>, acc: map<string, seq<V>>,
                      done: seq<(string, seq<V>)>, key: string, values: seq<V>)
    requires IsStaged(before, acc, done)
    requires after == before[key := OrderedSet(AppendAbsent(Converted(acc, done, key), values))]
    ensures IsStaged(after, acc, done + [(key, values)])
  {
    KeysOfSnoc(done, (key, values));
    assert after.Keys == acc.Keys + KeysOf(done + [(key, values)]);
    forall k | k in after ensures after[k] == StagedAt(acc, done + [(key, values)], k) {
      StagedStepAt(acc, done, key, values, k);
    }
  }

  /** In a staged dictionary the `Set` a key is given before its values are
      added is the one the staging predicts. */
  lemma SetAtStaged<V>(slots: map<string, Slot<V>>, acc: map<string, seq<V>>, done: seq<(string, seq<V>)>, key: string)
    requires IsStaged(slots, acc, done)
    ensures SetAt(slots, key) == Converted(acc, done, key)
  {
    ConvertedSlot(acc, done, key);
    if key !in slots {
      assert key !in acc && key !in KeysOf(done);
    }
  }

  /** One round of the first loop, as `AddPair` performs it, keeps the
      dictionary staged. */
  lemma AddPairStaged<V>(before: map<string, Slot<V>>, after: map<string, Slot<V>>, acc: map<string, seq<V>>,
                         done: seq<(string, seq<V>)>, key: string, values: seq<V>, next: seq<(string, seq<V>)>)
    requires IsStaged(before, acc, done) && next == done + [(key, values)]
    requires after == before[key := OrderedSet(AppendAbsent(SetAt(before, key), values))]
    ensures IsStaged(after, acc, next)
  {
    SetAtStaged(before, acc, done, key);
    StagedStep(before, after, acc, done, key, values);
  }

  /** `for (let v of values) properties[key].add(v)`: each value is added
      to the `Set` that `key` holds. */
  method AddValues<V(==)>(result: Properties<V>, key: string, values: seq<V>)
    requires key in result.slots && result.slots[key].OrderedSet?
    modifies result
    ensures result.slots == old(result.slots)[key := OrderedSet(AppendAbsent(old(result.slots)[key].items, values))]
  {
    var items := result.slots[key].items;
    ghost var set0 := items;
    var j := 0;
    while j < |values|
      invariant 0 <= j <= |values|
      invariant items == AppendAbsent(set0, values[..j])
      invariant result.slots == old(result.slots)
    {
      PrefixSnoc(values, j);
      AppendAbsentSnoc(set0, values[..j], values[j]);
      items := Add(items, values[j]);
      j := j + 1;
    }
    assert items == AppendAbsent(set0, values) by {
      assert values[..j] == values;
    }
    result.slots := result.slots[key := OrderedSet(items)];
  }

  /** The `Set` that `key` holds once the source has made sure it holds one:
      an existing `Set` as it is, an array converted by `new Set(array)`, and
      a new empty `Set` for a key not present. */
  function SetAt<V(==)>(slots: map<string, Slot<V>>, key: string): (r: seq<V>)
    ensures key !in slots ==> r == []
    ensures key in slots ==> Elements(r) == Elements(slots[key].items)
    ensures key in slots && slots[key].List? ==> Distinct(r)
  {
    if key !in slots then []
    else if slots[key].OrderedSet? then slots[key].items
    else Dedup(slots[key].items)
  }

  /** One round of the first loop of `addProperties`: the pair
      `(key, values)` is merged into the dictionary. */
  method AddPair<V(==)>(result: Properties<V>, key: string, values: seq<V>)
    modifies result
    ensures result.slots == old(result.slots)[key := OrderedSet(AppendAbsent(SetAt(old(result.slots), key), values))]
  {
    if key in result.slots {
      if !result.slots[key].OrderedSet? {
        result.slots := result.slots[key := OrderedSet(Dedup(result.slots[key].items))];
      }
      AddValues(result, key, values);
    } else {
      result.slots := result.slots[key := OrderedSet(Dedup(values))];
    }
  }

  /** The second loop of `addProperties`: every `Set` in the dictionary
      becomes an array of its members in insertion order. */
  method FinishSets<V>(result: Properties<V>)
    modifies result
    ensures result.slots.Keys == old(result.slots).Keys
    ensures forall k | k in result.slots :: result.slots[k] == List(old(result.slots)[k].items)
  {
    ghost var staged := result.slots;
    var pending := result.slots.Keys;
    while pending != {}
      invariant pending <= staged.Keys
      invariant result.slots.Keys == staged.Keys
      invariant forall k | k in pending :: result.slots[k] == staged[k]
      invariant forall k | k in staged && k !in pending :: result.slots[k] == List(staged[k].items)
      decreases pending
    {
      var key :| key in pending;
      if result.slots[key].OrderedSet? {
        result.slots := result.slots[key := List(result.slots[key].items)];
      }
      pending := pending - {key};
    }
  }

  /** Before the first round, a dictionary of plain arrays is staged with
      nothing handled. */
  lemma StagedStart<V>(slots: map<string, Slot<V>>)
    requires forall k | k in slots :: slots[k].List?
    ensures IsStaged(slots, PlainOf(slots), [])
  {
    assert KeysOf<V>([]) == {};
  }

  /** Once every pair is handled, the staged dictionary reads as the merge. */
  lemma StagedMerged<V>(staged: map<string, Slot<V>>, acc: map<string, seq<V>>, props: seq<(string, seq<V>)>)
    requires IsStaged(staged, acc, props)
    ensures PlainOf(staged) == Merge(acc, props)
  {
    var merged, plain := Merge(acc, props), PlainOf(staged);
    forall k | k in merged ensures plain[k] == merged[k] {
      StagedFinalAt(acc, props, k);
    }
  }

  /** After both loops the dictionary holds plain arrays whose values are
      the merge: turning every `Set` back into an array changes nothing a
      reader sees. */
  lemma FinishedMerged<V>(staged: map<string, Slot<V>>, final: map<string, Slot<V>>,
                          acc: map<string, seq<V>>, props: seq<(string, seq<V>)>)
    requires IsStaged(staged, acc, props[..|props|])
    requires final.Keys == staged.Keys
    requires forall k | k in final :: final[k] == List(staged[k].items)
    ensures forall k | k in final :: final[k].List?
    ensures PlainOf(final) == Merge(acc, props)
  {
    assert props[..|props|] == props;
    assert PlainOf(final) == PlainOf(staged);
    StagedMerged(staged, acc, props);
  }

  /** `addProperties(props, properties)`: merges `props` into `properties`
      in place and returns it; when no dictionary is passed (`null` here,
      `undefined` in the source) a fresh empty one is used and returned. */
  method AddProperties<V(==)>(props: seq<(string, seq<V>)>, properties: Properties?<V> := null)
    returns (result: Properties<V>)
    requires properties != null ==> properties.Valid()
    modifies properties
    ensures properties != null ==> result == properties
    ensures properties == null ==> fresh(result)
    ensures result.Valid()
    ensures result.Plain() == Merge(if properties == null then map[] else old(properties.Plain()), props)
  {
    if properties == null {
      result := new Properties();
    } else {
      result := properties;
    }
    ghost var acc := result.Plain();
    StagedStart(result.slots);
    assert props[..0] == [];

    var i := 0;
    while i < |props|
      invariant 0 <= i <= |props|
      invariant IsStaged(result.slots, acc, props[..i])
    {
      ghost var before, done, next := result.slots, props[..i], props[..i + 1];
      PrefixSnoc(props, i);
      AddPair(result, props[i].0, props[i].1);
      AddPairStaged(before, result.slots, acc, done, props[i].0, props[i].1, next);
      i := i + 1;
    }

    ghost var staged := result.slots;
    FinishSets(result);
    FinishedMerged(staged, result.slots, acc, props);
  }
}
