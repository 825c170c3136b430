/** The identifier table of src/utils.js (`IDMap`): arbitrary identifier
    strings are given the labels `base + "1"`, `base + "2"`, ... in the order
    in which they are first seen, and keep their label afterwards. */
module IdMapping {
  import opened Sequences
  import Decimal

  datatype Option<T> = None | Some(value: T)

  /** The label of the `n`-th distinct identifier: `${base}${n}`. */
  function Label(base: string, n: nat): (l: string)
    ensures base <= l
    ensures l[|base|..] == Decimal.Show(n)
  {
    base + Decimal.Show(n)
  }

  /** Different numbers give different labels, whatever the base. */
  lemma LabelInjective(base: string, a: nat, b: nat)
    ensures Label(base, a) == Label(base, b) ==> a == b
  {
    Decimal.ShowInjective(a, b);
  }

  /** The table after one lookup-or-assign of `id`: a known identifier
      leaves it as it is, an unknown one gets the number one past the size. */
  function Step(base: string, entries: map<string, string>, id: string): (e: map<string, string>)
    ensures e.Keys == entries.Keys + {id}
    ensures forall k :: k in entries ==> e[k] == entries[k]
    ensures id !in entries ==> e[id] == Label(base, |entries| + 1)
  {
    if id in entries then entries else entries[id := Label(base, |entries| + 1)]
  }

  /** The table after mapping `ids` in turn, starting from an empty one. */
  function Run(base: string, ids: seq<string>): (e: map<string, string>)
    ensures e.Keys == Elements(ids)
    decreases |ids|
  {
    if ids == [] then map[]
    else
      var init := ids[..|ids| - 1];
      assert ids == init + [ids[|ids| - 1]];
      Step(base, Run(base, init), ids[|ids| - 1])
  }

  /** `entries` holds exactly the identifiers of `order`, which are distinct,
      and gives `order[i]` the label number `i + 1`. */
  ghost predicate Enumerated(base: string, entries: map<string, string>, order: seq<string>) {
    && Distinct(order)
    && entries.Keys == Elements(order)
    && forall i :: 0 <= i < |order| ==> order[i] in entries && entries[order[i]] == Label(base, i + 1)
  }

  /** The size of an enumerated table is the number of identifiers seen. */
  lemma EnumeratedSize(base: string, entries: map<string, string>, order: seq<string>)
    requires Enumerated(base, entries, order)
    ensures |entries| == |order|
  {
    DistinctCardinality(order);
    assert |entries| == |entries.Keys|;
  }

  /** Every identifier's label carries the rank of its first appearance. */
  lemma EnumeratedRank(base: string, entries: map<string, string>, order: seq<string>, id: string)
    requires Enumerated(base, entries, order)
    ensures id in entries <==> id in order
    ensures id in entries ==> entries[id] == Label(base, FirstIndex(order, id) + 1)
  {
    assert id in order <==> id in Elements(order);
  }

  /** No two identifiers share a label. */
  lemma EnumeratedInjective(base: string, entries: map<string, string>, order: seq<string>, a: string, b: string)
    requires Enumerated(base, entries, order)
    requires a in entries && b in entries && a != b
    ensures entries[a] != entries[b]
  {
    EnumeratedRank(base, entries, order, a);
    EnumeratedRank(base, entries, order, b);
    var i, j := FirstIndex(order, a), FirstIndex(order, b);
    LabelInjective(base, i + 1, j + 1);
  }

  /** The labels in use are exactly `base + "1"` to `base + "size"`. */
  lemma EnumeratedLabels(base: string, entries: map<string, string>, order: seq<string>)
    requires Enumerated(base, entries, order)
    ensures entries.Values == set n: nat | 1 <= n <= |entries| :: Label(base, n)
  {
    EnumeratedSize(base, entries, order);
    var labels := set n: nat | 1 <= n <= |entries| :: Label(base, n);
    forall l | l in entries.Values ensures l in labels {
      var id :| id in entries && entries[id] == l;
      EnumeratedRank(base, entries, order, id);
      var i := FirstIndex(order, id);
      assert l == Label(base, i + 1);
    }
    forall l | l in labels ensures l in entries.Values {
      var n: nat :| 1 <= n <= |entries| && l == Label(base, n);
      assert order[n - 1] in entries && entries[order[n - 1]] == l;
    }
  }

  /** A new identifier is appended to the order of appearance with the next
      label number. */
  lemma AppendEnumerated(base: string, entries: map<string, string>, order: seq<string>, id: string)
    requires Enumerated(base, entries, order) && id !in order
    ensures Enumerated(base, entries[id := Label(base, |order| + 1)], order + [id])
  {
    var e, o := entries[id := Label(base, |order| + 1)], order + [id];
    assert Distinct(o) by {
      forall i, j | 0 <= i < j < |o| ensures o[i] != o[j] {
        if j < |order| {
          assert o[i] == order[i] && o[j] == order[j];
        } else {
          assert o[i] == order[i] && o[i] in order;
        }
      }
    }
    assert e.Keys == Elements(o) by {
      assert Elements(o) == Elements(order) + {id};
    }
    assert forall i :: 0 <= i < |o| ==> o[i] in e && e[o[i]] == Label(base, i + 1) by {
      forall i | 0 <= i < |o| ensures o[i] in e && e[o[i]] == Label(base, i + 1) {
        if i < |order| {
          assert o[i] == order[i] && order[i] != id;
        }
      }
    }
  }

  /** One lookup-or-assign keeps the table enumerated, with the identifier
      added to the order of appearance if it is new. */
  lemma StepEnumerated(base: string, entries: map<string, string>, order: seq<string>, id: string)
    requires Enumerated(base, entries, order)
    ensures Enumerated(base, Step(base, entries, id), Add(order, id))
  {
    EnumeratedRank(base, entries, order, id);
    if id in entries {
      assert Step(base, entries, id) == entries && Add(order, id) == order;
    } else {
      EnumeratedSize(base, entries, order);
      assert Step(base, entries, id) == entries[id := Label(base, |order| + 1)];
      assert Add(order, id) == order + [id];
      AppendEnumerated(base, entries, order, id);
    }
  }

  /** Any sequence of lookups from an empty table numbers the distinct
      identifiers 1, 2, ... in order of first appearance. */
  lemma {:induction false} RunEnumerated(base: string, ids: seq<string>)
    ensures Enumerated(base, Run(base, ids), Dedup(ids))
    decreases |ids|
  {
    if ids != [] {
      var init := ids[..|ids| - 1];
      RunEnumerated(base, init);
      StepEnumerated(base, Run(base, init), Dedup(init), ids[|ids| - 1]);
    }
  }

  /** The k-th distinct identifier of `ids` is labelled `base + k`. */
  lemma RunLabels(base: string, ids: seq<string>, k: nat)
    requires 1 <= k <= |Dedup(ids)|
    ensures Dedup(ids)[k - 1] in Run(base, ids)
    ensures Run(base, ids)[Dedup(ids)[k - 1]] == Label(base, k)
  {
    RunEnumerated(base, ids);
  }

  /** Mapping one more identifier is one more step. */
  lemma RunSnoc(base: string, ids: seq<string>, id: string)
    ensures Run(base, ids + [id]) == Step(base, Run(base, ids), id)
  {
    assert (ids + [id])[..|ids|] == ids;
  }

  /** `IDMap` extends the built-in `Map`; only its own `map` operation and the
      read-only `get`, `has` and `size` are modelled. */
  class IDMap {
    const base: string
    /** The underlying `Map` from identifier to label. */
    var entries: map<string, string>
    /** The identifiers in the order they were first mapped. */
    ghost var order: seq<string>

    ghost predicate Valid()
      reads this
    {
      Enumerated(base, entries, order)
    }

    constructor (base: string := "")
      ensures Valid()
      ensures this.base == base && entries == map[] && order == []
    {
      this.base := base;
      entries := map[];
      order := [];
    }

    /** `this.size`: the number of distinct identifiers mapped so far. */
    function Size(): (n: nat)
      requires Valid()
      reads this
      ensures n == |order|
    {
      EnumeratedSize(base, entries, order);
      |entries|
    }

    /** `this.has(id) ? this.get(id) : undefined`: an identifier seen before
      has the label of its rank of first appearance. */
    function Lookup(id: string): (r: Option<string>)
      requires Valid()
      reads this
      ensures r.Some? <==> id in order
      ensures r.Some? ==> r.value == Label(base, FirstIndex(order, id) + 1)
    {
      EnumeratedRank(base, entries, order, id);
      if id in entries then Some(entries[id]) else None
    }

    /** `map(id)`: the stored label of a known identifier; otherwise the
        label `base + (size + 1)`, which is stored first. */
    method Map(id: string) returns (mapped: string)
      requires Valid()
      modifies this
      ensures Valid()
      ensures entries == Step(base, old(entries), id) && mapped == entries[id]
      ensures order == Add(old(order), id)
      ensures id in old(entries) ==> mapped == old(entries[id]) && entries == old(entries)
      ensures id !in old(entries) ==> mapped == Label(base, old(Size()) + 1) && Size() == old(Size()) + 1
    {
      ghost var entries0, order0 := entries, order;
      if id in entries {
        mapped := entries[id];
      } else {
        mapped := Label(base, |entries| + 1);
        entries := entries[id := mapped];
        order := order + [id];
      }
      assert entries == Step(base, entries0, id);
      assert order == Add(order0, id) by {
        EnumeratedRank(base, entries0, order0, id);
      }
      assert Valid() by {
        StepEnumerated(base, entries0, order0, id);
      }
    }
  }
}
