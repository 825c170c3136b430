# pgraphs utilities, modelled in Dafny

This project models `src/utils.js` of the pgraphs repository. The file has
three helpers that the graph exporters share:

- `IDMap` is a table that gives arbitrary identifier strings short labels.
  The labels are `base + "1"`, `base + "2"`, and so on, handed out in the
  order the identifiers are first seen. An identifier keeps its label from
  then on.
- `graph(nodes, edges)` builds a graph value. Its nodes are the values of
  the node dictionary, listed by sorted key, and its edges are passed
  through unchanged.
- `addProperties(props, properties)` merges `(key, values)` pairs into a
  property dictionary, in place. Each key's values become an
  insertion-ordered `Set` while the merge runs, and are turned back into
  arrays at the end.

Modules, in dependency order:

- `Sequences` (`sequences.dfy`) represents a JavaScript `Set` as a
  duplicate-free sequence in insertion order.
  - `Add` is `set.add(v)`.
  - `AppendAbsent` adds several values in turn.
  - `Dedup` is `new Set(xs)`.
  - The lemmas give their algebra: building a set twice, concatenation,
    first-occurrence order and cardinality.
- `Decimal` (`decimal.dfy`) is the decimal rendering of a number, as a
  template literal prints it. A parse round trip proves that rendering is
  injective.
- `IdMapping` (`id_map.dfy`) is the class `IDMap`.
  - Its field `entries` is the underlying `Map`.
  - A ghost field `order` records the identifiers in the order they were
    first seen.
  - `Valid()` is the invariant that `order[i]` carries label `i + 1`. It
    implies that labels are unique and are exactly `base+"1"` to
    `base+"size"`.
  - `Step` and `Run` are the value-level reference for one call and for a
    whole sequence of calls.
- `StringOrder` (`string_order.dfy`) is the default order of `sort()` on
  strings, with lemmas that it is a strict total order. `SortedKeys` is the
  ascending enumeration of a key set, and it is the only strictly ascending
  sequence with those members.
- `Graphs` (`graphs.dfy`) is `graph`.
- `PropertyMerge` (`properties.dfy`) is `addProperties`.
  - `Merge` is a key-by-key reference definition of the result.
  - The class `Properties` models the dictionary object. Each value is held
    in a `Slot`, which is either a plain array or a `Set`; this models the
    source's `instanceof Set` test.
  - The method `AddProperties` runs the source's two loops on that object
    and is proved to leave it equal to `Merge`.
  - The loop invariant of the first loop is `IsStaged`: every key handled
    so far holds a `Set`, and every other key still holds the caller's
    array.

When the caller omits the dictionary, the source uses a fresh `{}`. Here
the parameter is nullable with default `null`, and `null` stands for
"omitted". The model then allocates an empty `Properties` object and returns
it.

Only a key that a call names is rebuilt. Line 31 of `src/utils.js` runs `new Set(...)` on
that key's existing array, so duplicates in it are dropped, and line 35
builds a new key's set from its values. An array the caller stored with
duplicates under a key that no pair names is never rebuilt and keeps them
(`MergeUntouched`).

## Model

| member | source | states |
|---|---|---|
| IdMapping.IDMap.constructor | src/utils.js:6-9 | A new table has the given base (default empty), no entries, and satisfies the invariant |
| IdMapping.IDMap.Size | src/utils.js:15 | `size` is the number of distinct identifiers mapped so far |
| IdMapping.IDMap.Lookup | src/utils.js:12-13 | `has(id)` holds exactly for identifiers seen before; `get(id)` is then the label of the position where the identifier first appeared |
| IdMapping.IDMap.Map | src/utils.js:11-19 | Keeps the invariant. A known id returns its stored label and leaves the table unchanged. A new id returns and stores `base + (size+1)`, and size grows by one. The new table is the old one plus that single entry |
| IdMapping.Label | src/utils.js:15 | The label starts with `base` and continues with the decimal digits of the number |
| IdMapping.LabelInjective | src/utils.js:15 | Different numbers give different labels |
| Decimal.Show | src/utils.js:15 | The decimal text of a number is non-empty, all digits, and has no leading zero |
| Decimal.ParseShow | src/utils.js:15 | Reading the decimal text back gives the number |
| Decimal.ShowInjective | src/utils.js:15 | Different numbers have different decimal texts |
| IdMapping.Step | src/utils.js:11-19 | One call keeps every old entry, adds the id, and gives a new id label `size+1` |
| IdMapping.StepEnumerated | src/utils.js:11-19 | One call preserves the invariant, with the id added to the order of appearance if new |
| IdMapping.AppendEnumerated | src/utils.js:15-17 | Storing a new id under `base + (size+1)` extends the enumeration by that id |
| IdMapping.EnumeratedSize | src/utils.js:15 | Under the invariant the table's size is the number of identifiers seen |
| IdMapping.EnumeratedRank | src/utils.js:12-17 | An id is in the table exactly when it was seen, and its label carries the rank of its first appearance |
| IdMapping.EnumeratedInjective | src/utils.js:15-16 | No two identifiers share a label |
| IdMapping.EnumeratedLabels | src/utils.js:15-16 | The labels in use are exactly `base+"1"` to `base+"size"` |
| IdMapping.Run | src/utils.js:6-19 | A fresh table after any sequence of `map` calls holds exactly the identifiers passed |
| IdMapping.RunEnumerated | src/utils.js:6-8 | Any sequence of calls from an empty table numbers the distinct ids 1, 2, ... in order of first appearance |
| IdMapping.RunLabels | src/utils.js:15-16 | Over any sequence of calls, the k-th distinct id is labelled `base + k` |
| IdMapping.RunSnoc | src/utils.js:11-19 | One more call on a table built by a sequence of calls is one more step |
| StringOrder.Less | src/utils.js:23 | A proper prefix sorts before the longer string, and no string sorts before itself |
| StringOrder.LessByPositions | src/utils.js:23 | The recursive string order agrees with its positional one: a proper prefix sorts first, otherwise the first differing character decides |
| StringOrder.LessIrreflexive | src/utils.js:23 | No string sorts before itself |
| StringOrder.LessTransitive | src/utils.js:23 | The string order is transitive |
| StringOrder.LessTotal | src/utils.js:23 | Any two different strings are ordered one way or the other |
| StringOrder.LessAsymmetric | src/utils.js:23 | Two strings are never each before the other |
| StringOrder.LeastExists | src/utils.js:23 | Every non-empty key set has a least key |
| StringOrder.SortedKeys | src/utils.js:23 | `Object.keys(nodes).sort()` is strictly ascending, holds exactly the keys, and has one entry per key |
| StringOrder.AscendingUnique | src/utils.js:23 | Every strictly ascending enumeration of a key set is the sorted one, so the order depends only on the set |
| Graphs.BuildGraph | src/utils.js:22-25 | `edges` are returned unchanged. There is one node per key, and node i is the value of the i-th key in sorted order |
| Graphs.BuildGraphByAscendingKeys | src/utils.js:22-25 | Listing the keys in any strictly ascending order gives exactly the graph's nodes, whatever order the dictionary was built in |
| Graphs.BuildGraphTwoKeys | src/utils.js:22-25 | A dictionary with two keys lists the value of the smaller key first, whichever key was inserted first |
| Graphs.BuildGraphExample | src/utils.js:22-25 | `{b: "B", a: "A"}` gives nodes `["A", "B"]` and the edges as given |
| Sequences.Add | src/utils.js:33 | `set.add(v)` adds `v` to the members and keeps the old order as a prefix; a value already present changes nothing |
| Sequences.AppendAbsent | src/utils.js:33 | Adding values in turn adds exactly their members and keeps the set duplicate-free with the old order as a prefix |
| Sequences.Dedup | src/utils.js:31 | `new Set(xs)` is duplicate-free and has the members of `xs` |
| Sequences.AppendAbsentIsDedup | src/utils.js:31-33 | Adding values to the set built from an array is building a set from the array followed by the values |
| Sequences.DedupDedup | src/utils.js:31 | Building a set from a set's members plus more values is building it once from everything |
| Sequences.DedupOrder | src/utils.js:31-35 | A built set lists its members in the order of their first occurrence |
| Sequences.DistinctCardinality | src/utils.js:15 | A duplicate-free sequence has as many members as positions |
| PropertyMerge.Properties.constructor | src/utils.js:27 | The default `{}` holds nothing and holds only arrays |
| PropertyMerge.Properties.FromMap | src/utils.js:27 | A caller's object of arrays reads as the given dictionary |
| PropertyMerge.Merge | src/utils.js:27-44 | Reference definition of the result, key by key: a key some pair names gets the set of its old values followed by all values given for it, and every other key keeps its value. Its properties are the lemmas below |
| PropertyMerge.ValuesForMembers | src/utils.js:28-36 | A value is among those given for a key exactly when some pair with that key lists it |
| PropertyMerge.MergeTouched | src/utils.js:29-36 | A key named in `props` ends up duplicate-free. It holds its old values and every value given for it in any pair, and the set of its old values comes first |
| PropertyMerge.MergeMembers | src/utils.js:29-36 | A key named in `props` holds a value afterwards exactly when it held it before or some pair with that key lists it |
| PropertyMerge.MergeOrder | src/utils.js:29-41 | A touched key's values are ordered by first occurrence among its old values followed by all values given for it |
| PropertyMerge.MergeUntouched | src/utils.js:28-42 | The keys afterwards are the old keys plus those of `props`. A key no pair names keeps its value exactly, duplicates included |
| PropertyMerge.MergeSplit | src/utils.js:28-42 | Merging `a` and then `b` is merging `a ++ b` at once |
| PropertyMerge.MergeIdempotent | src/utils.js:28-42 | Merging the same pairs a second time changes nothing |
| PropertyMerge.MergeOneKey | src/utils.js:28-42 | Pairs that all carry one key, merged into `{}`, give that key the set of all their values |
| PropertyMerge.MergeExampleDedup | src/utils.js:27-44 | `[["color", ["red", "blue", "red"]]]` on a fresh dictionary gives `{color: ["red", "blue"]}` |
| PropertyMerge.MergeOneKeyTwice | src/utils.js:27-44 | Two calls for one key on a fresh dictionary give that key the set of both value lists |
| PropertyMerge.MergeExampleAccumulate | src/utils.js:27-44 | `[["tag", ["x"]]]` and then `[["tag", ["y", "x"]]]` on the same fresh dictionary give `{tag: ["x", "y"]}` |
| PropertyMerge.ConvertedSlot | src/utils.js:29-35 | Whatever a key holds when its pair comes up, the `Set` it is given (kept, converted with `new Set`, or new) is the one the staging predicts |
| PropertyMerge.StagedStepAt | src/utils.js:33 | Handling one more pair adds its values to its own key's `Set` and leaves every other key as it was |
| PropertyMerge.StagedStep | src/utils.js:28-37 | One round of the first loop keeps the dictionary staged |
| PropertyMerge.SetAt | src/utils.js:29-35 | The `Set` a key is given before its values are added has that key's old members, with no duplicates when it was converted from an array, and a key not present starts empty |
| PropertyMerge.SetAtStaged | src/utils.js:29-35 | In a staged dictionary that `Set` is the one the staging predicts |
| PropertyMerge.AddPairStaged | src/utils.js:29-36 | One round, as `AddPair` performs it, keeps the dictionary staged |
| PropertyMerge.StagedStart | src/utils.js:27-28 | Before the first round, a dictionary of arrays is staged with nothing handled |
| PropertyMerge.StagedFinalAt | src/utils.js:38-41 | Once all pairs are handled, each key's items are its merged value |
| PropertyMerge.StagedMerged | src/utils.js:38-41 | Once all pairs are handled, the staged dictionary reads as the merge |
| PropertyMerge.FinishedMerged | src/utils.js:38-43 | After both loops every value is an array and the dictionary is the merge |
| PropertyMerge.AddValues | src/utils.js:33 | `for (let v of values) properties[key].add(v)` adds the values in turn to the key's `Set`; no other key changes |
| PropertyMerge.AddPair | src/utils.js:29-36 | One pair. A present key is converted to a `Set` unless it holds one already, then its values are added. A missing key gets `new Set(values)`. No other key changes |
| PropertyMerge.FinishSets | src/utils.js:38-42 | The second loop turns every `Set` into an array of its members in insertion order. It keeps the keys and leaves arrays as they are |
| PropertyMerge.AddProperties | src/utils.js:27-44 | Returns the dictionary passed in, updated in place, or a fresh one when it is omitted. Every value afterwards is an array, and the dictionary equals `Merge` of its old contents and `props` |

## Left out

- `CSVWriter` (src/utils.js:1-2) is a re-export of a third-party CSV writer with no logic of its own.
- `IDMap` inherits `set`, `delete` and `clear` from `Map`. Calling them directly breaks the label invariant; only `map`, `has`/`get` (as `Lookup`) and `size` are modelled.
- IdMapping.IDMap.constructor: `base` is a constant field. The source lets callers reassign `this.base` later, which would change later labels; that is not modelled.
- Decimal.Show: the count is an unbounded natural number. JavaScript numbers lose integer precision above 2^53, which no table reaches in practice.
- StringOrder.Less: `sort()` compares strings by UTF-16 code units. The model compares the characters of a `seq<char>` lexicographically, which can differ for characters outside the Basic Multilingual Plane.
- PropertyMerge.AddProperties: `key in properties` (line 29) is also true for a name inherited through the prototype chain, such as `toString` or `__proto__`. Line 31 then passes the inherited function or `Object.prototype` to `new Set`, which is not iterable, so the call throws a `TypeError`. The model sees only the object's own keys and gives such a key a fresh set.
- PropertyMerge.AddProperties: non-iterable `props` or `values` throw a `TypeError` in the source. The model's types rule such inputs out.
- PropertyMerge.AddProperties: `Set` compares values by SameValueZero (`NaN` equals `NaN`). The model uses Dafny equality on a generic value type.
- PropertyMerge.AddProperties: requires every value of a caller's dictionary to be an array. A caller-stored `Set` would also be converted by the second loop; that case is not modelled.
- PropertyMerge.AddProperties: the source's optional argument defaults to a fresh `{}`. The model takes `null` for "omitted".
- PropertyMerge.AddValues: the source adds to the `Set` object stored in the dictionary one value at a time. The model builds the extended set in a local and stores it once. No other code runs in between, so the result is the same, but aliasing of the `Set` object is not represented.
