# flatten_json, modelled in Dafny

The JSON-to-CSV converter in `main.py` turns each JSON document into a
single CSV row. Its core is `flatten_json`, which turns a nested JSON object
into one flat, insertion-ordered dict. The dict's key order becomes the CSV
header. This project models that function and proves what it does with
prefixes, list indices, key collisions and key order.

- `json.dfy` (module `Json`): JSON values as `json.load` produces them.
  Objects are ordered (key, value) lists, as a dict's `.items()` yields them.
  Arrays are lists. Scalars are opaque leaves. The module also holds the size
  measure that proves recursion into nested objects terminates.
- `decimal.dfy` (module `Decimal`): the decimal text of a list index, as the
  f-string `{i}` writes a non-negative int.
- `ordered_dict.dfy` (module `OrderedDict`): the part of Python's
  insertion-ordered `dict` that the flattener uses. A dict is its key order
  plus a key-to-value map. `Put` is item assignment. `PutAll` replays a series
  of assignments. `Update` is `dict.update`.
- `flatten.dfy` (module `Flatten`): `FlattenJson` is the imperative function.
  It has an outer loop over the items, a recursive call for each nested
  object, and an inner loop for each list. It is proved equal to the fold
  `Flatten`. `Writes` is an independent reference: the sequence of
  assignments a depth-first walk performs. The main theorem is
  `FlattenReplaysWrites`: flattening equals replaying those writes into an
  empty dict. The listed properties follow from it.

## Model

| member | source | states |
|---|---|---|
| `Flatten.FlattenJson` | main.py:6-16 | The loops and the recursion return exactly `Flatten(obj, prefix)`. |
| `Flatten.Flatten` | main.py:6-16 | The result is a well-formed ordered dict. Every key in it starts with `prefix`. |
| `Flatten.PutItems` | main.py:12-13 | The inner `enumerate` loop, as a series of item assignments under `base + str(i)`. Its own contract only says it keeps the dict well-formed. `PutItemsReplay` and `ListContributes` state what it writes. |
| `Flatten.PutItemsKeysStartWith` | main.py:12-13 | Every key the inner loop adds, that is every key not already in the dict, starts with `base` (`prefix + key + "_"` where `flatten_json` calls it). So if every key of the dict already started with a prefix `p` of `base`, every key of the result does too. |
| `Flatten.PutItemsReplay` | main.py:12-13 | The first n rounds of the inner loop equal replaying the first n list assignments `(base + str(i), item i)`, in list order. |
| `Flatten.FlattenReplaysWrites` | main.py:8-15 | Flattening equals replaying, into an empty dict, the assignments of a depth-first walk in walk order. |
| `Flatten.WritesLength` | main.py:8-15 | The walk makes one assignment per scalar reached through nested objects, plus one per element of each list reached that way. |
| `Flatten.FlattenOrderAndValues` | main.py:8-15 | Keys appear in the order of their first assignment. Each key holds its last assigned value. |
| `Flatten.FlattenConcat` | main.py:8-10 | Flattening an object equals flattening its first items, then `update`-ing with the flattening of the rest. |
| `Flatten.NestedObjectContributes` | main.py:9-10 | A nested object under `key` contributes exactly `flatten_json(value, prefix + key + "_")`, in that call's order. |
| `Flatten.ListContributes` | main.py:11-13 | A list of n items under `key` yields keys `prefix+key+"_0"` … `prefix+key+"_"+(n-1)`, in that order. Each key holds its item as is, even when the item is an object or list. |
| `Flatten.NestedObjectAmongItems` | main.py:8-10 | For a nested object under `key` between other items: the result is the items before it, `update`-d with `flatten_json(value, prefix + key + "_")`, then `update`-d with the items after it. |
| `Flatten.ListItemStored` | main.py:11-13 | For a list under `key` between other items: item `i` is in the result under `prefix + key + "_" + str(i)`, unflattened, unless a later item writes that key again. |
| `Flatten.ListKeysDistinct` | main.py:12-13 | Different positions of one list get different keys. |
| `Flatten.ScalarStored` | main.py:14-15 | A scalar under `key` is in the result under `prefix + key`, unchanged, unless a later item writes that key again. |
| `Flatten.FlattenEmptyIff` | main.py:7-16 | The result is empty exactly when no leaf is reached. So an empty object, or one holding only empty objects and empty lists, gives an empty dict, and no other object does. |
| `Flatten.FlattenWithoutCollisions` | main.py:8-15 | When no two leaves produce the same key, the result's items are exactly the walk's assignments, in depth-first order. Its size is the leaf count. |
| `Flatten.Collision` | main.py:9-15 | Top-level `a_b` and nested `{a: {b: …}}` give one key. The later item's value wins. |
| `Flatten.OverwriteSameKey` | main.py:10 | `update` with a dict holding the same single key replaces the value and keeps the order. |
| `OrderedDict.Empty` | main.py:7 | `{}`: a well-formed dict with no keys. |
| `OrderedDict.Put` | main.py:13-15 | Item assignment. Its own contract only says it keeps the dict well-formed. `PutSemantics` states what it does. |
| `OrderedDict.Update` | main.py:10 | `dict.update`: its own contract says the result is well-formed. `UpdateSpec` and `UpdateWithReplay` state what it does. |
| `OrderedDict.PutSemantics` | main.py:13-15 | Item assignment sets the key's value and leaves other keys alone. A new key goes to the end. An existing key keeps its position. |
| `OrderedDict.PutAllOrder` | main.py:13-15 | A series of assignments appends each new key at its first assignment. |
| `OrderedDict.PutAllValues` | main.py:13-15 | After a series of assignments, each key holds its last assigned value. |
| `OrderedDict.LastWriteWins` | main.py:13-15 | A key's final value is the value of its last assignment. |
| `OrderedDict.FirstOccurrenceOrder` | main.py:7-16 | The key order holds the distinct assigned keys, sorted by where each was first assigned. |
| `OrderedDict.UpdateSpec` | main.py:10 | `d.update(other)` appends `other`'s new keys in `other`'s order. `other`'s values take precedence. |
| `OrderedDict.UpdateWithReplay` | main.py:10 | `update` with a dict built from assignments equals replaying those assignments directly. |
| `OrderedDict.ReplayDistinct` | main.py:13-15 | Assignments to distinct keys build the dict whose items are exactly those assignments, in order. |
| `OrderedDict.PutAllConcat` | main.py:8-15 | Replaying two series of assignments one after the other equals replaying their concatenation. |
| `OrderedDict.AppendNew` | main.py:13-15 | The new key order keeps the old keys first. It holds exactly the old and the assigned keys. It has no duplicates when the old order has none. |
| `Decimal.NatToString` | main.py:13 | The index text is non-empty and all digits. It has a leading `0` only for 0. |
| `Decimal.ParseNatToString` | main.py:13 | Reading the index text back gives the index. |
| `Decimal.NatToStringInjective` | main.py:13 | Two indices have the same text exactly when they are equal. |

## Left out

- `process_json_file` (main.py:18-31) is not modelled. It opens and parses the file, derives the `.csv` name and writes the row with `csv.DictWriter`. All of this is file I/O and calls into library code. The model takes the parsed object as its input. Its result's key order is what becomes the header.
- `main` (main.py:33-38) is not modelled. It finds files with a recursive `glob`, which is filesystem I/O.
- The progress `print` (main.py:31) is not modelled.
- A document whose top level is not an object is not modelled. `flatten_json` raises `AttributeError` on `.items()` for such a document. The model's input type is an object's items, so that case cannot be expressed.
- JSON numbers are not interpreted. They are kept as their source text, because flattening only copies leaves and never inspects them.
- That the input is never modified (main.py:8 only reads `.items()`) is not stated as a lemma. Dafny values are immutable, so the model cannot modify its input.
- The model does not enforce that an object's keys are distinct, as a Python dict's are. None of the results depends on it.
- Put: its own contract states only that the dict stays well-formed. What assignment does is stated by the lemma `PutSemantics`. Quantified clauses on `Put` itself would be unfolded at every step of `PutAll` and made the replay proofs too costly.
- Update: its own contract states only that the result is well-formed. What `update` does is stated by the lemmas `UpdateSpec` and `UpdateWithReplay`, for the same reason as `Put`.
- PutItems: its own contract states only that the dict stays well-formed. What the loop writes is stated by `PutItemsReplay`, `PutItemsKeysStartWith` and `ListContributes`.
