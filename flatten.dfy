/** `flatten_json`: turns a nested JSON object into one flat, insertion-ordered
    dict. A nested object under `key` is flattened with its keys prefixed by
    `key_`; a list under `key` is spread over the keys `key_0`, `key_1`, ...
    with its elements stored as they are; anything else is stored under its
    (prefixed) key. Later writes to a key overwrite earlier ones in place. */
module Flatten {
  import opened Json
  import opened Decimal
  import opened OrderedDict

  /** Writes `items[..n]` under `base + "0"`, `base + "1"`, ... (the inner
      `enumerate` loop). */
  function PutItems(acc: Dict<JVal>, base: string, items: seq<JVal>, n: nat): (r: Dict<JVal>)
    requires n <= |items|
    ensures Valid(acc) ==> Valid(r)
  {
    if n == 0 then acc
    else Put(PutItems(acc, base, items, n - 1), base + NatToString(n - 1), items[n - 1])
  }

  /** Every key of `d` starts with `p`. */
  predicate KeysStartWith(d: Dict<JVal>, p: string)
  {
    forall k :: k in d.order ==> p <= k
  }

  lemma PutKeysStartWith(d: Dict<JVal>, k: string, v: JVal, p: string)
    requires KeysStartWith(d, p) && p <= k
    ensures KeysStartWith(Put(d, k, v), p)
  {
  }

  lemma KeysStartWithWeaken(d: Dict<JVal>, p: string, q: string)
    requires KeysStartWith(d, p + q)
    ensures KeysStartWith(d, p)
  {
  }

  lemma UpdateKeysStartWith(d: Dict<JVal>, other: Dict<JVal>, p: string)
    requires Valid(d) && Valid(other)
    requires KeysStartWith(d, p) && KeysStartWith(other, p)
    ensures KeysStartWith(Update(d, other), p)
  {
    UpdateSpec(d, other);
  }

  /** The inner list loop adds only keys that start with `base`, so it keeps
      every prefix `p` of `base` that the keys already had. */
  lemma {:induction false} PutItemsKeysStartWith(acc: Dict<JVal>, base: string, items: seq<JVal>, n: nat, p: string)
    requires n <= |items|
    requires KeysStartWith(acc, p) && p <= base
    ensures forall k :: k in PutItems(acc, base, items, n).order && k !in acc.order ==> base <= k
    ensures KeysStartWith(PutItems(acc, base, items, n), p)
  {
    if n > 0 {
      PutItemsKeysStartWith(acc, base, items, n - 1, p);
      var k := base + NatToString(n - 1);
      assert base <= k;
      assert k[..|p|] == base[..|p|];
      PutKeysStartWith(PutItems(acc, base, items, n - 1), k, items[n - 1], p);
    }
  }

  /** The dict `flatten_json(obj, prefix)` returns, as a fold over the
      object's items. Every key it holds starts with `prefix`. */
  function Flatten(obj: Fields, prefix: string): (r: Dict<JVal>)
    ensures Valid(r)
    ensures KeysStartWith(r, prefix)
    decreases FieldsSize(obj), |obj|
  {
    if obj == [] then Empty()
    else
      FieldsSizeLast(obj);
      var acc := Flatten(obj[..|obj| - 1], prefix);
      var (key, value) := obj[|obj| - 1];
      match value
      case JObj(sub) =>
        var inner := Flatten(sub, prefix + key + "_");
        KeysStartWithWeaken(inner, prefix, key + "_");
        UpdateKeysStartWith(acc, inner, prefix);
        Update(acc, inner)
      case JList(items) =>
        PutItemsKeysStartWith(acc, prefix + key + "_", items, |items|, prefix);
        PutItems(acc, prefix + key + "_", items, |items|)
      case JScalar(_) =>
        PutKeysStartWith(acc, prefix + key, value, prefix);
        Put(acc, prefix + key, value)
  }

  /** `flatten_json` itself: one loop over the object's items, a recursive
      call for each nested object and an inner loop for each list. */
  method FlattenJson(obj: Fields, prefix: string) returns (flat: Dict<JVal>)
    ensures flat == Flatten(obj, prefix)
    decreases FieldsSize(obj)
  {
    flat := Empty();
    var i := 0;
    while i < |obj|
      invariant 0 <= i <= |obj|
      invariant flat == Flatten(obj[..i], prefix)
    {
      var (key, value) := obj[i];
      assert obj[..i + 1][..i] == obj[..i];
      match value {
        case JObj(sub) =>
          FieldsSizeAt(obj, i);
          var inner := FlattenJson(sub, prefix + key + "_");
          flat := Update(flat, inner);
        case JList(items) =>
          ghost var before := flat;
          var j := 0;
          while j < |items|
            invariant 0 <= j <= |items|
            invariant flat == PutItems(before, prefix + key + "_", items, j)
          {
            flat := Put(flat, prefix + key + "_" + NatToString(j), items[j]);
            j := j + 1;
          }
        case JScalar(_) =>
          flat := Put(flat, prefix + key, value);
      }
      i := i + 1;
    }
    assert obj[..i] == obj;
  }

  // ---------------------------------------------------------------------
  // Reference definition: the writes a depth-first walk performs

  /** The (key, value) assignments of one list under `base`, in list order. */
  function ListWrites(base: string, items: seq<JVal>): (w: seq<(string, JVal)>)
  {
    seq(|items|, i requires 0 <= i < |items| => (base + NatToString(i), items[i]))
  }

  /** Every assignment a depth-first walk of `obj` performs, in the order it
      performs them, with no dict involved. */
  function Writes(obj: Fields, prefix: string): seq<(string, JVal)>
    decreases FieldsSize(obj), |obj|
  {
    if obj == [] then []
    else
      FieldsSizeLast(obj);
      var (key, value) := obj[|obj| - 1];
      Writes(obj[..|obj| - 1], prefix) +
        match value
        case JObj(sub) => Writes(sub, prefix + key + "_")
        case JList(items) => ListWrites(prefix + key + "_", items)
        case JScalar(_) => [(prefix + key, value)]
  }

  /** Leaves reached through nested objects (each scalar counts one, each
      list counts its length). */
  function LeafCount(obj: Fields): nat
    decreases FieldsSize(obj), |obj|
  {
    if obj == [] then 0
    else
      FieldsSizeLast(obj);
      LeafCount(obj[..|obj| - 1]) +
        match obj[|obj| - 1].1
        case JObj(sub) => LeafCount(sub)
        case JList(items) => |items|
        case JScalar(_) => 1
  }

  lemma {:induction false} WritesLength(obj: Fields, prefix: string)
    ensures |Writes(obj, prefix)| == LeafCount(obj)
    decreases FieldsSize(obj), |obj|
  {
    if obj != [] {
      FieldsSizeLast(obj);
      WritesLength(obj[..|obj| - 1], prefix);
      var (key, value) := obj[|obj| - 1];
      if value.JObj? {
        WritesLength(value.fields, prefix + key + "_");
      }
    }
  }

  lemma {:induction false} WritesConcat(a: Fields, b: Fields, prefix: string)
    ensures Writes(a + b, prefix) == Writes(a, prefix) + Writes(b, prefix)
    decreases |b|
  {
    if b == [] {
      assert a + b == a;
    } else {
      var n := |b| - 1;
      assert (a + b)[..|a + b| - 1] == a + b[..n];
      WritesConcat(a, b[..n], prefix);
    }
  }

  lemma {:induction false} PutItemsReplay(acc: Dict<JVal>, base: string, items: seq<JVal>, n: nat)
    requires n <= |items|
    ensures PutItems(acc, base, items, n) == PutAll(acc, ListWrites(base, items)[..n])
  {
    if n > 0 {
      var w := ListWrites(base, items);
      var k := base + NatToString(n - 1);
      assert w[..n] == w[..n - 1] + [(k, items[n - 1])];
      calc {
        PutItems(acc, base, items, n);
        Put(PutItems(acc, base, items, n - 1), k, items[n - 1]);
        { PutItemsReplay(acc, base, items, n - 1); }
        Put(PutAll(acc, w[..n - 1]), k, items[n - 1]);
        { PutAllSnoc(acc, w[..n - 1], (k, items[n - 1])); }
        PutAll(acc, w[..n]);
      }
    }
  }

  /** Flattening is replaying the depth-first writes into an empty dict. */
  lemma {:induction false} FlattenReplaysWrites(obj: Fields, prefix: string)
    ensures Flatten(obj, prefix) == PutAll(Empty(), Writes(obj, prefix))
    decreases FieldsSize(obj), |obj|
  {
    if obj != [] {
      FieldsSizeLast(obj);
      var init := obj[..|obj| - 1];
      var (key, value) := obj[|obj| - 1];
      var wi := Writes(init, prefix);
      var acc := Flatten(init, prefix);
      var e: Dict<JVal> := Empty();
      FlattenReplaysWrites(init, prefix);
      match value {
        case JObj(sub) =>
          var ws := Writes(sub, prefix + key + "_");
          FlattenReplaysWrites(sub, prefix + key + "_");
          UpdateWithReplay(acc, ws);
          PutAllConcat(e, wi, ws);
        case JList(items) =>
          var ws := ListWrites(prefix + key + "_", items);
          PutItemsReplay(acc, prefix + key + "_", items, |items|);
          assert ws[..|items|] == ws;
          PutAllConcat(e, wi, ws);
        case JScalar(_) =>
          var w := wi + [(prefix + key, value)];
          assert w[..|w| - 1] == wi;
      }
    }
  }

  // ---------------------------------------------------------------------
  // Properties of flatten_json

  /** Keys appear in the order of their first write and hold their last
      written value: on a collision the later write wins and the key stays
      where it was first inserted. */
  lemma FlattenOrderAndValues(obj: Fields, prefix: string)
    ensures Flatten(obj, prefix).order == AppendNew([], Keys(Writes(obj, prefix)))
    ensures Flatten(obj, prefix).values == LastWrites(Writes(obj, prefix))
  {
    var e: Dict<JVal> := Empty();
    FlattenReplaysWrites(obj, prefix);
    PutAllOrder(e, Writes(obj, prefix));
    PutAllValues(e, Writes(obj, prefix));
  }

  /** Flattening the items of an object in two halves and merging the second
      into the first with `update` gives the flattening of the whole. */
  lemma FlattenConcat(a: Fields, b: Fields, prefix: string)
    ensures Flatten(a + b, prefix) == Update(Flatten(a, prefix), Flatten(b, prefix))
  {
    var e: Dict<JVal> := Empty();
    FlattenReplaysWrites(a + b, prefix);
    FlattenReplaysWrites(a, prefix);
    FlattenReplaysWrites(b, prefix);
    WritesConcat(a, b, prefix);
    PutAllConcat(e, Writes(a, prefix), Writes(b, prefix));
    UpdateWithReplay(Flatten(a, prefix), Writes(b, prefix));
  }

  /** A nested object under `key` contributes exactly the flattening of that
      object under the prefix `key_`, in that flattening's order. */
  lemma NestedObjectContributes(key: string, sub: Fields, prefix: string)
    ensures Flatten([(key, JObj(sub))], prefix) == Flatten(sub, prefix + key + "_")
  {
    var e: Dict<JVal> := Empty();
    var obj := [(key, JObj(sub))];
    assert obj[..0] == [];
    FlattenReplaysWrites(sub, prefix + key + "_");
    UpdateWithReplay(e, Writes(sub, prefix + key + "_"));
  }

  /** A list of n items under `key` contributes the keys `key_0` ... `key_(n-1)`,
      in that order, each holding the matching item unflattened. */
  lemma ListContributes(key: string, items: seq<JVal>, prefix: string)
    ensures |Flatten([(key, JList(items))], prefix).order| == |items|
    ensures forall i :: 0 <= i < |items| ==>
      Flatten([(key, JList(items))], prefix).order[i] == prefix + key + "_" + NatToString(i)
    ensures forall i :: 0 <= i < |items| ==>
      Flatten([(key, JList(items))], prefix).values[prefix + key + "_" + NatToString(i)] == items[i]
  {
    var base := prefix + key + "_";
    var obj := [(key, JList(items))];
    var w := ListWrites(base, items);
    var r := Flatten(obj, prefix);
    assert Items(r) == w by {
      assert obj[..0] == [];
      assert Writes(obj, prefix) == w;
      FlattenReplaysWrites(obj, prefix);
      ListKeysDistinct(base, items);
      ReplayDistinct(w);
    }
    forall i | 0 <= i < |items|
      ensures r.order[i] == base + NatToString(i) && r.values[base + NatToString(i)] == items[i]
    {
      assert Items(r)[i] == w[i];
    }
  }

  /** A nested object among other items: its flattening under `key_` is merged
      with `update` after the items before it, and the items after it are
      merged after that. */
  lemma NestedObjectAmongItems(before: Fields, key: string, sub: Fields, after: Fields, prefix: string)
    ensures Flatten(before + [(key, JObj(sub))] + after, prefix)
         == Update(Update(Flatten(before, prefix), Flatten(sub, prefix + key + "_")), Flatten(after, prefix))
  {
    var mid := [(key, JObj(sub))];
    FlattenConcat(before + mid, after, prefix);
    FlattenConcat(before, mid, prefix);
    NestedObjectContributes(key, sub, prefix);
  }

  /** Item `i` of a list under `key`, among other items, ends up under
      `prefix + key + "_" + i`, unflattened, unless a later item writes that
      same key again. */
  lemma ListItemStored(before: Fields, key: string, items: seq<JVal>, after: Fields, prefix: string, i: nat)
    requires i < |items|
    requires forall j :: 0 <= j < |Writes(after, prefix)| ==>
      Writes(after, prefix)[j].0 != prefix + key + "_" + NatToString(i)
    ensures prefix + key + "_" + NatToString(i) in Flatten(before + [(key, JList(items))] + after, prefix).order
    ensures Flatten(before + [(key, JList(items))] + after, prefix).values[prefix + key + "_" + NatToString(i)] == items[i]
  {
    var base := prefix + key + "_";
    var obj := before + [(key, JList(items))] + after;
    var wb := Writes(before, prefix);
    var wl := ListWrites(base, items);
    var wa := Writes(after, prefix);
    var w := Writes(obj, prefix);
    assert w == wb + wl + wa by {
      WritesAroundList(before, key, items, after, prefix);
    }
    var at := |wb| + i;
    assert w[at] == (base + NatToString(i), items[i]);
    assert forall j :: at < j < |w| ==> w[j].0 != w[at].0 by {
      ListKeysDistinct(base, items);
      forall j | at < j < |w|
        ensures w[j].0 != w[at].0
      {
        if j < |wb| + |wl| {
          assert Keys(wl)[i] != Keys(wl)[j - |wb|];
        } else {
          assert w[j] == wa[j - |wb| - |wl|];
        }
      }
    }
    LastWriteWins(w, at);
    FlattenOrderAndValues(obj, prefix);
    assert w[at].0 in Keys(w);
  }

  lemma WritesAroundList(before: Fields, key: string, items: seq<JVal>, after: Fields, prefix: string)
    ensures Writes(before + [(key, JList(items))] + after, prefix)
         == Writes(before, prefix) + ListWrites(prefix + key + "_", items) + Writes(after, prefix)
  {
    var mid := [(key, JList(items))];
    assert mid[..0] == [];
    assert Writes(mid, prefix) == ListWrites(prefix + key + "_", items);
    WritesConcat(before + mid, after, prefix);
    WritesConcat(before, mid, prefix);
  }

  lemma ListKeysDistinct(base: string, items: seq<JVal>)
    ensures Distinct(Keys(ListWrites(base, items)))
  {
    var ks := Keys(ListWrites(base, items));
    forall i, j | 0 <= i < j < |ks|
      ensures ks[i] != ks[j]
    {
      NatToStringInjective(i, j);
      assert ks[i][|base|..] == NatToString(i);
      assert ks[j][|base|..] == NatToString(j);
    }
  }

  /** A scalar under `key` ends up under `prefix + key`, unchanged, unless a
      later item of the object writes that same key again. */
  lemma ScalarStored(before: Fields, key: string, v: JVal, after: Fields, prefix: string)
    requires v.JScalar?
    requires forall i :: 0 <= i < |Writes(after, prefix)| ==> Writes(after, prefix)[i].0 != prefix + key
    ensures prefix + key in Flatten(before + [(key, v)] + after, prefix).order
    ensures Flatten(before + [(key, v)] + after, prefix).values[prefix + key] == v
  {
    var mid := [(key, v)];
    var obj := before + mid + after;
    assert mid[..0] == [];
    assert Writes(mid, prefix) == [(prefix + key, v)];
    WritesConcat(before + mid, after, prefix);
    WritesConcat(before, mid, prefix);
    var wb := Writes(before, prefix);
    var wa := Writes(after, prefix);
    var w := Writes(obj, prefix);
    assert w == wb + [(prefix + key, v)] + wa;
    assert w[|wb|] == (prefix + key, v);
    LastWriteWins(w, |wb|);
    FlattenOrderAndValues(obj, prefix);
    assert prefix + key in Keys(w);
  }

  /** The result is empty exactly when the object reaches no leaf: every value
      is, recursively, an empty object or an empty list. */
  lemma FlattenEmptyIff(obj: Fields, prefix: string)
    ensures Flatten(obj, prefix) == Empty() <==> LeafCount(obj) == 0
  {
    var w := Writes(obj, prefix);
    var r := Flatten(obj, prefix);
    WritesLength(obj, prefix);
    FlattenOrderAndValues(obj, prefix);
    FirstOccurrenceOrder(Keys(w));
    if LeafCount(obj) == 0 {
      assert Keys(w) == [];
      assert r.values == map[];
    } else {
      assert w[0].0 in Keys(w);
      assert w[0].0 in r.order;
    }
  }

  /** When no two leaves produce the same key, the result has one entry per
      leaf, in depth-first order, each holding its leaf. */
  lemma FlattenWithoutCollisions(obj: Fields, prefix: string)
    requires Distinct(Keys(Writes(obj, prefix)))
    ensures Items(Flatten(obj, prefix)) == Writes(obj, prefix)
    ensures |Flatten(obj, prefix).order| == LeafCount(obj)
  {
    FlattenReplaysWrites(obj, prefix);
    ReplayDistinct(Writes(obj, prefix));
    WritesLength(obj, prefix);
  }

  /** A top-level `"a_b"` and a nested `{"a": {"b": ...}}` collide: whichever
      comes later supplies the value, and the key keeps the first position. */
  lemma Collision(a: string, b: string, x: Scalar, y: Scalar, prefix: string)
    ensures Flatten([(a + "_" + b, JScalar(x))] + [(a, JObj([(b, JScalar(y))]))], prefix)
         == Dict([prefix + a + "_" + b], map[prefix + a + "_" + b := JScalar(y)])
    ensures Flatten([(a, JObj([(b, JScalar(y))]))] + [(a + "_" + b, JScalar(x))], prefix)
         == Dict([prefix + a + "_" + b], map[prefix + a + "_" + b := JScalar(x)])
  {
    var k := prefix + a + "_" + b;
    var top: Fields := [(a + "_" + b, JScalar(x))];
    var inner: Fields := [(b, JScalar(y))];
    var nested: Fields := [(a, JObj(inner))];
    var dx := Dict([k], map[k := JScalar(x)]);
    var dy := Dict([k], map[k := JScalar(y)]);
    assert Flatten(top, prefix) == dx by {
      assert top[..0] == [];
      assert prefix + (a + "_" + b) == k;
    }
    assert Flatten(nested, prefix) == dy by {
      NestedObjectContributes(a, inner, prefix);
      assert inner[..0] == [];
    }
    assert Flatten(top + nested, prefix) == dy by {
      FlattenConcat(top, nested, prefix);
      OverwriteSameKey(dx, dy);
    }
    assert Flatten(nested + top, prefix) == dx by {
      FlattenConcat(nested, top, prefix);
      OverwriteSameKey(dy, dx);
    }
  }

  lemma OverwriteSameKey(d1: Dict<JVal>, d2: Dict<JVal>)
    requires Valid(d1) && Valid(d2) && |d1.order| == 1 && d1.order == d2.order
    ensures Update(d1, d2) == d2
  {
    UpdateSpec(d1, d2);
    var ks := d1.order;
    assert ks[..0] == [];
    assert AppendNew(ks, ks) == ks;
    assert d1.values.Keys == d2.values.Keys;
  }
}
