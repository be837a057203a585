/** The part of Python's insertion-ordered `dict` with string keys that the
    flattener uses: item assignment, replaying a series of assignments, and
    `update` from another dict. A dict is the order in which its keys were
    first inserted together with the current value of each key. */
module OrderedDict {

  datatype Dict<V> = Dict(order: seq<string>, values: map<string, V>)

  predicate Distinct(ks: seq<string>)
  {
    forall i, j :: 0 <= i < j < |ks| ==> ks[i] != ks[j]
  }

  /** Every key appears once in the order, and the order lists exactly the keys. */
  predicate Valid<V>(d: Dict<V>)
  {
    && Distinct(d.order)
    && (forall k :: k in d.values ==> k in d.order)
    && (forall k :: k in d.order ==> k in d.values)
  }

  function Empty<V>(): (d: Dict<V>)
    ensures Valid(d) && d.order == []
  {
    Dict([], map[])
  }

  /** `d[k] = v`. */
  function Put<V>(d: Dict<V>, k: string, v: V): (r: Dict<V>)
    ensures Valid(d) ==> Valid(r)
  {
    if k in d.values then Dict(d.order, d.values[k := v])
    else Dict(d.order + [k], d.values[k := v])
  }

  /** After `d[k] = v`, `k` holds `v` and every other key is as before; a new
      key goes to the end of the order, an existing key keeps its place. */
  lemma PutSemantics<V>(d: Dict<V>, k: string, v: V)
    requires Valid(d)
    ensures k in Put(d, k, v).values && Put(d, k, v).values[k] == v
    ensures forall x :: x != k ==> (x in Put(d, k, v).values <==> x in d.values)
    ensures forall x :: x != k && x in d.values ==> Put(d, k, v).values[x] == d.values[x]
    ensures k in d.order ==> Put(d, k, v).order == d.order
    ensures k !in d.order ==> Put(d, k, v).order == d.order + [k]
  {
  }

  /** The keys of a series of writes. */
  function Keys<V>(w: seq<(string, V)>): (ks: seq<string>)
    ensures |ks| == |w| && forall i :: 0 <= i < |w| ==> ks[i] == w[i].0
  {
    seq(|w|, i requires 0 <= i < |w| => w[i].0)
  }

  /** `o` followed by the keys of `ks` not seen before, each at its first occurrence. */
  function AppendNew(o: seq<string>, ks: seq<string>): (r: seq<string>)
    ensures |o| <= |r| && r[..|o|] == o
    ensures forall x :: x in r <==> x in o || x in ks
    ensures Distinct(o) ==> Distinct(r)
  {
    if ks == [] then o
    else
      var r := AppendNew(o, ks[..|ks| - 1]);
      if ks[|ks| - 1] in r then r else r + [ks[|ks| - 1]]
  }

  /** The value each key holds after a series of writes: the last one written. */
  function LastWrites<V>(w: seq<(string, V)>): (m: map<string, V>)
  {
    if w == [] then map[]
    else LastWrites(w[..|w| - 1])[w[|w| - 1].0 := w[|w| - 1].1]
  }

  /** Performs the writes of `w` on `d`, first to last. */
  function PutAll<V>(d: Dict<V>, w: seq<(string, V)>): (r: Dict<V>)
    ensures Valid(d) ==> Valid(r)
  {
    if w == [] then d
    else Put(PutAll(d, w[..|w| - 1]), w[|w| - 1].0, w[|w| - 1].1)
  }

  /** `d.items()`, in order. */
  function Items<V>(d: Dict<V>): (w: seq<(string, V)>)
    requires Valid(d)
    ensures Keys(w) == d.order
  {
    seq(|d.order|, i requires 0 <= i < |d.order| => (d.order[i], d.values[d.order[i]]))
  }

  /** `d.update(other)`: assigns each item of `other` into `d`, in `other`'s order. */
  function Update<V>(d: Dict<V>, other: Dict<V>): (r: Dict<V>)
    requires Valid(d) && Valid(other)
    ensures Valid(r)
  {
    PutAll(d, Items(other))
  }

  /** Index of the first occurrence of `k` in `ks`. */
  function FirstIndex(ks: seq<string>, k: string): (i: nat)
    requires k in ks
    ensures i < |ks| && ks[i] == k && k !in ks[..i]
  {
    if ks[0] == k then 0
    else
      assert k in ks[1..];
      var j := FirstIndex(ks[1..], k);
      assert ks[..j + 1] == [ks[0]] + ks[1..][..j];
      1 + j
  }

  // ---------------------------------------------------------------------
  // Replaying writes

  /** Replaying writes puts each new key at its first write... */
  lemma {:induction false} PutAllOrder<V>(d: Dict<V>, w: seq<(string, V)>)
    requires Valid(d)
    ensures PutAll(d, w).order == AppendNew(d.order, Keys(w))
  {
    if w == [] {
      assert Keys(w) == [];
    } else {
      var n := |w| - 1;
      var p := PutAll(d, w[..n]);
      PutAllOrder(d, w[..n]);
      var ks := Keys(w);
      assert ks[..|ks| - 1] == Keys(w[..n]);
      assert (w[n].0 in p.values) == (w[n].0 in p.order);
    }
  }

  /** ... and leaves every key holding its last written value. */
  lemma {:induction false} PutAllValues<V>(d: Dict<V>, w: seq<(string, V)>)
    ensures PutAll(d, w).values == d.values + LastWrites(w)
  {
    if w == [] {
      assert d.values + map[] == d.values;
    } else {
      var n := |w| - 1;
      PutAllValues(d, w[..n]);
    }
  }

  lemma {:induction false} PutAllConcat<V>(d: Dict<V>, a: seq<(string, V)>, b: seq<(string, V)>)
    ensures PutAll(d, a + b) == PutAll(PutAll(d, a), b)
    decreases |b|
  {
    if b == [] {
      assert a + b == a;
    } else {
      var n := |b| - 1;
      var (k, v) := b[n];
      var da := PutAll(d, a);
      assert a + b == (a + b[..n]) + [b[n]];
      assert b == b[..n] + [b[n]];
      calc {
        PutAll(d, a + b);
        { PutAllSnoc(d, a + b[..n], b[n]); }
        Put(PutAll(d, a + b[..n]), k, v);
        { PutAllConcat(d, a, b[..n]); }
        Put(PutAll(da, b[..n]), k, v);
        { PutAllSnoc(da, b[..n], b[n]); }
        PutAll(da, b);
      }
    }
  }

  lemma PutAllSnoc<V>(d: Dict<V>, w: seq<(string, V)>, x: (string, V))
    ensures PutAll(d, w + [x]) == Put(PutAll(d, w), x.0, x.1)
  {
  }

  /** Last write wins: a key holds the value of its last write. */
  lemma {:induction false} LastWriteWins<V>(w: seq<(string, V)>, i: nat)
    requires i < |w|
    requires forall j :: i < j < |w| ==> w[j].0 != w[i].0
    ensures w[i].0 in LastWrites(w) && LastWrites(w)[w[i].0] == w[i].1
  {
    if i < |w| - 1 {
      LastWriteWins(w[..|w| - 1], i);
    }
  }

  /** First insertion fixes the position: the keys of `AppendNew([], ks)` are
      the distinct keys of `ks`, ordered by where each first occurs. */
  lemma {:induction false} FirstOccurrenceOrder(ks: seq<string>)
    ensures Distinct(AppendNew([], ks))
    ensures forall x :: x in AppendNew([], ks) <==> x in ks
    ensures forall i, j :: 0 <= i < j < |AppendNew([], ks)| ==>
      FirstIndex(ks, AppendNew([], ks)[i]) < FirstIndex(ks, AppendNew([], ks)[j])
  {
    if ks != [] {
      var n := |ks| - 1;
      var init := ks[..n];
      var r0 := AppendNew([], init);
      FirstOccurrenceOrder(init);
      assert ks == init + [ks[n]];
      forall x | x in init
        ensures FirstIndex(ks, x) == FirstIndex(init, x)
      {
        FirstIndexExtend(init, ks[n], x);
      }
      if ks[n] !in r0 {
        var r := AppendNew([], ks);
        assert r == r0 + [ks[n]];
        assert FirstIndex(ks, ks[n]) == n by {
          FirstIndexExtendNew(init, ks[n]);
        }
        forall i, j | 0 <= i < j < |r|
          ensures FirstIndex(ks, r[i]) < FirstIndex(ks, r[j])
        {
          assert r[i] in init by { assert r[i] == r0[i]; }
          if j < |r0| {
            assert r[j] in init by { assert r[j] == r0[j]; }
          }
        }
      }
    }
  }

  lemma {:induction false} FirstIndexExtend(ks: seq<string>, k: string, x: string)
    requires x in ks
    ensures FirstIndex(ks + [k], x) == FirstIndex(ks, x)
  {
    if ks[0] != x {
      assert (ks + [k])[1..] == ks[1..] + [k];
      assert x in ks[1..];
      FirstIndexExtend(ks[1..], k, x);
    }
  }

  lemma FirstIndexExtendNew(ks: seq<string>, k: string)
    requires k !in ks
    ensures FirstIndex(ks + [k], k) == |ks|
  {
  }

  /** Merging in a deduplicated key series adds the same keys in the same
      places as merging in the series itself. */
  lemma {:induction false} AppendNewDeduplicated(o: seq<string>, ks: seq<string>)
    ensures AppendNew(o, AppendNew([], ks)) == AppendNew(o, ks)
  {
    if ks != [] {
      var n := |ks| - 1;
      var q := AppendNew([], ks[..n]);
      AppendNewDeduplicated(o, ks[..n]);
      if ks[n] !in q {
        assert (q + [ks[n]])[..|q|] == q;
      }
    }
  }

  lemma {:induction false} LastWritesItems<V>(d: Dict<V>)
    requires Valid(d)
    ensures LastWrites(Items(d)) == d.values
  {
    var w := Items(d);
    forall n | 0 <= n <= |w|
      ensures LastWrites(w[..n]) == map x | x in d.order[..n] :: d.values[x]
    {
      LastWritesItemsPrefix(d, n);
    }
    assert w[..|w|] == w;
    assert d.order[..|w|] == d.order;
  }

  lemma {:induction false} LastWritesItemsPrefix<V>(d: Dict<V>, n: nat)
    requires Valid(d) && n <= |d.order|
    ensures LastWrites(Items(d)[..n]) == map x | x in d.order[..n] :: d.values[x]
  {
    if n > 0 {
      LastWritesItemsPrefix(d, n - 1);
      assert Items(d)[..n][..n - 1] == Items(d)[..n - 1];
      assert d.order[..n] == d.order[..n - 1] + [d.order[n - 1]];
    }
  }

  /** `d.update(other)` adds `other`'s new keys in `other`'s order after `d`'s
      keys, and `other`'s values take precedence. */
  lemma UpdateSpec<V>(d: Dict<V>, other: Dict<V>)
    requires Valid(d) && Valid(other)
    ensures Update(d, other).order == AppendNew(d.order, other.order)
    ensures Update(d, other).values == d.values + other.values
  {
    PutAllOrder(d, Items(other));
    PutAllValues(d, Items(other));
    LastWritesItems(other);
  }

  /** Updating with the dict built from a series of writes is the same as
      replaying that series directly. */
  lemma UpdateWithReplay<V>(d: Dict<V>, w: seq<(string, V)>)
    requires Valid(d)
    ensures Update(d, PutAll(Empty(), w)) == PutAll(d, w)
  {
    var e: Dict<V> := Empty();
    var r := PutAll(e, w);
    assert Update(d, r).order == PutAll(d, w).order by {
      PutAllOrder(e, w);
      PutAllOrder(d, w);
      UpdateSpec(d, r);
      AppendNewDeduplicated(d.order, Keys(w));
    }
    assert r.values == LastWrites(w) by {
      PutAllValues(e, w);
    }
    assert Update(d, r).values == PutAll(d, w).values by {
      PutAllValues(d, w);
      UpdateSpec(d, r);
    }
  }

  /** A series of writes to distinct keys builds the dict whose items are
      exactly those writes, in order. */
  lemma ReplayDistinct<V>(w: seq<(string, V)>)
    requires Distinct(Keys(w))
    ensures Items(PutAll(Empty(), w)) == w
  {
    var e: Dict<V> := Empty();
    var d := PutAll(e, w);
    PutAllOrder(e, w);
    PutAllValues(e, w);
    AppendNewOfDistinct(Keys(w));
    forall i | 0 <= i < |w|
      ensures d.values[w[i].0] == w[i].1
    {
      LastWriteWins(w, i);
    }
  }

  lemma {:induction false} AppendNewOfDistinct(ks: seq<string>)
    requires Distinct(ks)
    ensures AppendNew([], ks) == ks
  {
    if ks != [] {
      AppendNewOfDistinct(ks[..|ks| - 1]);
    }
  }
}
