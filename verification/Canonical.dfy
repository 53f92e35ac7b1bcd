/**
 Canonical JSON (`src/dispatch_auth.rs`, `sort_json_value`): every object is rebuilt through a sorted
 map, and the result is printed.  The printer is a stream of tokens with the leaves as atoms.
 */
module Canonical {
  import opened ByteOrder
  import opened Json
  import opened KeyOrder

  // ----- Sorting -----

  /** Collecting entries into a map; a later entry replaces an earlier one with the same key. */
  function ToMap(entries: seq<Entry>): map<string, Json> {
    if entries == [] then map[]
    else ToMap(entries[..|entries| - 1])[entries[|entries| - 1].key := entries[|entries| - 1].value]
  }

  /** The entries of a sorted map in iteration order. */
  function FromMap(m: map<string, Json>): seq<Entry> {
    var keys := SortedKeys(m.Keys);
    seq(|keys|, i requires 0 <= i < |keys| => assert keys[i] in keys; Entry(keys[i], m[keys[i]]))
  }

  function SortJson(v: Json): Json {
    match v
    case Array(items) => Array(seq(|items|, i requires 0 <= i < |items| => SortJson(items[i])))
    case Object(entries) => Object(FromMap(ToMap(SortValues(entries))))
    case _ => v
  }

  function SortValues(entries: seq<Entry>): (r: seq<Entry>)
    ensures |r| == |entries|
    ensures forall i :: 0 <= i < |entries| ==> r[i] == Entry(entries[i].key, SortJson(entries[i].value))
  {
    seq(|entries|, i requires 0 <= i < |entries| => Entry(entries[i].key, SortJson(entries[i].value)))
  }

  // ----- Trees that differ only in the order of object keys -----

  predicate UniqueKeys(entries: seq<Entry>) {
    forall i, j :: 0 <= i < j < |entries| ==> entries[i].key != entries[j].key
  }

  /** No object repeats a key.  Parsed and serialised values are always like this. */
  predicate WellFormed(v: Json) {
    match v
    case Array(items) => forall i :: 0 <= i < |items| ==> WellFormed(items[i])
    case Object(entries) => UniqueKeys(entries) && forall i :: 0 <= i < |entries| ==> WellFormed(entries[i].value)
    case _ => true
  }

  ghost predicate SameUpToKeyOrder(a: Json, b: Json) {
    match (a, b)
    case (Array(x), Array(y)) => |x| == |y| && forall i :: 0 <= i < |x| ==> SameUpToKeyOrder(x[i], y[i])
    case (Object(x), Object(y)) => |x| == |y| && forall i :: 0 <= i < |x| ==> HasTwin(x[i], y)
    case _ => a == b
  }

  /** Some entry has the same key and, up to key order, the same value. */
  ghost predicate HasTwin(e: Entry, entries: seq<Entry>) {
    exists j :: 0 <= j < |entries| && e.key == entries[j].key && SameUpToKeyOrder(e.value, entries[j].value)
  }

  /** Some entry has the same key and a value that sorts to the same value. */
  ghost predicate SortsLikeSome(e: Entry, entries: seq<Entry>) {
    exists j :: 0 <= j < |entries| && e.key == entries[j].key && SortJson(e.value) == SortJson(entries[j].value)
  }

  /** In every object the UTF-8 bytes of the keys ascend. */
  ghost predicate SortedThroughout(v: Json) {
    match v
    case Array(items) => forall i :: 0 <= i < |items| ==> SortedThroughout(items[i])
    case Object(entries) =>
      Ascending(Keys(entries)) && forall i :: 0 <= i < |entries| ==> SortedThroughout(entries[i].value)
    case _ => true
  }

  // ----- Maps and entries -----

  lemma {:induction false} ToMapKeys(entries: seq<Entry>)
    ensures forall k :: k in ToMap(entries) <==> exists i :: 0 <= i < |entries| && entries[i].key == k
  {
    if entries == [] {
    } else {
      var n := |entries| - 1;
      ToMapKeys(entries[..n]);
      forall k ensures k in ToMap(entries) <==> exists i :: 0 <= i < |entries| && entries[i].key == k {
        if k in ToMap(entries[..n]) {
          var i :| 0 <= i < n && entries[..n][i].key == k;
          assert entries[i].key == k;
        }
        if i :| 0 <= i < |entries| && entries[i].key == k {
          assert i < n ==> entries[..n][i].key == k;
        }
      }
    }
  }

  lemma {:induction false} ToMapAt(entries: seq<Entry>, i: nat)
    requires UniqueKeys(entries) && i < |entries|
    ensures entries[i].key in ToMap(entries) && ToMap(entries)[entries[i].key] == entries[i].value
  {
    var n := |entries| - 1;
    if i < n {
      ToMapAt(entries[..n], i);
    }
  }

  lemma {:induction false} ToMapSize(entries: seq<Entry>)
    requires UniqueKeys(entries)
    ensures |ToMap(entries)| == |entries|
  {
    if entries == [] {
    } else {
      var n := |entries| - 1;
      ToMapSize(entries[..n]);
      ToMapKeys(entries[..n]);
      assert entries[n].key !in ToMap(entries[..n]);
    }
  }

  lemma FromMapIsSorted(m: map<string, Json>)
    ensures Ascending(Keys(FromMap(m))) && UniqueKeys(FromMap(m))
  {
    hide Ascending;
    SortedKeysAreSorted(m.Keys);
    SortedKeysAscend(m.Keys);
    assert Keys(FromMap(m)) == SortedKeys(m.Keys);
    assert forall i :: 0 <= i < |FromMap(m)| ==> FromMap(m)[i].key == Keys(FromMap(m))[i];
  }

  /** Listing a map loses nothing. */
  lemma ToMapFromMap(m: map<string, Json>)
    ensures ToMap(FromMap(m)) == m
  {
    hide SortedKeys, ToMap;
    var entries := FromMap(m);
    var keys := SortedKeys(m.Keys);
    FromMapIsSorted(m);
    ToMapKeys(entries);
    forall k | k in m ensures k in ToMap(entries) && ToMap(entries)[k] == m[k] {
      var i :| 0 <= i < |keys| && keys[i] == k;
      ToMapAt(entries, i);
    }
    forall k | k in ToMap(entries) ensures k in m {
      var i :| 0 <= i < |entries| && entries[i].key == k;
      assert keys[i] in keys;
    }
  }

  /** Entries that are already in order are listed as they are. */
  lemma FromMapToMap(entries: seq<Entry>)
    requires Ascending(Keys(entries)) && UniqueKeys(entries)
    ensures FromMap(ToMap(entries)) == entries
  {
    hide SortedKeys, ToMap, StrictlySorted, Ascending;
    AscendingIffStrictlySorted(Keys(entries));
    var m := ToMap(entries);
    ToMapKeys(entries);
    ToMapSize(entries);
    assert |m.Keys| == |m|;
    SortedKeysAreSorted(m.Keys);
    var keys := Keys(entries);
    forall k ensures k in keys <==> k in SortedKeys(m.Keys) {
      if k in m {
        var i :| 0 <= i < |entries| && entries[i].key == k;
        assert keys[i] == k;
      }
      if k in keys {
        var i :| 0 <= i < |keys| && keys[i] == k;
        assert entries[i].key == k;
      }
    }
    SortedListingIsUnique(keys, SortedKeys(m.Keys));
    forall i | 0 <= i < |entries| ensures FromMap(m)[i] == entries[i] {
      ToMapAt(entries, i);
    }
  }

  // ----- Sorting is canonical -----

  lemma {:induction false} SortedIsFixed(v: Json)
    requires SortedThroughout(v) && WellFormed(v)
    ensures SortJson(v) == v
  {
    hide ToMap, FromMap, Ascending;
    match v {
      case Array(items) =>
        forall i | 0 <= i < |items| ensures SortJson(items[i]) == items[i] { SortedIsFixed(items[i]); }
        assert SortJson(v).items == items;
      case Object(entries) =>
        forall i | 0 <= i < |entries| ensures SortJson(entries[i].value) == entries[i].value {
          SortedIsFixed(entries[i].value);
        }
        assert SortValues(entries) == entries;
        FromMapToMap(entries);
      case _ =>
    }
  }

  /** What an object looks like after sorting: sorted keys, each with the sorted value of its entry. */
  lemma SortedObject(entries: seq<Entry>, i: nat)
    requires UniqueKeys(entries) && i < |entries|
    ensures |SortJson(Object(entries)).entries| == |entries|
    ensures exists j :: 0 <= j < |entries| && SortJson(Object(entries)).entries[i]
                                              == Entry(entries[j].key, SortJson(entries[j].value))
    ensures exists j :: 0 <= j < |entries| && SortJson(Object(entries)).entries[j]
                                              == Entry(entries[i].key, SortJson(entries[i].value))
  {
    hide SortedKeys, ToMap;
    var values := SortValues(entries);
    var m := ToMap(values);
    ToMapKeys(values);
    ToMapSize(values);
    var keys := SortedKeys(m.Keys);
    assert |m.Keys| == |m|;
    assert keys[i] in keys;
    var j :| 0 <= j < |values| && values[j].key == keys[i];
    ToMapAt(values, j);
    ToMapAt(values, i);
    var k :| 0 <= k < |keys| && keys[k] == values[i].key;
    assert FromMap(m)[k] == Entry(entries[i].key, SortJson(entries[i].value));
  }

  lemma {:induction false} SortJsonIsSorted(v: Json)
    requires WellFormed(v)
    ensures SortedThroughout(SortJson(v)) && WellFormed(SortJson(v))
  {
    hide Ascending, FromMap, ToMap;
    match v {
      case Array(items) =>
        forall i | 0 <= i < |items| ensures SortedThroughout(SortJson(items[i])) && WellFormed(SortJson(items[i])) {
          SortJsonIsSorted(items[i]);
        }
      case Object(entries) =>
        FromMapIsSorted(ToMap(SortValues(entries)));
        var r := SortJson(v).entries;
        forall i | 0 <= i < |r| ensures SortedThroughout(r[i].value) && WellFormed(r[i].value) {
          if entries == [] {
            EmptyObject();
          } else {
            SortedObject(entries, 0);
            SortedObject(entries, i);
            var j :| 0 <= j < |entries| && r[i] == Entry(entries[j].key, SortJson(entries[j].value));
            SortJsonIsSorted(entries[j].value);
          }
        }
      case _ =>
    }
  }

  lemma EmptyObject()
    ensures SortJson(Object([])) == Object([])
  {
  }

  lemma {:induction false} SortedIsSameUpToKeyOrder(v: Json)
    requires WellFormed(v)
    ensures SameUpToKeyOrder(SortJson(v), v)
  {
    hide FromMap, ToMap;
    match v {
      case Array(items) =>
        forall i | 0 <= i < |items| ensures SameUpToKeyOrder(SortJson(items[i]), items[i]) {
          SortedIsSameUpToKeyOrder(items[i]);
        }
      case Object(entries) =>
        if entries == [] {
          EmptyObject();
        } else {
          SortedObject(entries, 0);
          var r := SortJson(v).entries;
          forall i | 0 <= i < |r| ensures HasTwin(r[i], entries) {
            SortedObject(entries, i);
            var j :| 0 <= j < |entries| && r[i] == Entry(entries[j].key, SortJson(entries[j].value));
            SortedIsSameUpToKeyOrder(entries[j].value);
          }
        }
      case _ =>
    }
  }

  /** Values that sort to the same value differ only in key order. */
  lemma {:induction false} SortedAlikeAreSame(a: Json, b: Json)
    requires WellFormed(a) && WellFormed(b) && SortJson(a) == SortJson(b)
    ensures SameUpToKeyOrder(a, b)
  {
    hide FromMap, ToMap;
    match a {
      case Array(items) =>
        forall i | 0 <= i < |items| ensures SameUpToKeyOrder(items[i], b.items[i]) {
          assert SortJson(a).items[i] == SortJson(b).items[i];
          SortedAlikeAreSame(items[i], b.items[i]);
        }
      case Object(x) =>
        SortedAlikeObjects(x, b.entries);
        forall i | 0 <= i < |x| ensures HasTwin(x[i], b.entries) {
          assert SortsLikeSome(x[i], b.entries);
          var j :| 0 <= j < |b.entries| && x[i].key == b.entries[j].key && SortJson(x[i].value) == SortJson(b.entries[j].value);
          SortedAlikeAreSame(x[i].value, b.entries[j].value);
        }
      case _ =>
    }
  }

  lemma SortedAlikeObjects(x: seq<Entry>, y: seq<Entry>)
    requires UniqueKeys(x) && UniqueKeys(y) && SortJson(Object(x)) == SortJson(Object(y))
    ensures |x| == |y|
    ensures forall i :: 0 <= i < |x| ==> SortsLikeSome(x[i], y)
  {
    hide FromMap, ToMap;
    var p, q := ToMap(SortValues(x)), ToMap(SortValues(y));
    ToMapFromMap(p);
    ToMapFromMap(q);
    assert p == q;
    ToMapSize(SortValues(x));
    ToMapSize(SortValues(y));
    ToMapKeys(SortValues(y));
    forall i | 0 <= i < |x| ensures SortsLikeSome(x[i], y) {
      ToMapAt(SortValues(x), i);
      var j :| 0 <= j < |y| && SortValues(y)[j].key == x[i].key;
      ToMapAt(SortValues(y), j);
    }
  }

  /** Values that differ only in key order sort to the same value. */
  lemma {:induction false} SameSortAlike(a: Json, b: Json)
    requires WellFormed(a) && WellFormed(b) && SameUpToKeyOrder(a, b)
    ensures SortJson(a) == SortJson(b)
  {
    hide FromMap, ToMap;
    match a {
      case Array(items) =>
        forall i | 0 <= i < |items| ensures SortJson(items[i]) == SortJson(b.items[i]) {
          SameSortAlike(items[i], b.items[i]);
        }
        assert SortJson(a).items == SortJson(b).items;
      case Object(x) =>
        var y := b.entries;
        forall i | 0 <= i < |x| ensures SortsLikeSome(x[i], y) {
          assert HasTwin(x[i], y);
          var j :| 0 <= j < |y| && x[i].key == y[j].key && SameUpToKeyOrder(x[i].value, y[j].value);
          SameSortAlike(x[i].value, y[j].value);
        }
        MatchingEntriesSameMap(x, y);
      case _ =>
    }
  }

  lemma MatchingEntriesSameMap(x: seq<Entry>, y: seq<Entry>)
    requires UniqueKeys(x) && UniqueKeys(y) && |x| == |y|
    requires forall i :: 0 <= i < |x| ==> SortsLikeSome(x[i], y)
    ensures ToMap(SortValues(x)) == ToMap(SortValues(y))
  {
    hide ToMap;
    var p, q := ToMap(SortValues(x)), ToMap(SortValues(y));
    ToMapKeys(SortValues(x));
    forall k | k in p ensures k in q && p[k] == q[k] {
      var i :| 0 <= i < |x| && SortValues(x)[i].key == k;
      ToMapAt(SortValues(x), i);
      assert SortsLikeSome(x[i], y);
      var j :| 0 <= j < |y| && x[i].key == y[j].key && SortJson(x[i].value) == SortJson(y[j].value);
      ToMapAt(SortValues(y), j);
    }
    ToMapSize(SortValues(x));
    ToMapSize(SortValues(y));
    SubmapOfSameSize(p, q);
  }

  lemma SubmapOfSameSize(p: map<string, Json>, q: map<string, Json>)
    requires |p| == |q| && forall k :: k in p ==> k in q && p[k] == q[k]
    ensures p == q
  {
    assert |p.Keys| == |p| && |q.Keys| == |q|;
    assert p.Keys <= q.Keys && q.Keys == p.Keys + (q.Keys - p.Keys);
    assert |q.Keys| == |p.Keys| + |q.Keys - p.Keys|;
  }

  /** Sorting is exact: two values sort alike exactly when they differ only in the order of object keys. */
  lemma SortJsonIsExact(a: Json, b: Json)
    requires WellFormed(a) && WellFormed(b)
    ensures SortJson(a) == SortJson(b) <==> SameUpToKeyOrder(a, b)
  {
    hide SortJson, SameUpToKeyOrder, WellFormed;
    if SortJson(a) == SortJson(b) {
      SortedAlikeAreSame(a, b);
    }
    if SameUpToKeyOrder(a, b) {
      SameSortAlike(a, b);
    }
  }

  /** The sorted value is the only value in sorted order that differs from `v` in nothing but key order. */
  lemma SortJsonIsCanonical(u: Json, v: Json)
    requires WellFormed(u) && WellFormed(v)
    ensures u == SortJson(v) <==> SortedThroughout(u) && SameUpToKeyOrder(u, v)
  {
    hide SortJson, SameUpToKeyOrder, WellFormed, SortedThroughout;
    SortJsonIsSorted(v);
    SortedIsSameUpToKeyOrder(v);
    if SortedThroughout(u) && SameUpToKeyOrder(u, v) {
      SortedIsFixed(u);
      SameSortAlike(u, v);
    }
  }

  /** Sorting twice is sorting once. */
  lemma SortJsonIsIdempotent(v: Json)
    requires WellFormed(v)
    ensures SortJson(SortJson(v)) == SortJson(v)
  {
    hide SortJson, WellFormed, SortedThroughout;
    SortJsonIsSorted(v);
    SortedIsFixed(SortJson(v));
  }
}
