/** Collecting records into a map under their own keys. */
module Keyed {

  /** Collects items under their keys; a later item replaces an earlier one with the same key. */
  function Index<T>(items: seq<T>, key: T -> string): (m: map<string, T>)
    ensures forall k :: k in m ==> key(m[k]) == k
  {
    if items == [] then map[]
    else
      var n := |items| - 1;
      Index(items[..n], key)[key(items[n]) := items[n]]
  }

  /** The entry for a key is the last item with that key; there is none when no item has it. */
  lemma {:induction false} IndexFindsLast<T>(items: seq<T>, key: T -> string, i: nat)
    requires i < |items| && forall j :: i < j < |items| ==> key(items[j]) != key(items[i])
    ensures key(items[i]) in Index(items, key) && Index(items, key)[key(items[i])] == items[i]
  {
    var n := |items| - 1;
    if i < n {
      IndexFindsLast(items[..n], key, i);
    }
  }

  lemma {:induction false} IndexHasNoOthers<T>(items: seq<T>, key: T -> string, k: string)
    requires forall i :: 0 <= i < |items| ==> key(items[i]) != k
    ensures k !in Index(items, key)
  {
    if items == [] {
    } else {
      IndexHasNoOthers(items[..|items| - 1], key, k);
    }
  }
}
