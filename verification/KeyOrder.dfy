/** The order in which a sorted map iterates over its keys, comparing them character by character. */
module KeyOrder {

  predicate Leq(a: string, b: string) {
    a == "" || (b != "" && (a[0] < b[0] || (a[0] == b[0] && Leq(a[1..], b[1..]))))
  }

  lemma {:induction false} LeqIsTotal(a: string, b: string)
    ensures Leq(a, b) || Leq(b, a)
  {
    if a != "" && b != "" && a[0] == b[0] {
      LeqIsTotal(a[1..], b[1..]);
    }
  }

  lemma {:induction false} LeqIsAntisymmetric(a: string, b: string)
    requires Leq(a, b) && Leq(b, a)
    ensures a == b
  {
    if a == "" {
    } else {
      LeqIsAntisymmetric(a[1..], b[1..]);
      assert a == [a[0]] + a[1..] && b == [b[0]] + b[1..];
    }
  }

  lemma {:induction false} LeqIsTransitive(a: string, b: string, c: string)
    requires Leq(a, b) && Leq(b, c)
    ensures Leq(a, c)
  {
    if a != "" && a[0] == b[0] && b[0] == c[0] {
      LeqIsTransitive(a[1..], b[1..], c[1..]);
    }
  }

  predicate IsLeast(k: string, keys: set<string>) {
    k in keys && forall o :: o in keys ==> Leq(k, o)
  }

  lemma {:induction false} LeastExists(keys: set<string>)
    requires keys != {}
    ensures exists k :: IsLeast(k, keys)
  {
    hide Leq;
    var x :| x in keys;
    if keys == {x} {
      LeqIsTotal(x, x);
      assert IsLeast(x, keys);
    } else {
      LeastExists(keys - {x});
      var k :| IsLeast(k, keys - {x});
      LeqIsTotal(k, x);
      LeqIsTotal(x, x);
      if Leq(k, x) {
        assert IsLeast(k, keys);
      } else {
        forall o | o in keys ensures Leq(x, o) {
          if o != x {
            LeqIsTransitive(x, k, o);
          }
        }
        assert IsLeast(x, keys);
      }
    }
  }

  lemma LeastIsUnique(j: string, k: string, keys: set<string>)
    requires IsLeast(j, keys) && IsLeast(k, keys)
    ensures j == k
  {
    hide Leq;
    LeqIsAntisymmetric(j, k);
  }

  function Least(keys: set<string>): (k: string)
    requires keys != {}
    ensures IsLeast(k, keys)
  {
    LeastExists(keys);
    assert forall a, b :: IsLeast(a, keys) && IsLeast(b, keys) ==> a == b by {
      forall a, b | IsLeast(a, keys) && IsLeast(b, keys) ensures a == b {
        LeastIsUnique(a, b, keys);
      }
    }
    var k :| IsLeast(k, keys);
    k
  }

  predicate StrictlySorted(keys: seq<string>) {
    forall i, j :: 0 <= i < j < |keys| ==> keys[i] != keys[j] && Leq(keys[i], keys[j])
  }

  /** The keys in iteration order. */
  function SortedKeys(keys: set<string>): (r: seq<string>)
    ensures |r| == |keys| && forall k :: k in r <==> k in keys
  {
    if keys == {} then [] else [Least(keys)] + SortedKeys(keys - {Least(keys)})
  }

  lemma {:induction false} SortedKeysAreSorted(keys: set<string>)
    ensures StrictlySorted(SortedKeys(keys))
  {
    hide Leq, Least;
    if keys == {} {
    } else {
      var k := Least(keys);
      var rest := SortedKeys(keys - {k});
      SortedKeysAreSorted(keys - {k});
      LeastGoesFirst(k, keys, rest);
    }
  }

  lemma LeastGoesFirst(k: string, keys: set<string>, rest: seq<string>)
    requires IsLeast(k, keys) && StrictlySorted(rest)
    requires forall o :: o in rest ==> o in keys && o != k
    ensures StrictlySorted([k] + rest)
  {
    hide Leq;
    forall j | 0 <= j < |rest| ensures k != rest[j] && Leq(k, rest[j]) {
      assert rest[j] in rest;
    }
  }

  /** A set of keys has only one strictly sorted listing. */
  lemma {:induction false} SortedListingIsUnique(a: seq<string>, b: seq<string>)
    requires StrictlySorted(a) && StrictlySorted(b) && |a| == |b|
    requires forall k :: k in a <==> k in b
    ensures a == b
  {
    hide Leq;
    if a == [] {
    } else {
      assert a[0] in b && b[0] in a;
      if a[0] != b[0] {
        LeqIsAntisymmetric(a[0], b[0]);
      }
      forall k ensures k in a[1..] <==> k in b[1..] {
        assert k in a[1..] <==> k in a && k != a[0];
        assert k in b[1..] <==> k in b && k != b[0];
      }
      SortedListingIsUnique(a[1..], b[1..]);
      assert a == [a[0]] + a[1..] && b == [b[0]] + b[1..];
    }
  }
}
