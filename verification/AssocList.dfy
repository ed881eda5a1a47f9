/**
 Lists searched from the head for the first entry with a given key: the shape of
 every list the client and the server keep.
 */
module AssocList {
  import opened Common

  datatype Entry<K, V> = Entry(key: K, value: V)

  function Lookup<K(==), V>(xs: seq<Entry<K, V>>, k: K): Option<V> {
    if xs == [] then None
    else if xs[0].key == k then Some(xs[0].value)
    else Lookup(xs[1..], k)
  }

  /** Unlinks the first entry with the key. */
  function Remove<K(==), V>(xs: seq<Entry<K, V>>, k: K): seq<Entry<K, V>> {
    if xs == [] then []
    else if xs[0].key == k then xs[1..]
    else [xs[0]] + Remove(xs[1..], k)
  }

  /** Writes to the first entry with the key. */
  function Replace<K(==), V>(xs: seq<Entry<K, V>>, k: K, v: V): seq<Entry<K, V>> {
    if xs == [] then []
    else if xs[0].key == k then [Entry(k, v)] + xs[1..]
    else [xs[0]] + Replace(xs[1..], k, v)
  }

  predicate Distinct<K(==), V>(xs: seq<Entry<K, V>>) {
    xs == [] || (Lookup(xs[1..], xs[0].key) == None && Distinct(xs[1..]))
  }

  lemma LookupAdd<K, V>(e: Entry<K, V>, xs: seq<Entry<K, V>>, k: K)
    ensures Lookup([e] + xs, k) == if e.key == k then Some(e.value) else Lookup(xs, k)
    ensures Distinct([e] + xs) <==> Distinct(xs) && Lookup(xs, e.key) == None
  {
    assert ([e] + xs)[1..] == xs;
  }

  lemma {:induction false} LookupReplace<K, V>(xs: seq<Entry<K, V>>, k: K, v: V, k': K)
    ensures Lookup(Replace(xs, k, v), k') ==
            if k' == k && Lookup(xs, k).Some? then Some(v) else Lookup(xs, k')
    ensures Distinct(xs) ==> Distinct(Replace(xs, k, v))
    ensures |Replace(xs, k, v)| == |xs|
  {
    if xs != [] {
      if xs[0].key == k {
        LookupAdd(Entry(k, v), xs[1..], k');
      } else {
        LookupReplace(xs[1..], k, v, k');
        LookupReplace(xs[1..], k, v, xs[0].key);
        LookupAdd(xs[0], Replace(xs[1..], k, v), k');
      }
    }
  }

  lemma {:induction false} LookupRemove<K, V>(xs: seq<Entry<K, V>>, k: K, k': K)
    requires Distinct(xs)
    ensures Lookup(Remove(xs, k), k') == if k' == k then None else Lookup(xs, k')
    ensures Distinct(Remove(xs, k))
  {
    if xs != [] {
      if xs[0].key != k {
        LookupRemove(xs[1..], k, k');
        LookupRemove(xs[1..], k, xs[0].key);
        LookupAdd(xs[0], Remove(xs[1..], k), k');
      }
    }
  }

  /** No two entries of a distinct list have the same key. */
  lemma {:induction false} DistinctKeys<K, V>(xs: seq<Entry<K, V>>, i: nat, j: nat)
    requires Distinct(xs) && i < j < |xs|
    ensures xs[i].key != xs[j].key
  {
    if i == 0 {
      LookupFinds(xs[1..], j - 1);
    } else {
      DistinctKeys(xs[1..], i - 1, j - 1);
    }
  }

  lemma {:induction false} LookupFinds<K, V>(xs: seq<Entry<K, V>>, i: nat)
    requires i < |xs|
    ensures Lookup(xs, xs[i].key).Some?
  {
    if i > 0 { LookupFinds(xs[1..], i - 1); }
  }

  // ------------------------------------------------------- the walks over a list

  /** The position of the first entry with the key, or the length of the list. */
  function Position<K(==), V>(xs: seq<Entry<K, V>>, k: K): (i: nat)
    ensures i <= |xs|
    ensures i < |xs| ==> xs[i].key == k
    ensures forall j :: 0 <= j < i ==> xs[j].key != k
  {
    if xs == [] || xs[0].key == k then 0 else 1 + Position(xs[1..], k)
  }

  lemma {:induction false} LookupAtPosition<K, V>(xs: seq<Entry<K, V>>, k: K)
    ensures var i := Position(xs, k);
            Lookup(xs, k) == if i < |xs| then Some(xs[i].value) else None
  {
    if xs != [] && xs[0].key != k { LookupAtPosition(xs[1..], k); }
  }

  lemma PrependRemoved<T>(x: T, xs: seq<T>, i: nat)
    requires i < |xs|
    ensures [x] + (xs[..i] + xs[i + 1..]) == ([x] + xs)[..i + 1] + ([x] + xs)[i + 2..]
  {
  }

  lemma {:induction false} RemoveAtPosition<K, V>(xs: seq<Entry<K, V>>, k: K, i: nat)
    requires i == Position(xs, k)
    ensures Remove(xs, k) == if i < |xs| then xs[..i] + xs[i + 1..] else xs
  {
    if xs != [] && xs[0].key != k {
      var tail := xs[1..];
      RemoveAtPosition(tail, k, i - 1);
      if i < |xs| {
        PrependRemoved(xs[0], tail, i - 1);
      }
      assert [xs[0]] + tail == xs;
    }
  }

  lemma PrependUpdated<T>(x: T, xs: seq<T>, i: nat, y: T)
    requires i < |xs|
    ensures [x] + xs[i := y] == ([x] + xs)[i + 1 := y]
  {
  }

  lemma {:induction false} ReplaceAtPosition<K, V>(xs: seq<Entry<K, V>>, k: K, v: V, i: nat)
    requires i == Position(xs, k)
    ensures Replace(xs, k, v) == if i < |xs| then xs[i := Entry(k, v)] else xs
  {
    if xs != [] && xs[0].key != k {
      var tail := xs[1..];
      ReplaceAtPosition(tail, k, v, i - 1);
      if i < |xs| {
        PrependUpdated(xs[0], tail, i - 1, Entry(k, v));
      }
      assert [xs[0]] + tail == xs;
    }
  }

  lemma AtPosition<K, V>(xs: seq<Entry<K, V>>, k: K, v: V)
    ensures var i := Position(xs, k);
            && Lookup(xs, k) == (if i < |xs| then Some(xs[i].value) else None)
            && Remove(xs, k) == (if i < |xs| then xs[..i] + xs[i + 1..] else xs)
            && Replace(xs, k, v) == (if i < |xs| then xs[i := Entry(k, v)] else xs)
  {
    LookupAtPosition(xs, k);
    RemoveAtPosition(xs, k, Position(xs, k));
    ReplaceAtPosition(xs, k, v, Position(xs, k));
  }

  /** Walks the list from the head to the first entry with the key. */
  method Find<K(==), V>(xs: seq<Entry<K, V>>, k: K) returns (i: nat)
    ensures i == Position(xs, k)
  {
    i := 0;
    while i < |xs| && xs[i].key != k
      invariant i <= Position(xs, k)
    {
      i := i + 1;
    }
  }
}
