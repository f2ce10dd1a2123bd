/** A Python dict as the chat server uses it: a finite map that also remembers the order in
    which its keys were first inserted (all keys of the server's dicts are strings), since iterating over it follows that order.
    Assigning to a key that is already present keeps its position; deleting it forgets it. */
module OrderedDict {

  datatype ODict<V> = ODict(keys: seq<string>, entries: map<string, V>) {

    ghost predicate Valid() {
      Distinct(keys) && KeysMatch()
    }

    /** The key order lists exactly the keys of the map. */
    ghost predicate KeysMatch() {
      forall k :: k in entries <==> k in keys
    }

    /** d[k] = v */
    function Set(k: string, v: V): (d: ODict<V>)
      requires Valid()
      ensures d.Valid()
      ensures d.entries == entries[k := v]
      ensures k in entries ==> d.keys == keys
      ensures k !in entries ==> d.keys == keys + [k]
    {
      if k in entries then ODict(keys, entries[k := v])
      else
        DistinctSnoc(keys, k);
        ODict(keys + [k], entries[k := v])
    }

    /** del d[k] (or d.pop(k)); the other keys keep their relative order. */
    function Remove(k: string): (d: ODict<V>)
      requires Valid()
      ensures d.Valid()
      ensures d.entries == entries - {k}
      ensures d.keys == RemoveAll(keys, k)
    {
      RemoveAllDistinct(keys, k);
      ODict(RemoveAll(keys, k), entries - {k})
    }

    /** d.values(), in iteration order. */
    function Values(): seq<V>
      requires Valid()
    {
      seq(|keys|, i requires 0 <= i < |keys| => entries[keys[i]])
    }
  }

  /** values() lists each key's value once, at that key's place in the order, and holds
      exactly the values the map has. */
  lemma ValuesMeaning<V>(d: ODict<V>)
    requires d.Valid()
    ensures |d.Values()| == |d.keys|
    ensures forall k :: k in d.entries ==>
      exists i :: 0 <= i < |d.keys| && d.keys[i] == k && d.Values()[i] == d.entries[k]
    ensures forall i, j :: 0 <= i < |d.keys| && 0 <= j < |d.keys| && d.keys[i] == d.keys[j] ==> i == j
    ensures forall v :: v in d.Values() <==> exists k :: k in d.entries && d.entries[k] == v
  {
    DistinctMeaning(d.keys);
    var vs := d.Values();
    forall k | k in d.entries
      ensures exists i :: 0 <= i < |d.keys| && d.keys[i] == k && vs[i] == d.entries[k]
    {
      var i :| 0 <= i < |d.keys| && d.keys[i] == k;
      assert vs[i] == d.entries[k];
    }
    forall v | v in vs ensures exists k :: k in d.entries && d.entries[k] == v {
      var i :| 0 <= i < |vs| && vs[i] == v;
      assert d.keys[i] in d.entries;
    }
  }

  function Empty<V>(): (d: ODict<V>)
    ensures d.Valid() && d.entries == map[]
  {
    ODict([], map[])
  }

  /** The keys other than x, in their original order. */
  function RemoveAll(s: seq<string>, x: string): (r: seq<string>)
    ensures forall y :: y in r <==> y in s && y != x
    ensures |r| <= |s|
  {
    if s == [] then []
    else if s[0] == x then RemoveAll(s[1..], x)
    else [s[0]] + RemoveAll(s[1..], x)
  }

  /** No key occurs twice. */
  ghost predicate Distinct(s: seq<string>) {
    s == [] || (s[0] !in s[1..] && Distinct(s[1..]))
  }

  /** Distinct says exactly that the elements at two different positions differ. */
  lemma {:induction false} DistinctMeaning(s: seq<string>)
    ensures Distinct(s) <==> forall i, j :: 0 <= i < j < |s| ==> s[i] != s[j]
  {
    if s != [] {
      DistinctMeaning(s[1..]);
      if Distinct(s) {
        forall i, j | 0 <= i < j < |s| ensures s[i] != s[j] {
          if i > 0 {
            assert s[i] == s[1..][i - 1] && s[j] == s[1..][j - 1];
          } else {
            assert s[j] in s[1..];
          }
        }
      }
      if forall i, j :: 0 <= i < j < |s| ==> s[i] != s[j] {
        forall i, j | 0 <= i < j < |s[1..]| ensures s[1..][i] != s[1..][j] {
          assert s[1..][i] == s[i + 1] && s[1..][j] == s[j + 1];
        }
      }
    }
  }

  /** Appending a key that is not there keeps the keys distinct. */
  lemma {:induction false} DistinctSnoc(s: seq<string>, x: string)
    requires Distinct(s) && x !in s
    ensures Distinct(s + [x])
  {
    if s != [] {
      assert (s + [x])[1..] == s[1..] + [x];
      DistinctSnoc(s[1..], x);
    }
  }

  /** In a distinct sequence, no key occurs before its own position. */
  lemma DistinctPrefix(s: seq<string>, i: nat)
    requires Distinct(s) && i < |s|
    ensures s[i] !in s[..i]
  {
    DistinctMeaning(s);
  }

  lemma {:induction false} RemoveAllDistinct(s: seq<string>, x: string)
    requires Distinct(s)
    ensures Distinct(RemoveAll(s, x))
  {
    if s != [] {
      RemoveAllDistinct(s[1..], x);
      var rest := RemoveAll(s[1..], x);
      if s[0] != x {
        assert ([s[0]] + rest)[1..] == rest;
      }
    }
  }

  /** Removing a key leaves the others in the same relative order. */
  lemma {:induction false} RemoveAllAppend(a: seq<string>, b: seq<string>, x: string)
    ensures RemoveAll(a + b, x) == RemoveAll(a, x) + RemoveAll(b, x)
  {
    if a != [] {
      assert (a + b)[1..] == a[1..] + b;
      RemoveAllAppend(a[1..], b, x);
    } else {
      assert a + b == b;
    }
  }

  /** Removing a key that occurs once, between two runs without it, joins the two runs. */
  lemma RemoveBetween(a: seq<string>, x: string, b: seq<string>)
    requires x !in a && x !in b
    ensures RemoveAll(a + [x] + b, x) == a + b
  {
    assert a + [x] + b == a + ([x] + b);
    RemoveAllAppend(a, [x] + b, x);
    RemoveAllAppend([x], b, x);
    RemoveAllAbsent(a, x);
    RemoveAllAbsent(b, x);
  }

  /** Removing an absent key changes nothing. */
  lemma {:induction false} RemoveAllAbsent(s: seq<string>, x: string)
    requires x !in s
    ensures RemoveAll(s, x) == s
  {
    if s != [] {
      RemoveAllAbsent(s[1..], x);
    }
  }
}
