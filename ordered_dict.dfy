/**
 * A model of a Python `dict` with string keys: a map plus the order in which
 * its keys were first inserted. Assigning to a present key keeps its place,
 * assigning to a new key appends it, and `del` drops it from the order.
 */
module OrderedDict {

  datatype Dict<V> = Dict(keys: seq<string>, entries: map<string, V>)

  predicate Distinct(s: seq<string>)
  {
    forall i, j :: 0 <= i < j < |s| ==> s[i] != s[j]
  }

  /** The order lists every key exactly once. */
  ghost predicate Valid<V>(d: Dict<V>)
  {
    Distinct(d.keys) && forall k :: k in d.entries <==> k in d.keys
  }

  function Empty<V>(): (d: Dict<V>)
    ensures Valid(d) && d.keys == [] && d.entries == map[]
  {
    Dict([], map[])
  }

  /** `d[k] = v`. */
  function Put<V>(d: Dict<V>, k: string, v: V): (r: Dict<V>)
    requires Valid(d)
    ensures Valid(r)
    ensures r.entries == d.entries[k := v]
    ensures k in d.entries ==> r.keys == d.keys
    ensures k !in d.entries ==> r.keys == d.keys + [k]
  {
    if k in d.entries then Dict(d.keys, d.entries[k := v])
    else Dict(d.keys + [k], d.entries[k := v])
  }

  /** The keys of `s` outside `xs`, in their original order. */
  function Without(s: seq<string>, xs: set<string>): (r: seq<string>)
    ensures |r| <= |s|
    ensures forall x :: x in r <==> x in s && x !in xs
    ensures Distinct(s) ==> Distinct(r)
  {
    if s == [] then []
    else if s[|s| - 1] in xs then Without(s[..|s| - 1], xs)
    else Without(s[..|s| - 1], xs) + [s[|s| - 1]]
  }

  lemma {:induction false} WithoutWithout(s: seq<string>, xs: set<string>, ys: set<string>)
    ensures Without(Without(s, xs), ys) == Without(s, xs + ys)
  {
    if s != [] {
      var p := s[..|s| - 1];
      WithoutWithout(p, xs, ys);
      if s[|s| - 1] !in xs {
        assert Without(s, xs)[..|Without(s, xs)| - 1] == Without(p, xs);
      }
    }
  }

  lemma {:induction false} WithoutNothing(s: seq<string>, xs: set<string>)
    requires forall x :: x in xs ==> x !in s
    ensures Without(s, xs) == s
  {
    if s != [] {
      var p := s[..|s| - 1];
      WithoutNothing(p, xs);
      assert s[|s| - 1] in s;
      assert s == p + [s[|s| - 1]];
    }
  }

  /** Deleting no keys leaves the dict as it was. */
  lemma RemoveNothing<V>(d: Dict<V>)
    requires Valid(d)
    ensures RemoveKeys(d, {}) == d
  {
    WithoutNothing(d.keys, {});
    assert d.entries - {} == d.entries;
  }

  /** `del d[k]` for a present key. */
  function Delete<V>(d: Dict<V>, k: string): (r: Dict<V>)
    requires Valid(d) && k in d.entries
    ensures Valid(r)
    ensures r.entries == d.entries - {k}
    ensures r.keys == Without(d.keys, {k})
  {
    Dict(Without(d.keys, {k}), d.entries - {k})
  }

  /** The result of deleting every present key of `xs`, in any order. */
  function RemoveKeys<V>(d: Dict<V>, xs: set<string>): (r: Dict<V>)
    requires Valid(d)
    ensures Valid(r)
    ensures r.entries.Keys == d.entries.Keys - xs
    ensures forall k :: k in r.entries ==> r.entries[k] == d.entries[k]
    ensures r.keys == Without(d.keys, xs)
  {
    Dict(Without(d.keys, xs), d.entries - xs)
  }

  /** Removing one more key removes it from the order and the map of the previous result. */
  lemma RemoveKeysStep<V>(d: Dict<V>, xs: set<string>, k: string)
    requires Valid(d)
    ensures RemoveKeys(d, xs + {k}) ==
      Dict(Without(Without(d.keys, xs), {k}), (d.entries - xs) - {k})
  {
    WithoutWithout(d.keys, xs, {k});
    assert d.entries - (xs + {k}) == (d.entries - xs) - {k};
  }

  /** Deleting one more key extends the removed set; the order of deletions does not matter. */
  lemma DeleteOneMore<V>(d: Dict<V>, xs: set<string>, k: string)
    requires Valid(d)
    ensures k in RemoveKeys(d, xs).entries ==>
      Delete(RemoveKeys(d, xs), k) == RemoveKeys(d, xs + {k})
    ensures k !in RemoveKeys(d, xs).entries ==> RemoveKeys(d, xs) == RemoveKeys(d, xs + {k})
  {
    RemoveKeysStep(d, xs, k);
    var r := RemoveKeys(d, xs);
    if k !in r.entries {
      WithoutNothing(r.keys, {k});
      assert r.entries - {k} == r.entries;
    }
  }
}
