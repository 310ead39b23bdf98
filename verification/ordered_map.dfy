/**
 A finite map with string keys that remembers the order in which its keys were first
 inserted, as a JavaScript `Map` does: re-setting an existing key replaces
 its value in place, setting a new key appends it. The same structure
 stands for a directory listing, whose files the model enumerates in the
 order they were first created.
 */
module OrderedMap {
  import opened Wrappers

  datatype Raw<V> = Raw(keys: seq<string>, vals: map<string, V>)

  ghost predicate Distinct<T>(s: seq<T>) {
    forall i, j :: 0 <= i < j < |s| ==> s[i] != s[j]
  }

  /** The key order lists every key of the map exactly once. */
  ghost predicate Valid<V>(m: Raw<V>) {
    && Distinct(m.keys)
    && (forall k :: k in m.keys <==> k in m.vals)
  }

  type OMap<V> = m: Raw<V> | Valid(m) witness Raw([], map[])

  function Empty<V>(): (r: OMap<V>)
    ensures forall k :: Get(r, k) == None
  {
    Raw([], map[])
  }

  function Get<V>(m: OMap<V>, k: string): (r: Option<V>)
    ensures r.Some? <==> k in m.keys
  {
    if k in m.vals then Some(m.vals[k]) else None
  }

  /** `Map.prototype.set`. */
  function Put<V>(m: OMap<V>, k: string, v: V): (r: OMap<V>)
    ensures Get(r, k) == Some(v)
    ensures forall k' :: k' != k ==> Get(r, k') == Get(m, k')
    ensures k in m.keys ==> r.keys == m.keys
    ensures k !in m.keys ==> r.keys == m.keys + [k]
  {
    if k in m.vals then Raw(m.keys, m.vals[k := v])
    else Raw(m.keys + [k], m.vals[k := v])
  }

  /** `Array.from(m.values())`: the values in key order. */
  function Values<V>(m: OMap<V>): (r: seq<V>)
    ensures |r| == |m.keys|
    ensures forall i :: 0 <= i < |m.keys| ==> Get(m, m.keys[i]) == Some(r[i])
  {
    seq(|m.keys|, i requires 0 <= i < |m.keys| => m.vals[m.keys[i]])
  }

  /** Sets `key(x) := x` for every `x` of `xs`, from first to last. */
  function PutEach<V>(m: OMap<V>, xs: seq<V>, key: V -> string): (r: OMap<V>)
    decreases |xs|
  {
    if |xs| == 0 then m
    else Put(PutEach(m, xs[..|xs| - 1], key), key(xs[|xs| - 1]), xs[|xs| - 1])
  }

  /** Reference definition: the last element of `xs` whose key is `k`. */
  function LastWith<V>(xs: seq<V>, key: V -> string, k: string): (r: Option<V>)
    ensures r.Some? ==> r.value in xs && key(r.value) == k
    ensures r.None? <==> forall i :: 0 <= i < |xs| ==> key(xs[i]) != k
    decreases |xs|
  {
    if |xs| == 0 then None
    else if key(xs[|xs| - 1]) == k then Some(xs[|xs| - 1])
    else LastWith(xs[..|xs| - 1], key, k)
  }

  /** After `PutEach`, each key holds the last element filed under it, and
      keys no element maps to keep their previous value. */
  lemma {:induction false} PutEachLastWins<V>(m: OMap<V>, xs: seq<V>, key: V -> string, k: string)
    ensures Get(PutEach(m, xs, key), k)
         == (match LastWith(xs, key, k) case Some(v) => Some(v) case None => Get(m, k))
    decreases |xs|
  {
    if |xs| > 0 {
      PutEachLastWins(m, xs[..|xs| - 1], key, k);
    }
  }

  /** `PutEach` adds at most one key per element. */
  lemma {:induction false} PutEachSize<V>(m: OMap<V>, xs: seq<V>, key: V -> string)
    ensures |m.keys| <= |PutEach(m, xs, key).keys| <= |m.keys| + |xs|
    decreases |xs|
  {
    if |xs| > 0 {
      PutEachSize(m, xs[..|xs| - 1], key);
    }
  }

  /** No two elements of `xs` share a key. */
  ghost predicate KeysDistinct<V>(xs: seq<V>, key: V -> string) {
    forall i, j :: 0 <= i < j < |xs| ==> key(xs[i]) != key(xs[j])
  }

  lemma KeysDistinctInit<V>(xs: seq<V>, key: V -> string)
    requires |xs| > 0 && KeysDistinct(xs, key)
    ensures KeysDistinct(xs[..|xs| - 1], key)
    ensures forall i :: 0 <= i < |xs| - 1 ==> key(xs[i]) != key(xs[|xs| - 1])
  {
  }

  /** Setting a new key appends its value to the values. */
  lemma ValuesAppend<V>(m: OMap<V>, k: string, v: V)
    requires k !in m.keys
    ensures Values(Put(m, k, v)) == Values(m) + [v]
  {
    var r := Put(m, k, v);
    forall i | 0 <= i < |m.keys| ensures Values(r)[i] == Values(m)[i] {
      assert r.keys[i] == m.keys[i] && m.keys[i] != k;
      assert Get(m, m.keys[i]) == Some(Values(m)[i]);
    }
  }

  /** With distinct keys, the key order is the order of the elements. */
  lemma {:induction false} PutEachFreshKeyOrder<V>(xs: seq<V>, key: V -> string)
    requires KeysDistinct(xs, key)
    ensures |PutEach(Empty(), xs, key).keys| == |xs|
    ensures forall i :: 0 <= i < |xs| ==> PutEach(Empty(), xs, key).keys[i] == key(xs[i])
    decreases |xs|
  {
    if |xs| > 0 {
      var init := xs[..|xs| - 1];
      var last := xs[|xs| - 1];
      KeysDistinctInit(xs, key);
      PutEachFreshKeyOrder(init, key);
      var m := PutEach(Empty(), init, key);
      assert key(last) !in m.keys by {
        forall i | 0 <= i < |m.keys| ensures m.keys[i] != key(last) {
          assert m.keys[i] == key(init[i]);
        }
      }
      assert PutEach(Empty(), xs, key).keys == m.keys + [key(last)];
    }
  }

  /** When no two elements share a key, the values come back exactly as
      given, in the same order, each under its own key. */
  lemma {:induction false} PutEachFreshKeys<V>(xs: seq<V>, key: V -> string)
    requires KeysDistinct(xs, key)
    ensures Values(PutEach(Empty(), xs, key)) == xs
    ensures |PutEach(Empty(), xs, key).keys| == |xs|
    ensures forall i :: 0 <= i < |xs| ==> PutEach(Empty(), xs, key).keys[i] == key(xs[i])
    decreases |xs|
  {
    PutEachFreshKeyOrder(xs, key);
    if |xs| > 0 {
      var init := xs[..|xs| - 1];
      var last := xs[|xs| - 1];
      KeysDistinctInit(xs, key);
      PutEachFreshKeys(init, key);
      var m := PutEach(Empty(), init, key);
      assert key(last) !in m.keys;
      ValuesAppend(m, key(last), last);
      assert xs == init + [last];
    }
  }

  /** Two key functions that pick out the same elements pick the same last one. */
  lemma {:induction false} LastWithSameSelection<V>(xs: seq<V>, key1: V -> string, k1: string, key2: V -> string, k2: string)
    requires forall i :: 0 <= i < |xs| ==> (key1(xs[i]) == k1 <==> key2(xs[i]) == k2)
    ensures LastWith(xs, key1, k1) == LastWith(xs, key2, k2)
    decreases |xs|
  {
    if |xs| > 0 {
      LastWithSameSelection(xs[..|xs| - 1], key1, k1, key2, k2);
    }
  }
}
