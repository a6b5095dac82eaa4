/**
 * net/http.Header: a map from canonical key to the ordered list of values
 * sent under that key. Every operation canonicalises the key it is given.
 */
module Headers {
  import opened TextProto
  import opened KeyOrder

  type Header = map<string, seq<string>>

  predicate CanonicalKeys<V>(m: map<string, V>) {
    forall k :: k in m ==> IsCanonical(k)
  }

  /** Header.Values: the values stored under the key's canonical form (nil when absent). */
  function Values(h: Header, key: string): seq<string> {
    var k := CanonicalKey(key);
    if k in h then h[k] else []
  }

  /** Header.Get: the first value stored under the key, or "" when there is none. */
  function Get(h: Header, key: string): string {
    var vs := Values(h, key);
    if |vs| == 0 then "" else vs[0]
  }

  /** Header.Add: append a value under the canonical key; no other key changes. */
  function Add(h: Header, key: string, value: string): (r: Header)
    ensures Values(r, key) == Values(h, key) + [value]
    ensures r.Keys == h.Keys + {CanonicalKey(key)}
    ensures forall k :: k in h && k != CanonicalKey(key) ==> r[k] == h[k]
    ensures CanonicalKeys(h) ==> CanonicalKeys(r)
  {
    CanonicalKeyIdempotent(key);
    h[CanonicalKey(key) := Values(h, key) + [value]]
  }

  /** Header.Set: replace every value under the canonical key by one; no other key changes. */
  function Set(h: Header, key: string, value: string): (r: Header)
    ensures Values(r, key) == [value] && Get(r, key) == value
    ensures r.Keys == h.Keys + {CanonicalKey(key)}
    ensures forall k :: k in h && k != CanonicalKey(key) ==> r[k] == h[k]
    ensures CanonicalKeys(h) ==> CanonicalKeys(r)
  {
    CanonicalKeyIdempotent(key);
    h[CanonicalKey(key) := [value]]
  }

  /** Header.Del: drop the canonical key; no other key changes. */
  function Del(h: Header, key: string): (r: Header)
    ensures Values(r, key) == [] && Get(r, key) == ""
    ensures r.Keys == h.Keys - {CanonicalKey(key)}
    ensures forall k :: k in r ==> r[k] == h[k]
  {
    h - {CanonicalKey(key)}
  }

  /** `for _, v := range vs { h.Add(key, v) }`. */
  function AddAll(h: Header, key: string, vs: seq<string>): (r: Header)
    ensures Values(r, key) == Values(h, key) + vs
    ensures |vs| > 0 ==> r.Keys == h.Keys + {CanonicalKey(key)}
    ensures |vs| == 0 ==> r == h
    ensures forall k :: k in h && k != CanonicalKey(key) ==> r[k] == h[k]
    ensures CanonicalKeys(h) ==> CanonicalKeys(r)
    decreases |vs|
  {
    if |vs| == 0 then h
    else
      var h1 := Add(h, key, vs[0]);
      assert Values(h1, key) + vs[1..] == Values(h, key) + vs by {
        assert vs == [vs[0]] + vs[1..];
      }
      AddAll(h1, key, vs[1..])
  }

  /** The outer loop over an envelope's keys, visited in the order `keys` lists them. */
  function AddEach(h: Header, m: map<string, seq<string>>, keys: seq<string>): (r: Header)
    requires forall i :: 0 <= i < |keys| ==> keys[i] in m
    ensures CanonicalKeys(h) ==> CanonicalKeys(r)
    decreases |keys|
  {
    if |keys| == 0 then h
    else AddEach(AddAll(h, keys[0], m[keys[0]]), m, keys[1..])
  }

  /**
   * The header a translator builds by Add-ing every value of a multi-valued
   * envelope map; keys are visited in sorted order (Go's order is unspecified
   * and matters only when two keys canonicalise alike).
   */
  function FromMulti(m: map<string, seq<string>>): (h: Header)
    ensures CanonicalKeys(h)
  {
    AddEach(map[], m, SortedKeys(m.Keys))
  }

  /** The same for a single-valued envelope map. */
  function FromSingle(m: map<string, string>): (h: Header)
    ensures CanonicalKeys(h)
  {
    FromMulti(map k | k in m :: [m[k]])
  }

  /** The envelope map itself, keys with no value dropped. */
  function NonEmpty(m: map<string, seq<string>>): map<string, seq<string>> {
    map k | k in m && |m[k]| > 0 :: m[k]
  }

  /** Adding the values of a key the header does not hold yet. */
  lemma AddAllFresh(h: Header, k: string, vs: seq<string>)
    requires CanonicalKey(k) == k && k !in h
    ensures forall k' :: k' in AddAll(h, k, vs) <==> k' in h || (k' == k && |vs| > 0)
    ensures forall k' :: k' in AddAll(h, k, vs) ==> AddAll(h, k, vs)[k'] == if k' in h then h[k'] else vs
  {
    var r := AddAll(h, k, vs);
    assert Values(r, k) == vs;
    forall k' | k' in r ensures r[k'] == if k' in h then h[k'] else vs {
      if k' == k {
        assert Values(r, k) == r[k];
      }
    }
  }

  lemma {:induction false} AddEachCanonical(h: Header, m: map<string, seq<string>>, keys: seq<string>)
    requires forall i :: 0 <= i < |keys| ==> keys[i] in m && IsCanonical(keys[i]) && keys[i] !in h
    requires forall i, j :: 0 <= i < j < |keys| ==> keys[i] != keys[j]
    ensures forall k :: k in AddEach(h, m, keys) <==> k in h || (k in keys && |m[k]| > 0)
    ensures forall k :: k in AddEach(h, m, keys) ==>
      AddEach(h, m, keys)[k] == if k in h then h[k] else m[k]
    decreases |keys|
  {
    if |keys| > 0 {
      var k := keys[0];
      var rest := keys[1..];
      var h1 := AddAll(h, k, m[k]);
      AddAllFresh(h, k, m[k]);
      forall i | 0 <= i < |rest| ensures rest[i] in m && IsCanonical(rest[i]) && rest[i] !in h1 {
        assert rest[i] == keys[i + 1];
      }
      forall i, j | 0 <= i < j < |rest| ensures rest[i] != rest[j] {
        assert rest[i] == keys[i + 1] && rest[j] == keys[j + 1];
      }
      AddEachCanonical(h1, m, rest);
      var r := AddEach(h, m, keys);
      assert r == AddEach(h1, m, rest);
      assert forall k' :: k' in keys <==> k' == k || k' in rest;
    }
  }

  /** Built from an envelope whose keys are already canonical, the header is that map. */
  lemma FromMultiCanonical(m: map<string, seq<string>>)
    requires CanonicalKeys(m)
    ensures FromMulti(m) == NonEmpty(m)
  {
    var keys := SortedKeys(m.Keys);
    SortedDistinct(keys);
    var empty: Header := map[];
    forall i | 0 <= i < |keys| ensures keys[i] in m && IsCanonical(keys[i]) && keys[i] !in empty {
      assert keys[i] in m;
    }
    AddEachCanonical(empty, m, keys);
    var r := FromMulti(m);
    assert r == AddEach(empty, m, keys);
    MapsEqual(r, NonEmpty(m));
  }

  /** An envelope without headers gives an empty header, which has no Host. */
  lemma EmptyHeaders()
    ensures FromSingle(map[]) == map[] && FromMulti(map[]) == map[]
    ensures Get(map[], "Host") == "" && Del(map[], "Host") == map[]
  {
    assert SortedKeys({}) == [];
    var e: map<string, string> := map[];
    assert (map k | k in e :: [e[k]]) == map[];
  }

  lemma FromSingleCanonical(m: map<string, string>)
    requires CanonicalKeys(m)
    ensures FromSingle(m) == map k | k in m :: [m[k]]
  {
    FromMultiCanonical(map k | k in m :: [m[k]]);
  }
}
