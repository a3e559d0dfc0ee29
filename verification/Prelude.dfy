/** Small datatypes shared by the component models. */
module Prelude {

  datatype Option<+T> = None | Some(value: T)

  function Lookup<K, V>(m: map<K, V>, k: K): Option<V> {
    if k in m then Some(m[k]) else None
  }

  function Min(a: int, b: int): int {
    if a < b then a else b
  }

  function Max(a: int, b: int): int {
    if a < b then b else a
  }

  lemma {:induction false} SubsetSize<T>(a: set<T>, b: set<T>)
    requires a <= b
    ensures |a| <= |b|
  {
    if a != {} {
      var x :| x in a;
      SubsetSize(a - {x}, b - {x});
    }
  }

  ghost function Range(lo: int, hi: int): (r: set<int>)
    requires lo <= hi
    ensures |r| == hi - lo && forall k :: k in r <==> lo <= k < hi
    decreases hi - lo
  {
    if lo == hi then {} else Range(lo, hi - 1) + {hi - 1}
  }

  /** Some key of `keys` maps to `v`. */
  ghost predicate Held<K, V>(m: map<K, V>, keys: set<K>, v: V) {
    exists k :: k in keys && k in m && m[k] == v
  }

  /** Values that each have a key are at most as many as the keys. */
  lemma {:induction false} ValuesFit<K, V>(m: map<K, V>, keys: set<K>, values: set<V>)
    requires forall v :: v in values ==> Held(m, keys, v)
    ensures |values| <= |keys|
  {
    if values != {} {
      var v :| v in values;
      assert Held(m, keys, v);
      var k :| k in keys && k in m && m[k] == v;
      forall w | w in values - {v}
        ensures Held(m, keys - {k}, w)
      {
        assert Held(m, keys, w);
        var j :| j in keys && j in m && m[j] == w;
        assert j in keys - {k};
      }
      ValuesFit(m, keys - {k}, values - {v});
    }
  }
}
