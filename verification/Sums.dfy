/**
 Sums of natural weights over finite sets of keys, and how such a sum splits when a key is taken
 out of the set or put into it.
 */
module Sums {

  ghost function Sum<K(!new)>(weights: map<K, nat>, keys: set<K>): nat
    requires keys <= weights.Keys
  {
    if keys == {} then 0
    else
      var k :| k in keys;
      weights[k] + Sum(weights, keys - {k})
  }

  lemma {:induction false} SumSplit<K(!new)>(weights: map<K, nat>, keys: set<K>, x: K)
    requires x in keys && keys <= weights.Keys
    ensures Sum(weights, keys) == weights[x] + Sum(weights, keys - {x})
    decreases keys
  {
    var k :| k in keys && Sum(weights, keys) == weights[k] + Sum(weights, keys - {k});
    if k != x {
      SumSplit(weights, keys - {k}, x);
      SumSplit(weights, keys - {x}, k);
      assert keys - {k} - {x} == keys - {x} - {k};
    }
  }

  lemma SumAdd<K(!new)>(weights: map<K, nat>, keys: set<K>, x: K)
    requires x !in keys && x in weights && keys <= weights.Keys
    ensures Sum(weights, keys + {x}) == weights[x] + Sum(weights, keys)
  {
    SumSplit(weights, keys + {x}, x);
    assert keys + {x} - {x} == keys;
  }

  lemma {:induction false} SomethingWeighs<K(!new)>(weights: map<K, nat>, keys: set<K>) returns (k: K)
    requires keys <= weights.Keys && Sum(weights, keys) > 0
    ensures k in keys && weights[k] > 0
    decreases keys
  {
    k :| k in keys && Sum(weights, keys) == weights[k] + Sum(weights, keys - {k});
    if weights[k] == 0 {
      k := SomethingWeighs(weights, keys - {k});
    }
  }
}
