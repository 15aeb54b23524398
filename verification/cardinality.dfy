/** Counting projections: a set of views in which every stored key has
    exactly one view has as many elements as there are keys. */
module Cardinality {

  lemma {:induction false} KeyedSameSize<K, V>(keys: set<K>, views: set<V>, key: V -> K)
    requires forall v :: v in views ==> key(v) in keys
    requires forall k :: k in keys ==> exists v :: v in views && key(v) == k
    requires forall v, w :: v in views && w in views && key(v) == key(w) ==> v == w
    ensures |views| == |keys|
    decreases keys
  {
    if keys == {} {
      assert forall v :: v !in views;
      assert views == {};
    } else {
      var k :| k in keys;
      var v :| v in views && key(v) == k;
      var keys', views' := keys - {k}, views - {v};
      forall k' | k' in keys'
        ensures exists v' :: v' in views' && key(v') == k'
      {
        var v' :| v' in views && key(v') == k';
        assert v' in views';
      }
      KeyedSameSize(keys', views', key);
    }
  }
}
