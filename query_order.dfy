/**
 * The order in which the database hands back the rows of a query is not
 * fixed; it is modelled as some enumeration of the rows, chosen freely.
 */
module QueryOrder {
  /** Some order of the elements of `ks`, each exactly once. */
  method Enumerate<T(==)>(ks: set<T>) returns (order: seq<T>)
    ensures forall k :: k in ks <==> k in order
    ensures forall i, j :: 0 <= i < j < |order| ==> order[i] != order[j]
  {
    order := [];
    var pending := ks;
    while pending != {}
      invariant forall k :: k in ks <==> (k in order || k in pending)
      invariant forall k :: k in order ==> k !in pending
      invariant forall i, j :: 0 <= i < j < |order| ==> order[i] != order[j]
      decreases |pending|
    {
      var k :| k in pending;
      order := order + [k];
      pending := pending - {k};
    }
  }
}
