/**
 Iterating a map in ascending key order, as Python's `sorted(d.keys())` does.
 */
module OrderedMaps {
  import opened Basics

  lemma MinExists(s: set<int>)
    requires s != {}
    ensures exists k :: k in s && forall j :: j in s ==> k <= j
    decreases |s|
  {
    var x := PickOne(s);
    var rest := s - {x};
    assert forall j :: j in s ==> j == x || j in rest;
    if rest == {} {
      assert forall j :: j in s ==> x <= j;
    } else {
      MinExists(rest);
      var k :| k in rest && forall j :: j in rest ==> k <= j;
      var m := if x < k then x else k;
      assert forall j :: j in s ==> m <= j;
      assert m in s;
    }
  }

  /** Some element of a non-empty set. */
  lemma PickOne(s: set<int>) returns (x: int)
    requires s != {}
    ensures x in s
  {
    if forall y :: y !in s {
      assert false;
    }
    x :| x in s;
  }

  /** The least key. */
  function MinKey(keys: set<int>): (k: int)
    requires keys != {}
    ensures k in keys && forall j :: j in keys ==> k <= j
  {
    MinExists(keys);
    var k :| k in keys && forall j :: j in keys ==> k <= j;
    k
  }

  /** `for i in sorted(chunks.keys()): write(chunks[i])`. */
  function AssembleSorted(chunks: map<int, Bytes>): Bytes
    decreases |chunks.Keys|
  {
    if chunks == map[] then []
    else
      var k := MinKey(chunks.Keys);
      assert (chunks - {k}).Keys < chunks.Keys;
      chunks[k] + AssembleSorted(chunks - {k})
  }

}
