/** The keys of an ordered map in the order its iterator visits them. */
module Ascending {

  ghost predicate Least(k: nat, s: set<nat>) {
    k in s && forall j :: j in s ==> k <= j
  }

  lemma {:induction false} HasLeast(s: set<nat>)
    requires s != {}
    ensures exists k :: Least(k, s)
  {
    var x :| x in s;
    var rest := s - {x};
    if rest == {} {
      assert s == {x};
      assert Least(x, s);
    } else {
      HasLeast(rest);
      var k :| Least(k, rest);
      assert s == rest + {x};
      assert Least(if x < k then x else k, s);
    }
  }

  lemma LeastFirst(s: set<nat>, k: nat, rest: seq<nat>)
    requires Least(k, s) && (forall j :: j in rest <==> j in s - {k})
    requires forall i, j :: 0 <= i < j < |rest| ==> rest[i] < rest[j]
    ensures forall j :: j in [k] + rest <==> j in s
    ensures forall i, j :: 0 <= i < j < |[k] + rest| ==> ([k] + rest)[i] < ([k] + rest)[j]
  {
    forall j | 0 <= j < |rest|
      ensures k < rest[j]
    {
      assert rest[j] in rest;
    }
    var r := [k] + rest;
    assert forall j :: 0 < j < |r| ==> r[j] == rest[j - 1];
    assert forall j :: j in r <==> j == k || j in rest;
  }

  /** The elements of `s`, least first. */
  function Order(s: set<nat>): (r: seq<nat>)
    ensures forall k :: k in r <==> k in s
    ensures forall i, j :: 0 <= i < j < |r| ==> r[i] < r[j]
  {
    if s == {} then []
    else
      HasLeast(s);
      var k :| k in s && forall j :: j in s ==> k <= j;
      var rest := Order(s - {k});
      LeastFirst(s, k, rest);
      [k] + rest
  }
}
