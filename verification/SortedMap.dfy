/** Iteration of a map in ascending key order. */
module SortedMap {
  import opened Words

  lemma {:induction false} MinExists(s: set<u32>) returns (m: u32)
    requires s != {}
    ensures m in s && forall x | x in s :: m <= x
  {
    var k :| k in s;
    if s == {k} {
      m := k;
    } else {
      var t := s - {k};
      assert s == t + {k};
      var r := MinExists(t);
      m := if k < r then k else r;
    }
  }

  lemma HasMin(s: set<u32>)
    requires s != {}
    ensures exists m :: m in s && forall x | x in s :: m <= x
  {
    var m := MinExists(s);
  }

  function MinKey(s: set<u32>): (m: u32)
    requires s != {}
    ensures m in s && forall x | x in s :: m <= x
  {
    HasMin(s);
    var m :| m in s && forall x | x in s :: m <= x;
    m
  }

  predicate Ascending(r: seq<u32>) {
    forall i, j | 0 <= i < j < |r| :: r[i] < r[j]
  }

  /** The keys in the order a sorted map iterates them. */
  function SortedKeys(s: set<u32>): (r: seq<u32>)
    ensures Ascending(r) && forall x :: x in r <==> x in s
    decreases |s|
  {
    if s == {} then []
    else
      var m := MinKey(s);
      [m] + SortedKeys(s - {m})
  }
}
