/** Clients of the distance matrix: what a caller can conclude from the
    contracts of `Add`, `GetDistanceBetween` and `GetDistancesFrom` alone. */
module Scenarios {
  import opened DistanceRecords
  import opened Clustering

  /** Absolute difference of two integers: a symmetric distance. */
  function AbsoluteDifference(a: int, b: int): nat
  {
    if a <= b then b - a else a - b
  }

  /** How far `a` lies above `b`, zero when it does not: an asymmetric distance. */
  function Excess(a: int, b: int): nat
  {
    if a <= b then 0 else a - b
  }

  /** Items 5, 9 and 2 added in that order under the absolute difference. */
  method BuildAbsoluteDifference() returns (matrix: DistanceMatrix<int>)
    ensures fresh(matrix) && matrix.Valid()
    ensures matrix.calculator == AbsoluteDifference
    ensures matrix.distances.Keys == {5, 9, 2}
  {
    matrix := new DistanceMatrix<int>(AbsoluteDifference);
    ghost var k0 := matrix.distances.Keys;
    matrix.Add(5);
    ghost var k1 := matrix.distances.Keys;
    matrix.Add(9);
    ghost var k2 := matrix.distances.Keys;
    matrix.Add(2);
    KeysAfterThreeAdds(k0, k1, k2, matrix.distances.Keys);
  }

  lemma KeysAfterThreeAdds(k0: set<int>, k1: set<int>, k2: set<int>, k3: set<int>)
    requires k0 == {} && k1 == k0 + {5} && k2 == k1 + {9} && k3 == k2 + {2}
    ensures k3 == {5, 9, 2}
  {
  }

  /** Every pairwise lookup gives the difference of the two items. */
  method AbsoluteDifferenceLookups()
  {
    var matrix := BuildAbsoluteDifference();
    var d := matrix.GetDistanceBetween(5, 9);
    assert d == Success(4);
    d := matrix.GetDistanceBetween(9, 2);
    assert d == Success(7);
    d := matrix.GetDistanceBetween(5, 2);
    assert d == Success(3);
  }

  /** An item is at distance zero from itself; unknown items are reported. */
  method SelfAndUnknownLookups()
  {
    var matrix := BuildAbsoluteDifference();
    var d := matrix.GetDistanceBetween(5, 5);
    assert d == Success(0);
    d := matrix.GetDistanceBetween(4, 5);
    assert d == Failure(UnknownFrom);
    d := matrix.GetDistanceBetween(5, 4);
    assert d == Failure(UnknownTo);
  }

  /** The records from 5 come nearest first, the self-record leading. */
  method AbsoluteDifferenceNeighbours()
  {
    var matrix := BuildAbsoluteDifference();
    var from5 := matrix.GetDistancesFrom(5);
    assert from5.Some?;
    var s := from5.value;
    FromFive(s, matrix.distances.Keys);
    assert s == [Distance(5, 5, 0), Distance(5, 2, 3), Distance(5, 9, 4)];
  }

  /** The record set of 5 among the items 5, 9 and 2 under the absolute
      difference, as a caller of `GetDistancesFrom` sees it. */
  lemma FromFive(s: seq<Distance<int>>, keys: set<int>)
    requires keys == {5, 9, 2}
    requires Sorted(s) && NoDuplicates(s)
    requires forall e :: e in s ==> e.from == 5 && e.to in keys && e.distance == Stored(AbsoluteDifference, 5, e.to)
    requires forall b :: b in keys ==> Distance(5, b, Stored(AbsoluteDifference, 5, b)) in s
    ensures s == [Distance(5, 5, 0), Distance(5, 2, 3), Distance(5, 9, 4)]
  {
    var self, near, far := Distance(5, 5, 0), Distance(5, 2, 3), Distance(5, 9, 4);
    assert self in s && near in s && far in s by {
      assert 5 in keys && 2 in keys && 9 in keys;
    }
    InOrder(s, self, near, far);
  }

  /** Looking up an item never added gives nothing. */
  method UnknownNeighbours()
  {
    var matrix := BuildAbsoluteDifference();
    var unknown := matrix.GetDistancesFrom(4);
    assert unknown == None;
  }

  /** A duplicate-free sorted sequence made of three records of strictly
      increasing distance, each present, lists them in that order. */
  lemma InOrder<T>(s: seq<Distance<T>>, x: Distance<T>, y: Distance<T>, z: Distance<T>)
    requires Sorted(s) && NoDuplicates(s)
    requires x in s && y in s && z in s
    requires forall e :: e in s ==> e == x || e == y || e == z
    requires x.distance < y.distance < z.distance
    ensures s == [x, y, z]
  {
    var i :| 0 <= i < |s| && s[i] == x;
    var j :| 0 <= j < |s| && s[j] == y;
    var k :| 0 <= k < |s| && s[k] == z;
    assert i < j < k;
    assert s[0] in s && s[1] in s && s[2] in s && s[|s| - 1] in s;
    assert i == 0 && j == 1 && k == 2 && |s| == 3;
  }

  /** Items 3 and 7 under an asymmetric distance: both directions are kept
      independently. */
  method AsymmetricScenario()
  {
    var matrix := new DistanceMatrix<int>(Excess);
    matrix.Add(3);
    matrix.Add(7);
    var there := matrix.GetDistanceBetween(3, 7);
    var back := matrix.GetDistanceBetween(7, 3);
    assert there == Success(0);
    assert back == Success(4);
  }
}
