/** Directed distance records and the ordered record set each item of the
    matrix keeps (a sorted set ordered by ascending distance). */
module DistanceRecords {

  /** A directed measurement `from -> to` of magnitude `distance`. */
  datatype Distance<T> = Distance(from: T, to: T, distance: nat)

  /** Records appear in non-decreasing order of distance. */
  predicate Sorted<T>(s: seq<Distance<T>>)
  {
    forall i, j :: 0 <= i < j < |s| ==> s[i].distance <= s[j].distance
  }

  /** No record occurs twice. */
  predicate NoDuplicates<T(==)>(s: seq<Distance<T>>)
  {
    forall i, j :: 0 <= i < j < |s| ==> s[i] != s[j]
  }

  /** The position at which a record of distance `d` is placed: after the
      leading run of records whose distance is at most `d`, so that records
      of equal distance keep the order in which they were added. */
  function InsertionPoint<T>(s: seq<Distance<T>>, d: nat): (p: nat)
    ensures p <= |s|
    ensures forall i :: 0 <= i < p ==> s[i].distance <= d
    ensures Sorted(s) ==> forall i :: p <= i < |s| ==> d < s[i].distance
  {
    if s == [] || d < s[0].distance then 0 else 1 + InsertionPoint(s[1..], d)
  }

  /** Adding `r` to an ordered record set: nothing changes when `r` is already
      present, otherwise `r` is placed at its insertion point. The result
      holds exactly the old records and `r`, each once. */
  function Insert<T(==)>(s: seq<Distance<T>>, r: Distance<T>): (t: seq<Distance<T>>)
    ensures r in s ==> t == s
    ensures r !in s ==> multiset(t) == multiset(s) + multiset{r}
  {
    if r in s then s
    else
      var p := InsertionPoint(s, r.distance);
      assert s == s[..p] + s[p..];
      s[..p] + [r] + s[p..]
  }

  /** Insertion adds `r` and keeps every record already present. */
  lemma InsertMembers<T>(s: seq<Distance<T>>, r: Distance<T>)
    ensures r in Insert(s, r)
    ensures forall e :: e in s ==> e in Insert(s, r)
    ensures forall e :: e in Insert(s, r) ==> e in s || e == r
  {
  }

  /** Position `n` of `s` with `r` placed at position `p`. */
  lemma PlacedAt<T>(s: seq<Distance<T>>, r: Distance<T>, p: nat, n: nat)
    requires p <= |s| && n <= |s|
    ensures (s[..p] + [r] + s[p..])[n] == if n < p then s[n] else if n == p then r else s[n - 1]
  {
  }

  /** Insertion keeps the set ordered by ascending distance. */
  lemma InsertSorted<T>(s: seq<Distance<T>>, r: Distance<T>)
    requires Sorted(s)
    ensures Sorted(Insert(s, r))
  {
    if r !in s {
      var p := InsertionPoint(s, r.distance);
      var t := s[..p] + [r] + s[p..];
      assert t == Insert(s, r);
      forall i, j | 0 <= i < j < |t| ensures t[i].distance <= t[j].distance {
        PlacedAt(s, r, p, i);
        PlacedAt(s, r, p, j);
      }
    }
  }

  /** Insertion never duplicates a record. */
  lemma InsertNoDuplicates<T>(s: seq<Distance<T>>, r: Distance<T>)
    requires NoDuplicates(s)
    ensures NoDuplicates(Insert(s, r))
  {
    if r !in s {
      var p := InsertionPoint(s, r.distance);
      var t := s[..p] + [r] + s[p..];
      assert t == Insert(s, r);
      forall i, j | 0 <= i < j < |t| ensures t[i] != t[j] {
        PlacedAt(s, r, p, i);
        PlacedAt(s, r, p, j);
        if i != p && j != p {
          var a := if i < p then i else i - 1;
          var b := if j < p then j else j - 1;
          assert a < b && t[i] == s[a] && t[j] == s[b];
        }
      }
    }
  }

  /** A record no closer than the current first record never displaces it. */
  lemma InsertKeepsFirst<T>(s: seq<Distance<T>>, r: Distance<T>)
    requires s != [] && s[0].distance <= r.distance
    ensures Insert(s, r) != [] && Insert(s, r)[0] == s[0]
  {
    if r !in s {
      var p := InsertionPoint(s, r.distance);
      assert 0 < p;
    }
  }
}
