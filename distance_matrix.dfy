/** The grow-only pairwise distance matrix: every added item owns an ordered
    set of the records from it to every item added so far, itself included. */
module Clustering {
  import opened DistanceRecords

  datatype Option<T> = None | Some(value: T)

  /** The ways a pairwise lookup can fail: the first item was never added,
      the second item was never added, or (a broken invariant) both were
      added but no record between them exists. */
  datatype LookupError = UnknownFrom | UnknownTo | MissingRecord

  datatype Result<T> = Success(value: T) | Failure(error: LookupError)

  /** The distance the matrix records from `a` to `b`: zero from an item to
      itself, the calculator's value otherwise. */
  function Stored<T(==)>(dist: (T, T) -> nat, a: T, b: T): nat
  {
    if a == b then 0 else dist(a, b)
  }

  /** Some record in `s` leads to `b`. */
  predicate HasTarget<T(==)>(s: seq<Distance<T>>, b: T)
  {
    exists e :: e in s && e.to == b
  }

  /** The record set of item `k` in a matrix whose items are `keys`: it starts
      with the self-record, is ordered by distance, holds no record twice,
      and every record leads from `k` to an item with the stored distance. */
  ghost predicate ValidRecordSet<T>(k: T, s: seq<Distance<T>>, keys: set<T>, dist: (T, T) -> nat)
  {
    && s != []
    && s[0] == Distance(k, k, 0)
    && Sorted(s)
    && NoDuplicates(s)
    && forall e :: e in s ==> e.from == k && e.to in keys && e.distance == Stored(dist, k, e.to)
  }

  /** The matrix invariant: every record set is valid, and for every ordered
      pair of items `(a, b)` the set of `a` has a record leading to `b`. */
  ghost predicate WellFormed<T>(m: map<T, seq<Distance<T>>>, dist: (T, T) -> nat)
  {
    && AllValid(m, dist)
    && CompleteAmong(m, m.Keys)
  }

  /** Every record set of `m` is valid. */
  ghost predicate AllValid<T>(m: map<T, seq<Distance<T>>>, dist: (T, T) -> nat)
  {
    forall k :: k in m ==> ValidRecordSet(k, m[k], m.Keys, dist)
  }

  /** For every ordered pair `(a, b)` of `items`, the set of `a` has a record
      leading to `b`. */
  ghost predicate CompleteAmong<T>(m: map<T, seq<Distance<T>>>, items: set<T>)
  {
    forall a, b :: a in items && a in m && b in items ==> HasTarget(m[a], b)
  }

  /** The pairs between `x` and each item of `done` have records both ways. */
  ghost predicate LinkedWith<T>(m: map<T, seq<Distance<T>>>, x: T, done: set<T>)
  {
    x in m && forall y :: y in done && y in m ==> HasTarget(m[x], y) && HasTarget(m[y], x)
  }

  /** Completeness in value form: in a well-formed matrix the record from `a`
      to `b` is present, with the stored distance. */
  lemma RecordPresent<T>(m: map<T, seq<Distance<T>>>, dist: (T, T) -> nat, a: T, b: T)
    requires WellFormed(m, dist) && a in m && b in m
    ensures Distance(a, b, Stored(dist, a, b)) in m[a]
  {
    var e :| e in m[a] && e.to == b;
    assert e == Distance(a, b, Stored(dist, a, b));
  }

  /** The records of an item are exactly those leading from it to some item
      with the stored distance: the key set alone determines them. */
  lemma RecordsDetermined<T>(m: map<T, seq<Distance<T>>>, dist: (T, T) -> nat, k: T, e: Distance<T>)
    requires WellFormed(m, dist) && k in m
    ensures e in m[k] <==> e.from == k && e.to in m && e.distance == Stored(dist, k, e.to)
  {
    if e.from == k && e.to in m && e.distance == Stored(dist, k, e.to) {
      RecordPresent(m, dist, k, e.to);
    }
  }

  /** Exactly one record leads from `a` to `b`. */
  lemma UniqueRecord<T>(m: map<T, seq<Distance<T>>>, dist: (T, T) -> nat, a: T, b: T)
    requires WellFormed(m, dist) && a in m && b in m
    ensures exists i :: 0 <= i < |m[a]| && m[a][i].to == b
    ensures forall i, j :: 0 <= i < |m[a]| && 0 <= j < |m[a]| && m[a][i].to == b && m[a][j].to == b ==> i == j
  {
    RecordPresent(m, dist, a, b);
  }

  /** Adding the same items in any order yields the same records: two
      well-formed matrices over the same items hold the same record sets. */
  lemma OrderIndependent<T>(m1: map<T, seq<Distance<T>>>, m2: map<T, seq<Distance<T>>>, dist: (T, T) -> nat)
    requires WellFormed(m1, dist) && WellFormed(m2, dist) && m1.Keys == m2.Keys
    ensures forall k, e :: k in m1 ==> (e in m1[k] <==> e in m2[k])
  {
    forall k, e | k in m1 ensures e in m1[k] <==> e in m2[k] {
      RecordsDetermined(m1, dist, k, e);
      RecordsDetermined(m2, dist, k, e);
    }
  }

  /** Inserting a record that leads from `k` to an item, with the stored
      distance, keeps the record set of `k` valid. */
  lemma InsertValid<T>(k: T, s: seq<Distance<T>>, keys: set<T>, dist: (T, T) -> nat, r: Distance<T>)
    requires ValidRecordSet(k, s, keys, dist)
    requires r.from == k && r.to in keys && r.distance == Stored(dist, k, r.to)
    ensures ValidRecordSet(k, Insert(s, r), keys, dist)
  {
    InsertMembers(s, r);
    InsertSorted(s, r);
    InsertNoDuplicates(s, r);
    InsertKeepsFirst(s, r);
  }

  /** `m` holds every record of `before`, and every record it adds leads
      from or to `x`. */
  ghost predicate GrownBy<T>(before: map<T, seq<Distance<T>>>, m: map<T, seq<Distance<T>>>, x: T)
  {
    && (forall k, e :: k in before && e in before[k] ==> k in m && e in m[k])
    && (forall k, e :: k in m && e in m[k] ==> (k in before && e in before[k]) || e.from == x || e.to == x)
  }

  /** The matrix `m` part-way through adding `x` to the well-formed matrix
      `before`, once the pairs between `x` and the items of `done` are
      stored: every record set is valid, the pairs among old items are still
      complete, the pairs between `x` and `done` are complete, and re-adding
      an item already present has changed nothing. */
  ghost predicate Adding<T>(m: map<T, seq<Distance<T>>>, dist: (T, T) -> nat,
                            before: map<T, seq<Distance<T>>>, x: T, done: set<T>)
  {
    && m.Keys == before.Keys + {x}
    && AllValid(m, dist)
    && CompleteAmong(m, before.Keys)
    && LinkedWith(m, x, done + {x})
    && GrownBy(before, m, x)
    && (x in before ==> m == before)
  }

  /** A record set valid for some items stays valid when items are added. */
  lemma WidenKeys<T>(k: T, s: seq<Distance<T>>, keys: set<T>, keys': set<T>, dist: (T, T) -> nat)
    requires ValidRecordSet(k, s, keys, dist) && keys <= keys'
    ensures ValidRecordSet(k, s, keys', dist)
  {
  }

  /** Re-adding an item already present: its self-record is there, so the
      matrix is unchanged and the adding has begun. */
  lemma StartReAdd<T>(before: map<T, seq<Distance<T>>>, dist: (T, T) -> nat, x: T)
    requires WellFormed(before, dist) && x in before
    ensures Insert(before[x], Distance(x, x, 0)) == before[x]
    ensures Adding(before[x := Insert(before[x], Distance(x, x, 0))], dist, before, x, {})
  {
    assert before[x := before[x]] == before;
    assert ValidRecordSet(x, before[x], before.Keys, dist);
    assert before[x][0] == Distance(x, x, 0);
    assert before.Keys + {x} == before.Keys;
  }

  /** Giving a new item a record set that holds only its self-record keeps
      every record set valid and every old pair complete. */
  lemma FreshRecordSet<T>(before: map<T, seq<Distance<T>>>, dist: (T, T) -> nat, x: T)
    requires WellFormed(before, dist) && x !in before
    ensures AllValid(before[x := [Distance(x, x, 0)]], dist)
    ensures CompleteAmong(before[x := [Distance(x, x, 0)]], before.Keys)
  {
    var m := before[x := [Distance(x, x, 0)]];
    forall k | k in m ensures ValidRecordSet(k, m[k], m.Keys, dist) {
      if k != x {
        assert ValidRecordSet(k, before[k], before.Keys, dist);
        WidenKeys(k, before[k], before.Keys, m.Keys, dist);
      }
    }
    forall a, b | a in before.Keys && a in m && b in before.Keys ensures HasTarget(m[a], b) {
      assert HasTarget(before[a], b);
    }
  }

  /** Adding a new item: its record set is created empty and receives the
      self-record, and the adding has begun. */
  lemma StartFresh<T>(before: map<T, seq<Distance<T>>>, dist: (T, T) -> nat, x: T)
    requires WellFormed(before, dist) && x !in before
    ensures Adding(before[x := []][x := Insert([], Distance(x, x, 0))], dist, before, x, {})
  {
    var m := before[x := [Distance(x, x, 0)]];
    assert Insert([], Distance(x, x, 0)) == [Distance(x, x, 0)];
    assert before[x := []][x := Insert([], Distance(x, x, 0))] == m;
    FreshRecordSet(before, dist, x);
    assert Distance(x, x, 0) in m[x];
    assert LinkedWith(m, x, {} + {x});
  }

  /** One turn of the loop of `Add` keeps every record set valid. */
  lemma LinkValid<T>(m: map<T, seq<Distance<T>>>, dist: (T, T) -> nat, x: T, y: T, m': map<T, seq<Distance<T>>>)
    requires AllValid(m, dist) && x in m && y in m && y != x
    requires m' == m[x := Insert(m[x], Distance(x, y, dist(x, y)))][y := Insert(m[y], Distance(y, x, dist(y, x)))]
    ensures AllValid(m', dist)
  {
    InsertValid(x, m[x], m.Keys, dist, Distance(x, y, dist(x, y)));
    InsertValid(y, m[y], m.Keys, dist, Distance(y, x, dist(y, x)));
    assert m'.Keys == m.Keys;
    forall k | k in m' ensures ValidRecordSet(k, m'[k], m'.Keys, dist) {
      if k != x && k != y {
        assert m'[k] == m[k];
      }
    }
  }

  /** One turn of the loop of `Add` keeps every record, and adds only the two
      records between `x` and `y`. */
  lemma LinkMembers<T>(m: map<T, seq<Distance<T>>>, dist: (T, T) -> nat, x: T, y: T, m': map<T, seq<Distance<T>>>)
    requires x in m && y in m && y != x
    requires m' == m[x := Insert(m[x], Distance(x, y, dist(x, y)))][y := Insert(m[y], Distance(y, x, dist(y, x)))]
    ensures m'.Keys == m.Keys
    ensures Distance(x, y, dist(x, y)) in m'[x] && Distance(y, x, dist(y, x)) in m'[y]
    ensures forall k, e :: k in m && e in m[k] ==> e in m'[k]
    ensures forall k, e :: k in m' && e in m'[k] ==> e in m[k] || e.from == x || e.to == x
  {
    InsertMembers(m[x], Distance(x, y, dist(x, y)));
    InsertMembers(m[y], Distance(y, x, dist(y, x)));
    forall k, e | k in m && e in m[k] ensures e in m'[k] {
      if k != x && k != y {
        assert m'[k] == m[k];
      }
    }
    forall k, e | k in m' && e in m'[k] ensures e in m[k] || e.from == x || e.to == x {
      if k != x && k != y {
        assert m'[k] == m[k];
      }
    }
  }

  /** A record present in `s` witnesses a target in any sequence that keeps it. */
  lemma KeepsTarget<T>(s: seq<Distance<T>>, t: seq<Distance<T>>, b: T)
    requires HasTarget(s, b) && forall e :: e in s ==> e in t
    ensures HasTarget(t, b)
  {
    var e :| e in s && e.to == b;
    assert e in t;
  }

  /** One turn of the loop of `Add` keeps the records of `before` and adds
      only records from or to `x`. */
  lemma LinkGrown<T>(before: map<T, seq<Distance<T>>>, m: map<T, seq<Distance<T>>>, m': map<T, seq<Distance<T>>>, x: T)
    requires GrownBy(before, m, x)
    requires forall k :: k in m <==> k in m'
    requires forall k, e :: k in m && e in m[k] ==> e in m'[k]
    requires forall k, e :: k in m' && e in m'[k] ==> e in m[k] || e.from == x || e.to == x
    ensures GrownBy(before, m', x)
  {
    forall k, e | k in m' && e in m'[k] ensures (k in before && e in before[k]) || e.from == x || e.to == x {
      assert k in m;
    }
  }

  /** When `x` was already present, one turn of the loop of `Add` inserts two
      records that are already there and so changes nothing. */
  lemma LinkUnchanged<T>(m: map<T, seq<Distance<T>>>, dist: (T, T) -> nat, x: T, y: T, m': map<T, seq<Distance<T>>>)
    requires WellFormed(m, dist) && x in m && y in m && y != x
    requires m' == m[x := Insert(m[x], Distance(x, y, dist(x, y)))][y := Insert(m[y], Distance(y, x, dist(y, x)))]
    ensures m' == m
  {
    RecordPresent(m, dist, x, y);
    RecordPresent(m, dist, y, x);
    assert Insert(m[x], Distance(x, y, dist(x, y))) == m[x];
    assert Insert(m[y], Distance(y, x, dist(y, x))) == m[y];
  }

  /** One turn of the loop of `Add` keeps every pair already complete and
      completes the pairs between `x` and `y`. */
  lemma LinkComplete<T>(m: map<T, seq<Distance<T>>>, dist: (T, T) -> nat, before: map<T, seq<Distance<T>>>,
                        x: T, y: T, done: set<T>, m': map<T, seq<Distance<T>>>)
    requires CompleteAmong(m, before.Keys) && LinkedWith(m, x, done + {x})
    requires y in m && y != x
    requires m' == m[x := Insert(m[x], Distance(x, y, dist(x, y)))][y := Insert(m[y], Distance(y, x, dist(y, x)))]
    ensures CompleteAmong(m', before.Keys)
    ensures LinkedWith(m', x, (done + {y}) + {x})
  {
    LinkMembers(m, dist, x, y, m');
    forall a, b | a in before.Keys && a in m' && b in before.Keys ensures HasTarget(m'[a], b) {
      KeepsTarget(m[a], m'[a], b);
    }
    forall z | z in (done + {y}) + {x} && z in m' ensures HasTarget(m'[x], z) && HasTarget(m'[z], x) {
      if z == y {
        assert Distance(x, y, dist(x, y)) in m'[x];
        assert Distance(y, x, dist(y, x)) in m'[y];
      } else {
        KeepsTarget(m[x], m'[x], z);
        KeepsTarget(m[z], m'[z], x);
      }
    }
  }

  /** One turn of the loop of `Add`: storing both directions between `x` and
      an item `y` extends the handled items by `y`. */
  lemma LinkStep<T>(m: map<T, seq<Distance<T>>>, dist: (T, T) -> nat, before: map<T, seq<Distance<T>>>,
                    x: T, y: T, done: set<T>)
    requires WellFormed(before, dist) && Adding(m, dist, before, x, done)
    requires y in m && y != x
    ensures Adding(m[x := Insert(m[x], Distance(x, y, dist(x, y)))][y := Insert(m[y], Distance(y, x, dist(y, x)))],
                   dist, before, x, done + {y})
  {
    var m' := m[x := Insert(m[x], Distance(x, y, dist(x, y)))][y := Insert(m[y], Distance(y, x, dist(y, x)))];
    LinkValid(m, dist, x, y, m');
    LinkMembers(m, dist, x, y, m');
    LinkGrown(before, m, m', x);
    LinkComplete(m, dist, before, x, y, done, m');
    if x in before {
      LinkUnchanged(m, dist, x, y, m');
    }
  }

  /** The loop of `Add` meets `x` itself among the keys and skips it: the
      pairs between `x` and itself are already complete. */
  lemma SkipSelf<T>(m: map<T, seq<Distance<T>>>, dist: (T, T) -> nat, before: map<T, seq<Distance<T>>>, x: T, done: set<T>)
    requires Adding(m, dist, before, x, done)
    ensures Adding(m, dist, before, x, done + {x})
  {
  }

  /** Once every item is handled, the matrix is well formed again, holds
      both directions between `x` and every item, and has grown from
      `before` by records from or to `x` only. */
  lemma FinishAdding<T>(m: map<T, seq<Distance<T>>>, dist: (T, T) -> nat, before: map<T, seq<Distance<T>>>, x: T, done: set<T>)
    requires Adding(m, dist, before, x, done) && m.Keys <= done
    ensures WellFormed(m, dist)
    ensures m.Keys == before.Keys + {x}
    ensures GrownBy(before, m, x)
    ensures x in before ==> m == before
    ensures Distance(x, x, 0) in m[x]
    ensures forall y :: y in m && y != x ==>
              Distance(x, y, dist(x, y)) in m[x] && Distance(y, x, dist(y, x)) in m[y]
  {
    forall a, b | a in m.Keys && a in m && b in m.Keys ensures HasTarget(m[a], b) {
      if a == x {
        assert b in done + {x};
      } else if b == x {
        assert a in done + {x};
      } else {
        assert a in before.Keys && b in before.Keys;
      }
    }
    forall y | y in m && y != x
      ensures Distance(x, y, dist(x, y)) in m[x] && Distance(y, x, dist(y, x)) in m[y]
    {
      RecordPresent(m, dist, x, y);
      RecordPresent(m, dist, y, x);
    }
    RecordPresent(m, dist, x, x);
  }

  /** A distance matrix. The calculator is supplied at construction; each
      added item is a key of `distances`, mapped to its ordered record set. */
  class DistanceMatrix<T(==)> {
    var distances: map<T, seq<Distance<T>>>
    const calculator: (T, T) -> nat

    ghost predicate Valid()
      reads this
    {
      WellFormed(distances, calculator)
    }

    constructor (calculator: (T, T) -> nat)
      ensures Valid()
      ensures distances == map[] && this.calculator == calculator
    {
      distances := map[];
      this.calculator := calculator;
    }

    /** Adds an item: its self-record, then both directions between it and
        every item already present. */
    method Add(toAdd: T)
      requires Valid()
      modifies this
      ensures Valid()
      ensures distances.Keys == old(distances).Keys + {toAdd}
      ensures Distance(toAdd, toAdd, 0) in distances[toAdd]
      ensures forall y :: y in distances && y != toAdd ==>
                Distance(toAdd, y, calculator(toAdd, y)) in distances[toAdd] &&
                Distance(y, toAdd, calculator(y, toAdd)) in distances[y]
      ensures GrownBy(old(distances), distances, toAdd)
      ensures toAdd in old(distances) ==> distances == old(distances)
    {
      ghost var before := distances;
      var dist := calculator;
      var forThis := GetOrCreateDistanceSetFor(toAdd);
      if toAdd in before {
        StartReAdd(before, dist, toAdd);
      } else {
        StartFresh(before, dist, toAdd);
      }
      forThis := Insert(forThis, Distance(toAdd, toAdd, 0));
      distances := distances[toAdd := forThis];

      var pending := distances.Keys;
      ghost var done: set<T> := {};
      while pending != {}
        invariant WellFormed(before, dist)
        invariant pending <= distances.Keys
        invariant distances.Keys <= done + pending
        invariant Adding(distances, dist, before, toAdd, done)
        invariant forThis == distances[toAdd]
        decreases pending
      {
        var other :| other in pending;
        pending := pending - {other};
        if other == toAdd {
          SkipSelf(distances, dist, before, toAdd, done);
          done := done + {other};
          continue;
        }
        ghost var m := distances;
        var forOther := GetOrCreateDistanceSetFor(other);
        assert distances == m && forOther == m[other];

        var d := dist(toAdd, other);
        forThis := Insert(forThis, Distance(toAdd, other, d));
        distances := distances[toAdd := forThis];

        d := dist(other, toAdd);
        forOther := Insert(forOther, Distance(other, toAdd, d));
        distances := distances[other := forOther];

        LinkStep(m, dist, before, toAdd, other, done);
        done := done + {other};
      }
      FinishAdding(distances, dist, before, toAdd, done);
    }

    /** Returns the record set of `item`, creating an empty one first when
        `item` is not yet a key. This is a private step of `Add`: a new key's
        empty set breaks `Valid()` until `Add` inserts the self-record, so the
        contract does not promise `Valid()`. */
    method GetOrCreateDistanceSetFor(item: T) returns (s: seq<Distance<T>>)
      modifies this
      ensures item in old(distances) ==> distances == old(distances)
      ensures item !in old(distances) ==> distances == old(distances)[item := []]
      ensures s == distances[item]
    {
      if item !in distances {
        distances := distances[item := []];
      }
      s := distances[item];
    }

    /** The record set of `item`, nearest first, or None for an unknown item. */
    function GetDistancesFrom(item: T): (r: Option<seq<Distance<T>>>)
      reads this
      requires Valid()
      ensures r.None? <==> item !in distances
      ensures r.Some? ==> r.value != [] && r.value[0] == Distance(item, item, 0)
      ensures r.Some? ==> Sorted(r.value) && NoDuplicates(r.value)
      ensures r.Some? ==> forall e :: e in r.value ==>
                e.from == item && e.to in distances && e.distance == Stored(calculator, item, e.to)
      ensures r.Some? ==> forall b :: b in distances ==> Distance(item, b, Stored(calculator, item, b)) in r.value
    {
      if item in distances then
        RecordsPresentFrom(item);
        Some(distances[item])
      else
        None
    }

    lemma RecordsPresentFrom(item: T)
      requires Valid() && item in distances
      ensures forall b :: b in distances ==> Distance(item, b, Stored(calculator, item, b)) in distances[item]
    {
      forall b | b in distances ensures Distance(item, b, Stored(calculator, item, b)) in distances[item] {
        RecordPresent(distances, calculator, item, b);
      }
    }

    /** The distance stored from `a` to `b`, found by scanning the records of
        `a`; unknown items are reported, `a` first. */
    method GetDistanceBetween(a: T, b: T) returns (r: Result<nat>)
      requires Valid()
      ensures a !in distances ==> r == Failure(UnknownFrom)
      ensures a in distances && b !in distances ==> r == Failure(UnknownTo)
      ensures a in distances && b in distances ==> r == Success(Stored(calculator, a, b))
    {
      if a !in distances {
        return Failure(UnknownFrom);
      }
      if b !in distances {
        return Failure(UnknownTo);
      }
      var fromA := distances[a];
      var i := 0;
      while i < |fromA|
        invariant 0 <= i <= |fromA|
        invariant forall j :: 0 <= j < i ==> fromA[j].to != b
      {
        if fromA[i].to == b {
          return Success(fromA[i].distance);
        }
        i := i + 1;
      }
      return Failure(MissingRecord);
    }
  }
}
