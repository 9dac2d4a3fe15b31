# Distance matrix for stack-trace clustering

A model of `DistanceMatrix<T>` from Stack Detective. It is the grow-only,
possibly asymmetric pairwise distance matrix behind the clustering of stack
traces. Items are added one at a time. Each added item owns a record set:
the directed records `(from, to, distance)` from that item to every item
added so far, itself included, kept in ascending order of distance. Adding
an item stores its zero-distance self-record. It then stores both
directions between the new item and every item already present. The
distances come from a calculator supplied at construction. Lookups return
an item's record set, nearest first, or the distance between two items.

Files:

- `distance_records.dfy` (module `DistanceRecords`) holds the record type
  and the ordered record set. The Java `TreeSet` becomes a sequence kept
  sorted by distance, and its `add` becomes `Insert`.
- `distance_matrix.dfy` (module `Clustering`) holds the class
  `DistanceMatrix`, with its `distances` map field and its calculator.
  It also holds the matrix invariant `WellFormed` and the lemmas about it.
  `Add` is proved against the invariant through one step lemma per part
  of the Java method:
  - `StartReAdd` or `StartFresh` for the self-record;
  - `SkipSelf` or `LinkStep` for each turn of the loop over the keys;
  - `FinishAdding` after the loop.
- `scenarios.dfy` (module `Scenarios`) holds callers that use only the
  contracts. One builds a matrix of 5, 9 and 2 under the absolute
  difference and reads back its distances and the order of the records
  from 5. Another uses an asymmetric calculator.

Modelling choices:

- Items are compared by value (`T(==)`) where the Java code compares
  references (lines 37 and 80).
- The calculator is a total function `(T, T) -> nat` held in a `const`
  field.
- The comparator of the record type (`Distance.compareTo`) is not part of
  this model. Two separate assumptions stand in for it. First, records are
  ordered by distance, and records of equal distance stay in the order they
  were added. Second, a record equal in value to one already stored counts
  as present, so adding it changes nothing, as `TreeSet.add` does for an
  element its comparator finds equal. No single transitive comparator over
  `(from, to, distance)` gives both at once. Idempotence of re-adding an
  item rests on the second assumption alone: the last ensures of `Add` and
  `StartReAdd`. The self-record is added first with distance 0, so it
  always stays at the head of its set.
- The iteration order of `keySet()` is unspecified in Java. The loop of
  `Add` therefore picks each next key by an arbitrary choice, and every
  order is proved correct. `OrderIndependent` shows that the record sets
  hold the same records whatever order the items were added in.
- The `IllegalArgumentException`s of `getDistanceBetween` become
  `Failure(UnknownFrom)` and `Failure(UnknownTo)`. The
  `IllegalStateException` becomes `Failure(MissingRecord)`. The contract
  shows that a valid matrix in this model never returns it. That holds for
  the model only; the Java code can still reach it in the two ways listed
  under "Left out".
- `getDistancesFrom` returns `None` where Java returns `null`.

## Model

| member | source | states |
|---|---|---|
| DistanceRecords.InsertionPoint | src/main/java/com/markatta/stackdetective/clustering/DistanceMatrix.java:11-12 | the insertion position lies within the set; every record before it is no farther than the new distance; in a sorted set every record after it is strictly farther |
| DistanceRecords.Insert | src/main/java/com/markatta/stackdetective/clustering/DistanceMatrix.java:44-49 | adding a record already present leaves the set unchanged; otherwise the result holds exactly the old records plus the new one, as a multiset |
| DistanceRecords.InsertMembers | src/main/java/com/markatta/stackdetective/clustering/DistanceMatrix.java:44-49 | after an add, the new record is present, every old record is kept, and nothing else appears |
| DistanceRecords.InsertSorted | src/main/java/com/markatta/stackdetective/clustering/DistanceMatrix.java:11-12 | adding to a set sorted by ascending distance keeps it sorted |
| DistanceRecords.InsertNoDuplicates | src/main/java/com/markatta/stackdetective/clustering/DistanceMatrix.java:58-60 | adding never stores a record twice, as a set does |
| DistanceRecords.InsertKeepsFirst | src/main/java/com/markatta/stackdetective/clustering/DistanceMatrix.java:32-33 | a record no closer than the current head never displaces it, so the zero-distance self-record stays first |
| Clustering.RecordPresent | src/main/java/com/markatta/stackdetective/clustering/DistanceMatrix.java:78-85 | in a well-formed matrix the set of `a` holds the record `a -> b` with the stored distance for any two added items, so the scan finds it |
| Clustering.RecordsDetermined | src/main/java/com/markatta/stackdetective/clustering/DistanceMatrix.java:29-52 | a record is in the set of `k` exactly when it leads from `k` to an added item with the stored distance (both directions) |
| Clustering.UniqueRecord | src/main/java/com/markatta/stackdetective/clustering/DistanceMatrix.java:79-83 | exactly one position of the set of `a` leads to `b`: at least one exists and any two are the same |
| Clustering.OrderIndependent | src/main/java/com/markatta/stackdetective/clustering/DistanceMatrix.java:36-50 | two well-formed matrices over the same items hold the same records for every item, whatever order the keys were visited in |
| Clustering.InsertValid | src/main/java/com/markatta/stackdetective/clustering/DistanceMatrix.java:43-49 | adding a correct record from `k` keeps the set of `k` valid: self-record first, sorted, duplicate-free, every record correct |
| Clustering.StartReAdd | src/main/java/com/markatta/stackdetective/clustering/DistanceMatrix.java:30-33 | for an item already present, adding the self-record changes nothing, and the add has begun |
| Clustering.StartFresh | src/main/java/com/markatta/stackdetective/clustering/DistanceMatrix.java:30-33 | for a new item, the set created empty and given the self-record starts the add: every set valid, every old pair complete |
| Clustering.SkipSelf | src/main/java/com/markatta/stackdetective/clustering/DistanceMatrix.java:37-40 | skipping the new item itself in the loop keeps the loop invariant |
| Clustering.LinkStep | src/main/java/com/markatta/stackdetective/clustering/DistanceMatrix.java:41-49 | storing `x -> y` and `y -> x` keeps every set valid, keeps old pairs complete, completes the pairs between `x` and `y`, adds only records from or to `x`, and changes nothing on a re-add |
| Clustering.FinishAdding | src/main/java/com/markatta/stackdetective/clustering/DistanceMatrix.java:29-52 | after the loop the matrix is well formed, its keys are the old keys plus `x`, it holds the self-record and both directions with the calculator's values, and it grew by records from or to `x` only |
| Clustering.DistanceMatrix.constructor | src/main/java/com/markatta/stackdetective/clustering/DistanceMatrix.java:25-27 | a new matrix is empty, well formed, and keeps the given calculator |
| Clustering.DistanceMatrix.Add | src/main/java/com/markatta/stackdetective/clustering/DistanceMatrix.java:29-52 | keeps the invariant; the new keys are the old keys plus the item; stores the self-record and, for every other item `y`, `(x, y, D(x, y))` and `(y, x, D(y, x))` independently; removes no key or record; re-adding changes nothing |
| Clustering.DistanceMatrix.GetOrCreateDistanceSetFor | src/main/java/com/markatta/stackdetective/clustering/DistanceMatrix.java:58-64 | a present key leaves the map unchanged; an absent key is bound to an empty set; either way the result is the item's set |
| Clustering.DistanceMatrix.GetDistancesFrom | src/main/java/com/markatta/stackdetective/clustering/DistanceMatrix.java:66-68 | None exactly for an unknown item; otherwise the set begins with the self-record, is sorted and duplicate-free, holds only correct records from the item, and holds the record to every added item |
| Clustering.DistanceMatrix.GetDistanceBetween | src/main/java/com/markatta/stackdetective/clustering/DistanceMatrix.java:70-86 | an unknown `a` fails first, then an unknown `b`; with both added the result is the stored distance, `D(a, b)`, or 0 when `a == b`, so in this model the missing-record failure never happens |

## Left out

- `toString` (DistanceMatrix.java:88-91). It depends on Java's formatting of collections.
- The calculator's own code (`DistanceCalculator` and its implementations) is not part of this model. The calculator is a function parameter of the constructor.
- Clustering.DistanceMatrix.Add: the calculator returns a `nat`, while Java's `calculateDistance` returns a 32-bit `int`. Negative distances and overflow are not modelled.
- Clustering.DistanceMatrix.Add: items are compared by value, not by reference (lines 37 and 80). Re-adding an item equal to, but not identical with, a stored one is modelled as re-adding that item.
- Clustering.DistanceMatrix.GetDistanceBetween: the model never returns `MissingRecord`, but the Java code can throw its `IllegalStateException` (line 85) in two ways this model rules out. First, lines 71 and 74 find `b` by `equals`, while the scan at line 80 compares `getTo() == b` by reference. A `b` equal to a key but a different object, such as a boxed `Integer` outside the cached range, is never matched. Second, `put` at line 60 stores the key before any distance is computed. A calculator that throws partway through `add` leaves the item a key with pairs missing. The model's value equality and total `(T, T) -> nat` calculator exclude both.
- Clustering.DistanceMatrix.GetDistancesFrom: returns the record set as a value. Java returns the live `SortedSet`, so a caller could change the matrix through it. That aliasing is not modelled.
- The order of records with equal distance follows an assumed comparator (insertion order among equals). If the real comparator compared distances only, a `TreeSet` would drop the second of two records at the same distance. That case is not modelled.
- Hashing in `HashMap` and the red-black tree inside `TreeSet` are modelled as a map and a sorted sequence.
- Concurrency. The class has no synchronisation and is modelled as single-threaded.
- `DefaultDistanceCalculatorTest.java` exercises the stack-trace parser and the calculator, which are not part of this model. Its one fact that bears on the matrix is that an item is at distance 0 from itself. `Stored` and `GetDistanceBetween` state that fact.
