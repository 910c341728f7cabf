/**
 * The assignment tracker's record store: two keyed collections, `classes` and
 * `assignments`, each with its own auto-increment key generator, and a unique index on
 * class names. Every operation is one atomic transition of an immutable `Store`; a
 * failing operation leaves the store as it was (the caller keeps the old value).
 *
 * The members here are the bodies of `AssignmentDatabase` in `database.js`, which has no
 * "not initialised" guard; `AssignmentDatabase` (database.dfy) adds the guard of
 * `src/utils/database.ts`.
 */
module RecordStore {
  import opened Common

  datatype ClassRecord = ClassRecord(id: nat, name: string, createdAt: string)

  /** `kind` is the source's `type` field. `dueDate` is the due time in epoch milliseconds. */
  datatype Assignment = Assignment(
    id: nat,
    classId: nat,
    title: string,
    description: Option<string>,
    kind: Option<string>,
    dueDate: Option<int>,
    completed: bool,
    createdAt: string)

  /** What a caller hands to `addAssignment`. */
  datatype Draft = Draft(
    classId: nat,
    title: string,
    description: Option<string>,
    kind: Option<string>,
    dueDate: Option<int>)

  /** One key of an update object: absent, or present with a value (`Put(None)` clears an optional field). */
  datatype Field<T> = Keep | Put(value: T)

  datatype Patch = Patch(
    classId: Field<nat>,
    title: Field<string>,
    description: Field<Option<string>>,
    kind: Field<Option<string>>,
    dueDate: Field<Option<int>>,
    completed: Field<bool>,
    createdAt: Field<string>)

  const NoChange := Patch(Keep, Keep, Keep, Keep, Keep, Keep, Keep)

  datatype DbError =
    | NotInitialized   // "Database not initialized"
    | ConstraintError  // the unique `name` index rejected an insert
    | NotFound         // "Assignment not found"

  datatype Store = Store(
    classes: map<nat, ClassRecord>,
    assignments: map<nat, Assignment>,
    nextClassId: nat,
    nextAssignmentId: nat)

  /** A store together with the value an operation resolves to. */
  datatype Reply<+T> = Reply(store: Store, value: T)

  /** A freshly created database: both key generators start at 1. */
  const Empty := Store(map[], map[], 1, 1)

  ghost predicate UniqueNames(classes: map<nat, ClassRecord>) {
    forall i, j :: i in classes && j in classes && classes[i].name == classes[j].name ==> i == j
  }

  /** Keys are the records' ids, lie below their generator, and class names are unique. */
  ghost predicate Valid(s: Store) {
    && 1 <= s.nextClassId && 1 <= s.nextAssignmentId
    && (forall k :: k in s.classes ==> s.classes[k].id == k && 1 <= k < s.nextClassId)
    && (forall k :: k in s.assignments ==> s.assignments[k].id == k && 1 <= k < s.nextAssignmentId)
    && UniqueNames(s.classes)
  }

  lemma EmptyValid()
    ensures Valid(Empty)
  {
  }

  predicate NameTaken(classes: map<nat, ClassRecord>, name: string) {
    exists k :: k in classes && classes[k].name == name
  }

  /** The keys of `m` below `n`, ascending: the order in which `getAll` returns records. */
  function KeysBelow<T>(m: map<nat, T>, n: nat): (ks: seq<nat>)
    ensures forall i :: 0 <= i < |ks| ==> ks[i] in m && ks[i] < n
    ensures forall k :: k in m && k < n ==> k in ks
    ensures forall i, j :: 0 <= i < j < |ks| ==> ks[i] < ks[j]
  {
    if n == 0 then [] else KeysBelow(m, n - 1) + (if n - 1 in m then [n - 1] else [])
  }

  /** The values of `m` whose keys lie below `n`, in ascending key order. */
  function ValuesInKeyOrder<T(==,!new)>(m: map<nat, T>, n: nat): (r: seq<T>)
    requires forall k :: k in m ==> k < n
    ensures |r| == |KeysBelow(m, n)|
    ensures forall i :: 0 <= i < |r| ==> r[i] == m[KeysBelow(m, n)[i]]
    ensures forall v :: v in r <==> v in m.Values
  {
    var ks := KeysBelow(m, n);
    var r := seq(|ks|, i requires 0 <= i < |ks| => m[ks[i]]);
    ValuesListed(m, ks, r);
    r
  }

  lemma ValuesListed<T(!new)>(m: map<nat, T>, ks: seq<nat>, r: seq<T>)
    requires forall i :: 0 <= i < |ks| ==> ks[i] in m
    requires forall k :: k in m ==> k in ks
    requires |r| == |ks| && forall i :: 0 <= i < |r| ==> r[i] == m[ks[i]]
    ensures forall v :: v in r <==> v in m.Values
  {
    forall v | v in m.Values
      ensures v in r
    {
      var k :| k in m && m[k] == v;
      var i :| 0 <= i < |ks| && ks[i] == k;
      assert r[i] == v;
    }
  }

  ghost predicate IdsAscending(xs: seq<Assignment>) {
    forall i, j :: 0 <= i < j < |xs| ==> xs[i].id < xs[j].id
  }

  // ---------------------------------------------------------------- classes

  /** `addClass`: insert under the next generated key, unless the name index already holds the name. */
  function AddClass(s: Store, name: string, createdAt: string): (r: Result<Reply<nat>, DbError>)
    requires Valid(s)
    ensures r.Err? <==> NameTaken(s.classes, name)
    ensures r.Err? ==> r.error == ConstraintError
    ensures r.Ok? ==>
      var s', id := r.value.store, r.value.value;
      && id !in s.classes
      && id == s.nextClassId && s'.nextClassId == s.nextClassId + 1
      && s'.nextAssignmentId == s.nextAssignmentId
      && (forall k :: k in s.classes ==> k < id)
      && s'.classes.Keys == s.classes.Keys + {id}
      && s'.classes[id] == ClassRecord(id, name, createdAt)
      && (forall k :: k in s.classes ==> s'.classes[k] == s.classes[k])
      && s'.assignments == s.assignments
      && Valid(s')
  {
    if NameTaken(s.classes, name) then Err(ConstraintError)
    else
      var id := s.nextClassId;
      Ok(Reply(s.(classes := s.classes[id := ClassRecord(id, name, createdAt)], nextClassId := id + 1), id))
  }

  /** `getAllClasses`: every class, in ascending key order. */
  function GetAllClasses(s: Store): (r: seq<ClassRecord>)
    requires Valid(s)
    ensures forall c :: c in r <==> c in s.classes.Values
    ensures forall i, j :: 0 <= i < j < |r| ==> r[i].id < r[j].id
  {
    ValuesInKeyOrder(s.classes, s.nextClassId)
  }

  /** `deleteClass`: drop the class and, in the same transaction, every assignment that names it. */
  function DeleteClass(s: Store, id: nat): (s': Store)
    requires Valid(s)
    ensures id !in s'.classes
    ensures s'.classes.Keys == s.classes.Keys - {id}
    ensures forall k :: k in s'.classes ==> s'.classes[k] == s.classes[k]
    ensures forall k :: k in s'.assignments <==> k in s.assignments && s.assignments[k].classId != id
    ensures forall k :: k in s'.assignments ==> s'.assignments[k] == s.assignments[k]
    ensures Valid(s')
  {
    s.(classes := s.classes - {id},
       assignments := map k | k in s.assignments && s.assignments[k].classId != id :: s.assignments[k])
  }

  // ------------------------------------------------------------ assignments

  /** `addAssignment`: the caller's fields plus `completed = false` and the creation stamp, under a fresh key. */
  function AddAssignment(s: Store, d: Draft, createdAt: string): (r: Reply<nat>)
    requires Valid(s)
    ensures var s', id := r.store, r.value;
      && id !in s.assignments
      && id == s.nextAssignmentId && s'.nextAssignmentId == s.nextAssignmentId + 1
      && s'.nextClassId == s.nextClassId
      && (forall k :: k in s.assignments ==> k < id)
      && s'.assignments.Keys == s.assignments.Keys + {id}
      && s'.assignments[id] == Assignment(id, d.classId, d.title, d.description, d.kind, d.dueDate, false, createdAt)
      && (forall k :: k in s.assignments ==> s'.assignments[k] == s.assignments[k])
      && s'.classes == s.classes
      && Valid(s')
  {
    var id := s.nextAssignmentId;
    var a := Assignment(id, d.classId, d.title, d.description, d.kind, d.dueDate, false, createdAt);
    Reply(s.(assignments := s.assignments[id := a], nextAssignmentId := id + 1), id)
  }

  /** Every assignment, in ascending key order (`getAll`). */
  function AllAssignments(s: Store): (r: seq<Assignment>)
    requires Valid(s)
    ensures forall a :: a in r <==> a in s.assignments.Values
    ensures IdsAscending(r)
  {
    var r := ValuesInKeyOrder(s.assignments, s.nextAssignmentId);
    assert forall i :: 0 <= i < |r| ==> r[i].id == KeysBelow(s.assignments, s.nextAssignmentId)[i];
    r
  }

  lemma {:induction false} FilterKeepsIdsAscending(xs: seq<Assignment>, p: Assignment -> bool)
    requires IdsAscending(xs)
    ensures IdsAscending(Filter(xs, p))
    decreases |xs|
  {
    if |xs| > 0 {
      FilterKeepsIdsAscending(xs[1..], p);
      var rest := Filter(xs[1..], p);
      forall j | 0 <= j < |rest|
        ensures xs[0].id < rest[j].id
      {
        var k :| 0 <= k < |xs[1..]| && xs[1..][k] == rest[j];
        assert xs[k + 1] == rest[j];
      }
    }
  }

  /**
   * The comparator both `getAssignmentsByClass` and `getAllUpcomingAssignments` sort with:
   * undated records after dated ones, dated ones by the difference of their times.
   */
  function CompareDue(a: Assignment, b: Assignment): int {
    if a.dueDate.None? && b.dueDate.None? then 0
    else if a.dueDate.None? then 1
    else if b.dueDate.None? then -1
    else a.dueDate.value - b.dueDate.value
  }

  lemma CompareDueFlip(a: Assignment, b: Assignment)
    ensures CompareDue(a, b) < 0 <==> CompareDue(b, a) > 0
    ensures CompareDue(a, b) == 0 <==> CompareDue(b, a) == 0
  {
  }

  lemma CompareDueTrans(a: Assignment, b: Assignment, c: Assignment)
    requires CompareDue(a, b) <= 0 && CompareDue(b, c) <= 0
    ensures CompareDue(a, c) <= 0
    ensures CompareDue(a, b) < 0 || CompareDue(b, c) < 0 ==> CompareDue(a, c) < 0
  {
  }

  /** Dated records first in ascending due time, undated last; equal due times by ascending id. */
  ghost predicate DueOrdered(r: seq<Assignment>) {
    forall i, j :: 0 <= i < j < |r| ==>
      CompareDue(r[i], r[j]) < 0 || (CompareDue(r[i], r[j]) == 0 && r[i].id < r[j].id)
  }

  /** Stable insertion of `x` after every element that does not compare greater than it. */
  function Insert(sorted: seq<Assignment>, x: Assignment): (r: seq<Assignment>)
    ensures multiset(r) == multiset(sorted) + multiset{x}
  {
    if |sorted| == 0 then [x]
    else if CompareDue(sorted[0], x) > 0 then [x] + sorted
    else
      assert sorted == [sorted[0]] + sorted[1..];
      [sorted[0]] + Insert(sorted[1..], x)
  }

  /**
   * `Array.prototype.sort` with `CompareDue`. The sort is stable, so records that compare
   * equal keep their input order; insertion sort is one stable sort.
   */
  function SortByDue(xs: seq<Assignment>): (r: seq<Assignment>)
    ensures multiset(r) == multiset(xs)
  {
    if |xs| == 0 then []
    else
      assert xs == xs[..|xs| - 1] + [xs[|xs| - 1]];
      Insert(SortByDue(xs[..|xs| - 1]), xs[|xs| - 1])
  }

  lemma {:induction false} InsertOrdered(sorted: seq<Assignment>, x: Assignment)
    requires DueOrdered(sorted)
    requires forall i :: 0 <= i < |sorted| ==> sorted[i].id < x.id
    ensures DueOrdered(Insert(sorted, x))
    decreases |sorted|
  {
    var r := Insert(sorted, x);
    if |sorted| == 0 {
    } else if CompareDue(sorted[0], x) > 0 {
      forall j | 0 <= j < |sorted|
        ensures CompareDue(x, sorted[j]) < 0
      {
        CompareDueFlip(sorted[0], x);
        if j > 0 {
          CompareDueTrans(x, sorted[0], sorted[j]);
        }
      }
    } else {
      InsertOrdered(sorted[1..], x);
      var tail := Insert(sorted[1..], x);
      assert r == [sorted[0]] + tail;
      forall j | 0 <= j < |tail|
        ensures CompareDue(sorted[0], tail[j]) < 0 || (CompareDue(sorted[0], tail[j]) == 0 && sorted[0].id < tail[j].id)
      {
        assert tail[j] in multiset(tail);
        if tail[j] == x {
        } else {
          assert tail[j] in multiset(sorted[1..]);
          var k :| 0 <= k < |sorted[1..]| && sorted[1..][k] == tail[j];
          assert sorted[k + 1] == tail[j];
        }
      }
    }
  }

  lemma {:induction false} SortByDueOrdered(xs: seq<Assignment>)
    requires IdsAscending(xs)
    ensures DueOrdered(SortByDue(xs))
    decreases |xs|
  {
    if |xs| > 0 {
      var init, x := xs[..|xs| - 1], xs[|xs| - 1];
      SortByDueOrdered(init);
      var sorted := SortByDue(init);
      forall i | 0 <= i < |sorted|
        ensures sorted[i].id < x.id
      {
        assert sorted[i] in multiset(init);
        var k :| 0 <= k < |init| && init[k] == sorted[i];
      }
      InsertOrdered(sorted, x);
    }
  }

  /**
   * `getAssignmentsByClass`: the records the `classId` index yields for `c` (ascending key),
   * sorted by due time with undated records last.
   */
  function GetAssignmentsByClass(s: Store, c: nat): (r: seq<Assignment>)
    requires Valid(s)
    ensures forall a :: a in r <==> a in s.assignments.Values && a.classId == c
    ensures multiset(r) == multiset(Filter(AllAssignments(s), (a: Assignment) => a.classId == c))
    ensures DueOrdered(r)
    ensures forall i, j :: 0 <= i < j < |r| && r[j].dueDate.Some? ==> r[i].dueDate.Some? && r[i].dueDate.value <= r[j].dueDate.value
  {
    var xs := Filter(AllAssignments(s), (a: Assignment) => a.classId == c);
    FilterKeepsIdsAscending(AllAssignments(s), (a: Assignment) => a.classId == c);
    SortByDueOrdered(xs);
    var r := SortByDue(xs);
    SameMembers(r, xs);
    DueOrderedPutsDatedFirst(r);
    r
  }

  lemma SameMembers(r: seq<Assignment>, xs: seq<Assignment>)
    requires multiset(r) == multiset(xs)
    ensures forall a :: a in r <==> a in xs
  {
    forall a
      ensures a in r <==> a in xs
    {
      assert a in r <==> a in multiset(r);
      assert a in xs <==> a in multiset(xs);
    }
  }

  lemma DueOrderedPutsDatedFirst(r: seq<Assignment>)
    requires DueOrdered(r)
    ensures forall i, j :: 0 <= i < j < |r| && r[j].dueDate.Some? ==> r[i].dueDate.Some? && r[i].dueDate.value <= r[j].dueDate.value
  {
    forall i, j | 0 <= i < j < |r| && r[j].dueDate.Some?
      ensures r[i].dueDate.Some? && r[i].dueDate.value <= r[j].dueDate.value
    {
      assert CompareDue(r[i], r[j]) <= 0;
    }
  }

  /** `getAllUpcomingAssignments`: incomplete, dated, due at or after `now`, ascending by due time. */
  function GetAllUpcomingAssignments(s: Store, now: int): (r: seq<Assignment>)
    requires Valid(s)
    ensures forall a :: a in r <==>
      a in s.assignments.Values && !a.completed && a.dueDate.Some? && a.dueDate.value >= now
    ensures multiset(r) == multiset(Filter(AllAssignments(s), (a: Assignment) => IsUpcoming(a, now)))
    ensures forall i, j :: 0 <= i < j < |r| ==> r[i].dueDate.value <= r[j].dueDate.value
    ensures DueOrdered(r)
  {
    var pending := Filter(AllAssignments(s), (a: Assignment) => !a.completed && a.dueDate.Some?);
    var xs := Filter(pending, (a: Assignment) => a.dueDate.Some? && a.dueDate.value >= now);
    FilterKeepsIdsAscending(AllAssignments(s), (a: Assignment) => !a.completed && a.dueDate.Some?);
    FilterKeepsIdsAscending(pending, (a: Assignment) => a.dueDate.Some? && a.dueDate.value >= now);
    FilterTwice(AllAssignments(s), now);
    SortByDueOrdered(xs);
    var r := SortByDue(xs);
    SameMembers(r, xs);
    DueOrderedPutsDatedFirst(r);
    r
  }

  predicate IsUpcoming(a: Assignment, now: int) {
    !a.completed && a.dueDate.Some? && a.dueDate.value >= now
  }

  /** The two successive filters of `getAllUpcomingAssignments` select the upcoming records. */
  lemma {:induction false} FilterTwice(xs: seq<Assignment>, now: int)
    ensures Filter(Filter(xs, (a: Assignment) => !a.completed && a.dueDate.Some?),
                   (a: Assignment) => a.dueDate.Some? && a.dueDate.value >= now)
         == Filter(xs, (a: Assignment) => IsUpcoming(a, now))
    decreases |xs|
  {
    if |xs| > 0 {
      FilterTwice(xs[1..], now);
      var p := (a: Assignment) => !a.completed && a.dueDate.Some?;
      var q := (a: Assignment) => a.dueDate.Some? && a.dueDate.value >= now;
      var f := Filter(xs, p);
      if p(xs[0]) {
        assert f == [xs[0]] + Filter(xs[1..], p);
        assert f[0] == xs[0] && f[1..] == Filter(xs[1..], p);
      } else {
        assert f == Filter(xs[1..], p);
      }
    }
  }

  /** `Object.assign(assignment, updates)`: every key present in the update overwrites the stored one. */
  function Merge(a: Assignment, p: Patch): Assignment {
    Assignment(
      a.id,
      if p.classId.Put? then p.classId.value else a.classId,
      if p.title.Put? then p.title.value else a.title,
      if p.description.Put? then p.description.value else a.description,
      if p.kind.Put? then p.kind.value else a.kind,
      if p.dueDate.Put? then p.dueDate.value else a.dueDate,
      if p.completed.Put? then p.completed.value else a.completed,
      if p.createdAt.Put? then p.createdAt.value else a.createdAt)
  }

  /** `updateAssignment`: merge onto the stored record and write it back, or fail when the key is absent. */
  function UpdateAssignment(s: Store, id: nat, p: Patch): (r: Result<Reply<Assignment>, DbError>)
    requires Valid(s)
    ensures r.Err? <==> id !in s.assignments
    ensures r.Err? ==> r.error == NotFound
    ensures r.Ok? ==>
      var s', m, prev := r.value.store, r.value.value, s.assignments[id];
      && s'.assignments.Keys == s.assignments.Keys
      && s'.assignments[id] == m
      && m.id == id
      && (p.classId.Put? ==> m.classId == p.classId.value) && (p.classId.Keep? ==> m.classId == prev.classId)
      && (p.title.Put? ==> m.title == p.title.value) && (p.title.Keep? ==> m.title == prev.title)
      && (p.description.Put? ==> m.description == p.description.value) && (p.description.Keep? ==> m.description == prev.description)
      && (p.kind.Put? ==> m.kind == p.kind.value) && (p.kind.Keep? ==> m.kind == prev.kind)
      && (p.dueDate.Put? ==> m.dueDate == p.dueDate.value) && (p.dueDate.Keep? ==> m.dueDate == prev.dueDate)
      && (p.completed.Put? ==> m.completed == p.completed.value) && (p.completed.Keep? ==> m.completed == prev.completed)
      && (p.createdAt.Put? ==> m.createdAt == p.createdAt.value) && (p.createdAt.Keep? ==> m.createdAt == prev.createdAt)
      && (forall k :: k in s.assignments && k != id ==> s'.assignments[k] == s.assignments[k])
      && s'.classes == s.classes
      && Valid(s')
  {
    if id !in s.assignments then Err(NotFound)
    else
      var m := Merge(s.assignments[id], p);
      Ok(Reply(s.(assignments := s.assignments[id := m]), m))
  }

  /** An update with no keys rewrites the record unchanged. */
  lemma UpdateWithNoKeys(s: Store, id: nat)
    requires Valid(s) && id in s.assignments
    ensures UpdateAssignment(s, id, NoChange) == Ok(Reply(s, s.assignments[id]))
  {
    var a := s.assignments[id];
    assert Merge(a, NoChange) == a;
    assert s.assignments[id := a] == s.assignments;
  }

  /** Applying the same update twice is the same as applying it once. */
  lemma UpdateIdempotent(s: Store, id: nat, p: Patch)
    requires Valid(s) && id in s.assignments
    ensures var r1 := UpdateAssignment(s, id, p);
      r1.Ok? && UpdateAssignment(r1.value.store, id, p) == r1
  {
    var m := Merge(s.assignments[id], p);
    assert Merge(m, p) == m;
    var s1 := s.(assignments := s.assignments[id := m]);
    assert s1.assignments[id := m] == s1.assignments;
  }

  /** `deleteAssignment`: drop the key; an absent key is a successful no-op. */
  function DeleteAssignment(s: Store, id: nat): (s': Store)
    requires Valid(s)
    ensures s'.assignments.Keys == s.assignments.Keys - {id}
    ensures forall k :: k in s'.assignments ==> s'.assignments[k] == s.assignments[k]
    ensures id !in s.assignments ==> s' == s
    ensures s'.classes == s.classes
    ensures Valid(s')
  {
    s.(assignments := s.assignments - {id})
  }

  // ------------------------------------------------------------ sequences of operations

  datatype Op =
    | AddClassOp(name: string, createdAt: string)
    | DeleteClassOp(classId: nat)
    | AddAssignmentOp(draft: Draft, createdAt: string)
    | UpdateAssignmentOp(assignmentId: nat, patch: Patch)
    | DeleteAssignmentOp(assignmentId: nat)

  /** One operation's effect on the store; a rejected operation leaves it unchanged. */
  function Step(s: Store, op: Op): (s': Store)
    requires Valid(s)
    ensures Valid(s')
    ensures op.AddClassOp? && NameTaken(s.classes, op.name) ==> s' == s
    ensures op.UpdateAssignmentOp? && op.assignmentId !in s.assignments ==> s' == s
  {
    match op
    case AddClassOp(name, at) =>
      (match AddClass(s, name, at) case Ok(r) => r.store case Err(_) => s)
    case DeleteClassOp(id) => DeleteClass(s, id)
    case AddAssignmentOp(d, at) => AddAssignment(s, d, at).store
    case UpdateAssignmentOp(id, p) =>
      (match UpdateAssignment(s, id, p) case Ok(r) => r.store case Err(_) => s)
    case DeleteAssignmentOp(id) => DeleteAssignment(s, id)
  }

  /** A run of operations from a valid store keeps it valid, so class names stay unique throughout. */
  function Run(s: Store, ops: seq<Op>): (s': Store)
    requires Valid(s)
    ensures Valid(s') && UniqueNames(s'.classes)
    decreases |ops|
  {
    if |ops| == 0 then s else Run(Step(s, ops[0]), ops[1..])
  }
}
