/**
 * `AssignmentDatabase` of `src/utils/database.ts`. Every method first fails with
 * "Database not initialized" when no database handle has been opened; otherwise it
 * behaves exactly like its twin in `database.js` (module `RecordStore`).
 */
module AssignmentDatabase {
  import opened Common
  import opened RecordStore

  /** The `db` field: `null` until `init` succeeds, then an open store. */
  datatype Handle = Uninitialized | Ready(store: Store)

  ghost predicate ValidHandle(h: Handle) {
    h.Ready? ==> Valid(h.store)
  }

  function AddClass(h: Handle, className: string, createdAt: string): (r: Result<Reply<nat>, DbError>)
    requires ValidHandle(h)
    ensures h.Uninitialized? ==> r == Err(NotInitialized)
    ensures h.Ready? ==> r == RecordStore.AddClass(h.store, className, createdAt)
    ensures r.Ok? ==> Valid(r.value.store) && r.value.store.classes[r.value.value].name == className
  {
    match h
    case Uninitialized => Err(NotInitialized)
    case Ready(s) => RecordStore.AddClass(s, className, createdAt)
  }

  function GetAllClasses(h: Handle): (r: Result<seq<ClassRecord>, DbError>)
    requires ValidHandle(h)
    ensures h.Uninitialized? ==> r == Err(NotInitialized)
    ensures h.Ready? ==> r.Ok? && forall c :: c in r.value <==> c in h.store.classes.Values
  {
    match h
    case Uninitialized => Err(NotInitialized)
    case Ready(s) => Ok(RecordStore.GetAllClasses(s))
  }

  function DeleteClass(h: Handle, classId: nat): (r: Result<Store, DbError>)
    requires ValidHandle(h)
    ensures h.Uninitialized? ==> r == Err(NotInitialized)
    ensures h.Ready? ==> r == Ok(RecordStore.DeleteClass(h.store, classId))
    ensures r.Ok? ==> classId !in r.value.classes
    ensures r.Ok? ==> forall k :: k in r.value.assignments ==> r.value.assignments[k].classId != classId
  {
    match h
    case Uninitialized => Err(NotInitialized)
    case Ready(s) => Ok(RecordStore.DeleteClass(s, classId))
  }

  function AddAssignment(h: Handle, d: Draft, createdAt: string): (r: Result<Reply<nat>, DbError>)
    requires ValidHandle(h)
    ensures h.Uninitialized? ==> r == Err(NotInitialized)
    ensures h.Ready? ==> r == Ok(RecordStore.AddAssignment(h.store, d, createdAt))
    ensures r.Ok? ==> !r.value.store.assignments[r.value.value].completed
  {
    match h
    case Uninitialized => Err(NotInitialized)
    case Ready(s) => Ok(RecordStore.AddAssignment(s, d, createdAt))
  }

  function GetAssignmentsByClass(h: Handle, classId: nat): (r: Result<seq<Assignment>, DbError>)
    requires ValidHandle(h)
    ensures h.Uninitialized? ==> r == Err(NotInitialized)
    ensures h.Ready? ==> r.Ok? && r.value == RecordStore.GetAssignmentsByClass(h.store, classId)
    ensures r.Ok? ==> forall a :: a in r.value ==> a.classId == classId
  {
    match h
    case Uninitialized => Err(NotInitialized)
    case Ready(s) => Ok(RecordStore.GetAssignmentsByClass(s, classId))
  }

  function UpdateAssignment(h: Handle, assignmentId: nat, updates: Patch): (r: Result<Reply<Assignment>, DbError>)
    requires ValidHandle(h)
    ensures h.Uninitialized? ==> r == Err(NotInitialized)
    ensures h.Ready? ==> r == RecordStore.UpdateAssignment(h.store, assignmentId, updates)
    ensures h.Ready? && assignmentId !in h.store.assignments ==> r == Err(NotFound)
  {
    match h
    case Uninitialized => Err(NotInitialized)
    case Ready(s) => RecordStore.UpdateAssignment(s, assignmentId, updates)
  }

  function DeleteAssignment(h: Handle, assignmentId: nat): (r: Result<Store, DbError>)
    requires ValidHandle(h)
    ensures h.Uninitialized? ==> r == Err(NotInitialized)
    ensures h.Ready? ==> r == Ok(RecordStore.DeleteAssignment(h.store, assignmentId))
    ensures r.Ok? ==> assignmentId !in r.value.assignments
  {
    match h
    case Uninitialized => Err(NotInitialized)
    case Ready(s) => Ok(RecordStore.DeleteAssignment(s, assignmentId))
  }

  function GetAllUpcomingAssignments(h: Handle, now: int): (r: Result<seq<Assignment>, DbError>)
    requires ValidHandle(h)
    ensures h.Uninitialized? ==> r == Err(NotInitialized)
    ensures h.Ready? ==> r.Ok? && r.value == RecordStore.GetAllUpcomingAssignments(h.store, now)
    ensures r.Ok? ==> forall a :: a in r.value ==> !a.completed && a.dueDate.Some? && a.dueDate.value >= now
  {
    match h
    case Uninitialized => Err(NotInitialized)
    case Ready(s) => Ok(RecordStore.GetAllUpcomingAssignments(s, now))
  }
}
