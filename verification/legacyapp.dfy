/**
 * The event handlers of the legacy `app.js` page: adding a class, adding an assignment,
 * selecting and deleting a class, and the due badge of an assignment card. The store is the
 * `database.js` store of module `RecordStore`; alerts are returned as text.
 */
module LegacyApp {
  import opened Common
  import opened Text
  import opened RecordStore
  import DateTime
  import AssignmentForm

  /** The page object's state: the store, `currentClassId` and `currentClassName`. */
  datatype AppState = AppState(store: Store, currentClassId: Option<nat>, currentClassName: string)

  /** A handler's effect: the new state and the `alert` shown, if any. */
  datatype Effect = Effect(app: AppState, alert: Option<string>)

  /**
   * `handleAddClass`: the trimmed name, rejected when blank; a name another class holds is
   * reported and changes nothing; otherwise the class is added.
   */
  function HandleAddClass(app: AppState, input: string, createdAt: string): (r: Effect)
    requires Valid(app.store)
    ensures Valid(r.app.store)
    ensures AllSpace(input) ==> r == Effect(app, Some("Please enter a class name"))
    ensures !AllSpace(input) && NameTaken(app.store.classes, Trim(input)) ==>
              r == Effect(app, Some("A class with this name already exists"))
    ensures !AllSpace(input) && !NameTaken(app.store.classes, Trim(input)) ==>
              && r.alert.None?
              && (exists id :: id !in app.store.classes && r.app.store.classes.Keys == app.store.classes.Keys + {id}
                                && r.app.store.classes[id].name == Trim(input))
    ensures r.app.currentClassId == app.currentClassId && r.app.currentClassName == app.currentClassName
  {
    var name := Trim(input);
    if name == [] then Effect(app, Some("Please enter a class name"))
    else
      match AddClass(app.store, name, createdAt)
      case Err(_) => Effect(app, Some("A class with this name already exists"))
      case Ok(reply) => Effect(app.(store := reply.store), None)
  }

  /** The same name entered twice: the second attempt is reported and leaves the store as the first left it. */
  lemma AddClassTwiceRejected(app: AppState, input: string, createdAt: string, later: string)
    requires Valid(app.store)
    requires !AllSpace(input)
    ensures var once := HandleAddClass(app, input, createdAt).app;
            HandleAddClass(once, input, later) == Effect(once, Some("A class with this name already exists"))
  {
    var once := HandleAddClass(app, input, createdAt).app;
    if !NameTaken(app.store.classes, Trim(input)) {
      var id :| id !in app.store.classes && once.store.classes.Keys == app.store.classes.Keys + {id}
                 && once.store.classes[id].name == Trim(input);
      assert id in once.store.classes;
    }
  }

  /** `selectClass`: the clicked class becomes current. */
  function SelectClass(app: AppState, classId: nat, className: string): (r: AppState)
    ensures r.currentClassId == Some(classId) && r.currentClassName == className
    ensures r.store == app.store
  {
    app.(currentClassId := Some(classId), currentClassName := className)
  }

  /**
   * `handleDeleteClass`: nothing unless the user confirms; then the class and its assignments
   * are deleted, and the selection is cleared when it was the deleted class.
   */
  function HandleDeleteClass(app: AppState, classId: nat, confirmed: bool): (r: AppState)
    requires Valid(app.store)
    ensures Valid(r.store)
    ensures !confirmed ==> r == app
    ensures confirmed ==> classId !in r.store.classes
    ensures confirmed ==> forall k :: k in r.store.assignments ==> r.store.assignments[k].classId != classId
    ensures confirmed && app.currentClassId == Some(classId) ==> r.currentClassId == None && r.currentClassName == []
    ensures app.currentClassId != Some(classId) ==> r.currentClassId == app.currentClassId && r.currentClassName == app.currentClassName
  {
    if !confirmed then app
    else
      var s := DeleteClass(app.store, classId);
      if app.currentClassId == Some(classId) then AppState(s, None, "")
      else app.(store := s)
  }

  /** Deleting the class just selected leaves no selection and nothing of that class behind. */
  lemma SelectThenDeleteClears(app: AppState, classId: nat, className: string)
    requires Valid(app.store)
    ensures var r := HandleDeleteClass(SelectClass(app, classId, className), classId, true);
            && r.currentClassId == None && r.currentClassName == []
            && classId !in r.store.classes
            && (forall k :: k in r.store.assignments ==> r.store.assignments[k].classId != classId)
  {
  }

  /** `date ? (time ? date + "T" + time : date + "T23:59") : null`. */
  function ComposeDueDate(date: string, time: string): (r: Option<string>)
    ensures r.None? <==> date == []
    ensures r.Some? ==> |r.value| > |date| && r.value[..|date|] == date && r.value[|date|] == 'T'
    ensures r.Some? && time == [] ==> r.value[|date| + 1..] == "23:59"
    ensures r.Some? && time != [] ==> r.value[|date| + 1..] == time
  {
    if date == [] then None
    else if time == [] then Some(date + "T23:59")
    else Some(date + "T" + time)
  }

  /**
   * The legacy due-date text and the one the React form builds from the same date and time
   * differ only by the seconds: the form appends `:00`, or `:59` to the default 23:59.
   */
  lemma DueDateAgreesWithForm(date: string, time: string)
    requires date != []
    ensures AssignmentForm.ComposeDueDate(date, time).value
         == ComposeDueDate(date, time).value + (if time == [] then ":59" else ":00")
  {
  }

  /**
   * The record `handleAddAssignment` stores: trimmed title, a blank description as `null`, no
   * type, and the composed due date as the store reads it (`toMillis` stands for `new Date`).
   */
  function PrepareAssignment(classId: nat, titleInput: string, descriptionInput: string, date: string, time: string,
                             toMillis: string -> int): (r: Result<Draft, string>)
    ensures r.Err? <==> AllSpace(titleInput)
    ensures r.Err? ==> r.error == "Please enter an assignment title"
    ensures r.Ok? ==> r.value.classId == classId && r.value.title == Trim(titleInput) && r.value.title != []
    ensures r.Ok? ==> (r.value.description.None? <==> AllSpace(descriptionInput))
    ensures r.Ok? && r.value.description.Some? ==> r.value.description.value == Trim(descriptionInput)
    ensures r.Ok? ==> r.value.kind.None? && (r.value.dueDate.None? <==> date == [])
    ensures r.Ok? && date != [] ==> r.value.dueDate == Some(toMillis(ComposeDueDate(date, time).value))
  {
    var title := Trim(titleInput);
    var description := Trim(descriptionInput);
    if title == [] then Err("Please enter an assignment title")
    else
      var due := match ComposeDueDate(date, time)
        case None => None
        case Some(s) => Some(toMillis(s));
      Ok(Draft(classId, title, if description == [] then None else Some(description), None, due))
  }

  /** `handleAddAssignment` for the selected class: a blank title is reported, otherwise the record is added. */
  function HandleAddAssignment(app: AppState, titleInput: string, descriptionInput: string, date: string, time: string,
                               createdAt: string, toMillis: string -> int): (r: Effect)
    requires Valid(app.store) && app.currentClassId.Some?
    ensures Valid(r.app.store)
    ensures AllSpace(titleInput) ==> r == Effect(app, Some("Please enter an assignment title"))
    ensures !AllSpace(titleInput) ==>
              && r.alert.None? && r.app.store.classes == app.store.classes
              && |r.app.store.assignments.Keys| == |app.store.assignments.Keys| + 1
              && (forall k :: k in app.store.assignments ==> (k in r.app.store.assignments && r.app.store.assignments[k] == app.store.assignments[k]))
    ensures r.app.currentClassId == app.currentClassId
  {
    match PrepareAssignment(app.currentClassId.value, titleInput, descriptionInput, date, time, toMillis)
    case Err(msg) => Effect(app, Some(msg))
    case Ok(d) =>
      var reply := AddAssignment(app.store, d, createdAt);
      assert reply.store.assignments.Keys == app.store.assignments.Keys + {reply.value};
      Effect(app.(store := reply.store), None)
  }

  /** The new record is the prepared one, incomplete, in the selected class. */
  lemma AddedAssignmentIsPrepared(app: AppState, titleInput: string, descriptionInput: string, date: string, time: string,
                                  createdAt: string, toMillis: string -> int)
    requires Valid(app.store) && app.currentClassId.Some? && !AllSpace(titleInput)
    ensures var r := HandleAddAssignment(app, titleInput, descriptionInput, date, time, createdAt, toMillis);
            var d := PrepareAssignment(app.currentClassId.value, titleInput, descriptionInput, date, time, toMillis).value;
            exists id :: id !in app.store.assignments && id in r.app.store.assignments
              && r.app.store.assignments[id] == Assignment(id, app.currentClassId.value, d.title, d.description, None, d.dueDate, false, createdAt)
  {
    var d := PrepareAssignment(app.currentClassId.value, titleInput, descriptionInput, date, time, toMillis).value;
    var reply := AddAssignment(app.store, d, createdAt);
    assert reply.value in reply.store.assignments;
  }

  /** The due line of an assignment card: its CSS class and the words before the formatted date. */
  datatype Badge = Badge(cls: string, caption: string)

  /**
   * The classification in `createAssignmentCard`: undated cards say "No due date"; a due time
   * already past is overdue; one at most a day away (`Math.ceil` of the day count at most 1) is
   * due soon; anything later has no class.
   */
  function DueBadge(due: Option<int>, now: int): (r: Badge)
    ensures due.None? ==> r == Badge("", "No due date")
    ensures r.cls == "overdue" || r.cls == "due-soon" || r.cls == ""
  {
    match due
    case None => Badge("", "No due date")
    case Some(t) =>
      var timeDiff := t - now;
      if timeDiff < 0 then Badge("overdue", "Overdue")
      else if DateTime.CeilDiv(timeDiff, DateTime.DayMs) <= 1 then Badge("due-soon", "Due")
      else Badge("", "Due")
  }

  /** The badge in milliseconds: overdue iff past due, due soon iff within the next 24 hours. */
  lemma DueBadgeByMillis(due: int, now: int)
    ensures DueBadge(Some(due), now).cls == "overdue" <==> due < now
    ensures DueBadge(Some(due), now).cls == "due-soon" <==> now <= due <= now + DateTime.DayMs
    ensures DueBadge(Some(due), now).cls == "" <==> due > now + DateTime.DayMs
  {
    var x := due - now;
    if x >= 0 {
      var q := DateTime.CeilDiv(x, DateTime.DayMs);
      if q <= 1 {
        assert x <= DateTime.DayMs;
      } else {
        assert x > DateTime.DayMs;
      }
    }
  }

  /**
   * Everything the React status calls overdue the legacy badge calls overdue too, but the legacy
   * badge also marks a card overdue within the first day past due, which the React status calls
   * due today.
   */
  lemma LegacyOverdueIsWider(due: int, now: int, formattedDue: string)
    ensures DateTime.DueDateStatus(due, now, formattedDue).cls == "overdue" ==> DueBadge(Some(due), now).cls == "overdue"
    ensures due == now - 1 ==>
              DueBadge(Some(due), now).cls == "overdue" && DateTime.DueDateStatus(due, now, formattedDue).cls == "due-today"
  {
    DateTime.DueStatusByMillis(due, now, formattedDue);
    DueBadgeByMillis(due, now);
  }
}
