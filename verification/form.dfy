/**
 * The submit step of `src/components/AssignmentForm.tsx`: the title and type checks, the
 * composition of the `dueDate` string from the ISO date and the ISO time the blur handlers
 * stored, and the reset of the fields after adding. The blur handlers themselves are
 * `formatTimeInput` and `formatDateInput` (module `DateTime`).
 */
module AssignmentForm {
  import opened Common
  import opened Text
  import opened RecordStore
  import DateTime

  /** The seven `useState` fields of the form. */
  datatype FormState = FormState(
    title: string,
    description: string,
    kind: string,
    dateValue: string,
    timeValue: string,
    isoDate: string,
    timeIso: string)

  /** The object handed to `onSubmit`. */
  datatype Submission = Submission(title: string, description: string, kind: string, dueDate: Option<string>)

  /** The two alerts that stop a submit. */
  datatype FormError = BlankTitle | NoType

  /** What a submit produces and the state the form is left in. */
  datatype Outcome = Outcome(result: Result<Submission, FormError>, next: FormState)

  /** `defaultType || 'Homework'`: a missing or empty default falls back to `Homework`. */
  function DefaultKind(defaultType: Option<string>): (r: string)
    ensures r != []
    ensures defaultType.Some? && defaultType.value != [] ==> r == defaultType.value
  {
    if defaultType.Some? && defaultType.value != [] then defaultType.value else "Homework"
  }

  /** The add-mode starting state, which is also the state a successful add resets to. */
  function BlankForm(defaultType: Option<string>): (r: FormState)
    ensures r.title == [] && r.isoDate == [] && r.timeIso == []
    ensures r.kind == DefaultKind(defaultType)
  {
    FormState("", "", DefaultKind(defaultType), "", "", "", "")
  }

  /**
   * The initial state: in edit mode the title, description and type of the record
   * (`x || ''` and `x || defaultType || 'Homework'`), the date fields empty.
   */
  function InitialForm(initial: Option<Assignment>, defaultType: Option<string>): (r: FormState)
    ensures initial.None? ==> r == BlankForm(defaultType)
    ensures r.kind != []
    ensures initial.Some? && initial.value.kind.Some? && initial.value.kind.value != [] ==> r.kind == initial.value.kind.value
  {
    match initial
    case None => BlankForm(defaultType)
    case Some(a) =>
      var description := if a.description.Some? then a.description.value else "";
      var kind := if a.kind.Some? && a.kind.value != [] then a.kind.value else DefaultKind(defaultType);
      FormState(a.title, description, kind, "", "", "", "")
  }

  /**
   * The `dueDate` of the submission: absent without an ISO date, the last second of the day
   * without a time, otherwise the ISO time with `:00` seconds.
   */
  function ComposeDueDate(isoDate: string, timeIso: string): (r: Option<string>)
    ensures r.None? <==> isoDate == []
    ensures r.Some? ==> |r.value| > |isoDate| && r.value[..|isoDate|] == isoDate && r.value[|isoDate|] == 'T'
    ensures r.Some? && timeIso == [] ==> r.value[|isoDate| + 1..] == "23:59:59"
    ensures r.Some? && timeIso != [] ==> r.value[|isoDate| + 1..] == timeIso + ":00"
  {
    if isoDate == [] then None
    else if timeIso == [] then Some(isoDate + "T23:59:59")
    else Some(isoDate + "T" + timeIso + ":00")
  }

  /** The submitted record: trimmed title and description, the type as chosen, the composed due date. */
  function SubmissionOf(st: FormState): (r: Submission)
    ensures Trim(r.title) == r.title && Trim(r.description) == r.description
    ensures r.title == [] <==> AllSpace(st.title)
    ensures r.kind == st.kind && r.dueDate == ComposeDueDate(st.isoDate, st.timeIso)
  {
    TrimIdempotent(st.title);
    TrimIdempotent(st.description);
    Submission(Trim(st.title), Trim(st.description), st.kind, ComposeDueDate(st.isoDate, st.timeIso))
  }

  /** The two checks of `handleSubmit`, in order: the trimmed title, then the type. */
  function Validate(st: FormState): (r: Option<FormError>)
    ensures r == Some(BlankTitle) <==> AllSpace(st.title)
    ensures r == Some(NoType) <==> !AllSpace(st.title) && st.kind == []
    ensures r.None? <==> !AllSpace(st.title) && st.kind != []
  {
    if Trim(st.title) == [] then Some(BlankTitle)
    else if st.kind == [] then Some(NoType)
    else None
  }

  /**
   * `handleSubmit`. A title that trims to nothing, then an empty type, stop the submit and
   * change nothing. Otherwise the record is submitted; an add-mode form then resets, an
   * edit-mode form keeps its fields.
   */
  function HandleSubmit(st: FormState, editing: bool, defaultType: Option<string>): (r: Outcome)
    ensures r.result == Err(BlankTitle) <==> AllSpace(st.title)
    ensures r.result == Err(NoType) <==> !AllSpace(st.title) && st.kind == []
    ensures r.result.Err? ==> r.next == st
    ensures r.result.Ok? ==> r.result.value == SubmissionOf(st) && r.result.value.title != [] && r.result.value.kind != []
    ensures r.result.Ok? ==> r.next == if editing then st else BlankForm(defaultType)
  {
    match Validate(st)
    case Some(e) => Outcome(Err(e), st)
    case None => Outcome(Ok(SubmissionOf(st)), if editing then st else BlankForm(defaultType))
  }

  /** After a successful add the form is blank, so pressing submit again only raises the title alert. */
  lemma SecondAddIsRejected(st: FormState, defaultType: Option<string>)
    requires Validate(st).None?
    ensures HandleSubmit(st, false, defaultType).result.Ok?
    ensures var again := HandleSubmit(HandleSubmit(st, false, defaultType).next, false, defaultType);
            again.result == Err(BlankTitle) && again.next == BlankForm(defaultType)
  {
    AcceptedAddResets(st, defaultType);
    BlankFormRejected(defaultType);
  }

  /** An accepted add submits the record and resets the form. */
  lemma AcceptedAddResets(st: FormState, defaultType: Option<string>)
    requires Validate(st).None?
    ensures HandleSubmit(st, false, defaultType) == Outcome(Ok(SubmissionOf(st)), BlankForm(defaultType))
  {
  }

  /** Submitting the blank form raises the title alert and leaves it blank. */
  lemma BlankFormRejected(defaultType: Option<string>)
    ensures HandleSubmit(BlankForm(defaultType), false, defaultType) == Outcome(Err(BlankTitle), BlankForm(defaultType))
  {
    assert AllSpace(BlankForm(defaultType).title);
  }

  /** In edit mode the form keeps its fields, so submitting again submits the same record. */
  lemma EditResubmitsSame(st: FormState, defaultType: Option<string>)
    ensures HandleSubmit(HandleSubmit(st, true, defaultType).next, true, defaultType) == HandleSubmit(st, true, defaultType)
  {
  }

  /**
   * With a ten-character ISO date and the time the time field's blur handler stored, the due
   * date is `YYYY-MM-DDTHH:MM:00`, and its `HH:MM` reads back as the time the user typed.
   */
  lemma DueDateCarriesTypedTime(isoDate: string, typed: string)
    requires |isoDate| == 10
    requires DateTime.FormatTimeInput(typed).Some?
    ensures var due := ComposeDueDate(isoDate, DateTime.FormatTimeInput(typed).value.time).value;
            && |due| == 19 && due[..10] == isoDate && due[10] == 'T' && due[16..] == ":00"
            && DateTime.ParseTime(due[11..16]) == DateTime.ParseTime(typed)
  {
    var t := DateTime.FormatTimeInput(typed).value.time;
    DateTime.FormatTimeInputRoundTrip(typed);
    var due := isoDate + "T" + t + ":00";
    assert due[11..16] == t;
  }

  /** Without a time, the five characters after the `T` are `23:59`. */
  lemma UntimedDueTimeText(isoDate: string)
    requires isoDate != []
    ensures var due := ComposeDueDate(isoDate, "").value;
            var t := due[|isoDate| + 1..|isoDate| + 6];
            t[0] == '2' && t[1] == '3' && t[2] == ':' && t[3] == '5' && t[4] == '9'
  {
    var due := ComposeDueDate(isoDate, "").value;
    assert due[|isoDate| + 1..] == "23:59:59";
  }

  /** Without a time the due date is the last minute of the day, which reads back as 23:59. */
  lemma UntimedDueIsEndOfDay(isoDate: string)
    requires isoDate != []
    ensures var due := ComposeDueDate(isoDate, "").value;
            DateTime.ParseTime(due[|isoDate| + 1..|isoDate| + 6]) == Some(DateTime.Clock(23, 59))
  {
    UntimedDueTimeText(isoDate);
    var due := ComposeDueDate(isoDate, "").value;
    DateTime.EndOfDayText(due[|isoDate| + 1..|isoDate| + 6]);
  }
}
