/**
 * `src/components/Dashboard.tsx`: the buckets `loadDashboardData` computes from the list of
 * incomplete assignments, the list each view shows, and the render step that splits the view
 * into overdue and other cards. Days are UTC day numbers; `todayKey`, `tomorrowKey` and
 * `next7Key` are the day numbers of now, now plus one day and now plus seven days.
 */
module Dashboard {
  import opened Common
  import opened RecordStore
  import opened DueDays
  import opened TasksList

  /** The three day keys `loadDashboardData` computes from the clock. */
  datatype Days = Days(today: int, tomorrow: int, next7: int)

  /** The `DashboardStats` state. */
  datatype Stats = Stats(
    tasksToday: nat,
    tasksTomorrow: nat,
    totalTasks: nat,
    overdueTasks: nat,
    listToday: seq<Assignment>,
    listTomorrow: seq<Assignment>,
    listNext7Days: seq<Assignment>,
    listAll: seq<Assignment>,
    listOverdue: seq<Assignment>,
    withoutDates: seq<Assignment>)

  /** `loadDashboardData` after the store call: one filter per bucket over the incomplete list. */
  function LoadDashboard(incomplete: seq<Assignment>, d: Days): (r: Stats)
    ensures forall a :: a in r.listOverdue <==> a in incomplete && IsOverdue(a, d.today)
    ensures forall a :: a in r.listToday <==> a in incomplete && DueOn(a, d.today)
    ensures forall a :: a in r.listTomorrow <==> a in incomplete && DueOn(a, d.tomorrow)
    ensures forall a :: a in r.listNext7Days <==> a in incomplete && DueBetween(a, d.today, d.next7)
    ensures forall a :: a in r.withoutDates <==> a in incomplete && Undated(a)
    ensures r.listAll == incomplete && r.totalTasks == |incomplete|
    ensures r.tasksToday == |r.listToday| && r.tasksTomorrow == |r.listTomorrow| && r.overdueTasks == |r.listOverdue|
    ensures Subseq(r.listOverdue, incomplete) && Subseq(r.listToday, incomplete) && Subseq(r.listTomorrow, incomplete)
    ensures Subseq(r.listNext7Days, incomplete) && Subseq(r.withoutDates, incomplete)
  {
    var overdue := Select(incomplete, a => IsOverdue(a, d.today));
    var today := Select(incomplete, a => DueOn(a, d.today));
    var tomorrow := Select(incomplete, a => DueOn(a, d.tomorrow));
    var next7 := Select(incomplete, a => DueBetween(a, d.today, d.next7));
    var undated := Select(incomplete, Undated);
    Stats(|today|, |tomorrow|, |incomplete|, |overdue|, today, tomorrow, next7, incomplete, overdue, undated)
  }

  /** Today's bucket sits inside the seven-day bucket, in order; so does tomorrow's when it falls in the window. */
  lemma TodayWithinNext7(incomplete: seq<Assignment>, d: Days)
    requires d.today <= d.next7
    ensures Subseq(LoadDashboard(incomplete, d).listToday, LoadDashboard(incomplete, d).listNext7Days)
    ensures d.today <= d.tomorrow <= d.next7 ==>
              Subseq(LoadDashboard(incomplete, d).listTomorrow, LoadDashboard(incomplete, d).listNext7Days)
  {
    FilterMonotone(incomplete, a => DueOn(a, d.today), a => DueBetween(a, d.today, d.next7));
    if d.today <= d.tomorrow <= d.next7 {
      FilterMonotone(incomplete, a => DueOn(a, d.tomorrow), a => DueBetween(a, d.today, d.next7));
    }
  }

  /** Overdue, undated and dated-from-today share out the incomplete list. */
  lemma IncompletePartition(incomplete: seq<Assignment>, d: Days)
    ensures var s := LoadDashboard(incomplete, d);
            var fromToday := Filter(incomplete, a => DatedFrom(a, d.today));
            && multiset(s.listOverdue) + multiset(s.withoutDates) + multiset(fromToday) == multiset(incomplete)
            && s.overdueTasks + |s.withoutDates| + |fromToday| == s.totalTasks
  {
    FilterSplit3(incomplete, a => IsOverdue(a, d.today), Undated,
                 a => DatedFrom(a, d.today));
  }

  /** The list a view shows; the today view is the overdue bucket followed by today's. */
  function CurrentTasks(s: Stats, v: View): seq<Assignment> {
    match v
    case Overdue => s.listOverdue
    case Today => s.listOverdue + s.listToday
    case Tomorrow => s.listTomorrow
    case Next7Days => s.listNext7Days
    case All => s.listAll
    case NoDueDate => s.withoutDates
  }

  /** The today view holds each overdue and each due-today task, and no task is in both parts. */
  lemma TodayViewDisjoint(incomplete: seq<Assignment>, d: Days)
    ensures var s := LoadDashboard(incomplete, d);
            && CurrentTasks(s, Today) == s.listOverdue + s.listToday
            && |CurrentTasks(s, Today)| == s.overdueTasks + s.tasksToday
            && (forall a :: !(a in s.listOverdue && a in s.listToday))
            && (forall a :: a in CurrentTasks(s, Today) <==> a in incomplete && a.dueDate.Some? && DayKey(a.dueDate.value) <= d.today)
  {
  }

  /** The `viewLabel` spliced into the empty-state headline. */
  function ViewLabel(v: View): string {
    match v
    case Overdue => "overdue"
    case Today => "today"
    case Tomorrow => "tomorrow"
    case Next7Days => "in the next 7 days"
    case All => ""
    case NoDueDate => "without due dates"
  }

  /** The empty-state headline: its own text for `all` and `overdue`, else `No tasks due <label>!`. */
  function EmptyHeadline(v: View): string {
    if v == All then "No tasks found! \U{1F389}"
    else if v == Overdue then "No overdue tasks! \U{1F44D}"
    else "No tasks due " + ViewLabel(v) + "! \U{1F389}"
  }

  /**
   * The `emptyMessage` literals as written. The today text is a string expression inside JSX
   * braces, so `&apos;` is not decoded and is shown as the six characters `&apos;`.
   */
  function EmptySubAsWritten(v: View): string {
    match v
    case Overdue => "You're all caught up!"
    case Today => "Enjoy your day or get ahead on tomorrow&apos;s work."
    case Tomorrow => "Great! You have a free day tomorrow."
    case Next7Days => "Looks like you have a relaxing week ahead!"
    case All => "No tasks at all! Time to add some assignments."
    case NoDueDate => "No tasks without due dates!"
  }

  /** The today text as the dashboard shows it differs from the one the tasks list shows. */
  lemma EmptySubShowsEntity()
    ensures EmptySubAsWritten(Today) != EmptyMessage(Today).sub
    ensures '&' in EmptySubAsWritten(Today)
  {
    assert EmptySubAsWritten(Today)[39] == '&';
    assert EmptyMessage(Today).sub[39] == '\'';
  }

  /** The `emptyMessage` with an apostrophe in the today text, as the tasks list has it. */
  function EmptySub(v: View): (r: string)
    ensures r == EmptyMessage(v).sub
    ensures v != Today ==> r == EmptySubAsWritten(v)
  {
    if v == Today then "Enjoy your day or get ahead on tomorrow's work." else EmptySubAsWritten(v)
  }

  /**
   * The render step: the empty state, or the overdue cards alone in the overdue view, or the
   * overdue cards followed by the others. `renderToday` is the day the render reads from the clock.
   */
  function RenderDashboard(s: Stats, v: View, renderToday: int): (r: Panel)
    ensures r.EmptyState? <==> |CurrentTasks(s, v)| == 0
    ensures r.EmptyState? ==> r.message == Message(EmptyHeadline(v), EmptySub(v))
    ensures r.Cards? ==> r == RenderTasks(CurrentTasks(s, v), v, renderToday)
  {
    var current := CurrentTasks(s, v);
    if |current| == 0 then EmptyState(Message(EmptyHeadline(v), EmptySub(v)))
    else if v == Overdue then Cards(CardsOf(OverdueInView(current, renderToday), true))
    else Cards(CardsOf(OverdueInView(current, renderToday), true) + CardsOf(OtherInView(current, renderToday), false))
  }

  /** Overdue tasks followed by current ones split back into the two parts. */
  lemma SplitOverdueThenCurrent(o: seq<Assignment>, c: seq<Assignment>, today: int)
    requires forall i :: 0 <= i < |o| ==> IsOverdue(o[i], today)
    requires forall i :: 0 <= i < |c| ==> IsCurrent(c[i], today)
    ensures OverdueInView(o + c, today) == o
    ensures OtherInView(o + c, today) == c
  {
    var overdueP := (a: Assignment) => IsOverdue(a, today);
    var currentP := (a: Assignment) => IsCurrent(a, today);
    FilterAppend(o, c, overdueP);
    FilterAppend(o, c, currentP);
    FilterKeepsAll(o, overdueP);
    FilterKeepsAll(c, currentP);
    FilterDropsAll(o, currentP);
    FilterDropsAll(c, overdueP);
  }

  /** Rendered on the load day, the overdue view shows exactly the overdue bucket. */
  lemma RenderOverdueOnLoadDay(incomplete: seq<Assignment>, d: Days)
    ensures var s := LoadDashboard(incomplete, d);
            var r := RenderDashboard(s, Overdue, d.today);
            r.Cards? ==> TasksOf(r.cards) == s.listOverdue && |r.cards| == s.overdueTasks
  {
    var s := LoadDashboard(incomplete, d);
    FilterKeepsAll(s.listOverdue, a => IsOverdue(a, d.today));
  }

  /**
   * Rendered on the load day, the today view shows the overdue bucket flagged overdue followed
   * by today's tasks unflagged.
   */
  lemma RenderTodayOnLoadDay(incomplete: seq<Assignment>, d: Days)
    ensures var s := LoadDashboard(incomplete, d);
            var r := RenderDashboard(s, Today, d.today);
            r.Cards? ==> r.cards == CardsOf(s.listOverdue, true) + CardsOf(s.listToday, false)
  {
    var s := LoadDashboard(incomplete, d);
    forall i | 0 <= i < |s.listOverdue|
      ensures IsOverdue(s.listOverdue[i], d.today)
    {
      assert s.listOverdue[i] in s.listOverdue;
    }
    forall i | 0 <= i < |s.listToday|
      ensures IsCurrent(s.listToday[i], d.today)
    {
      assert s.listToday[i] in s.listToday;
    }
    RenderTodayView(s, d.today);
  }

  lemma RenderTodayView(s: Stats, today: int)
    requires forall i :: 0 <= i < |s.listOverdue| ==> IsOverdue(s.listOverdue[i], today)
    requires forall i :: 0 <= i < |s.listToday| ==> IsCurrent(s.listToday[i], today)
    ensures RenderDashboard(s, Today, today).Cards? ==>
              RenderDashboard(s, Today, today).cards == CardsOf(s.listOverdue, true) + CardsOf(s.listToday, false)
  {
    SplitOverdueThenCurrent(s.listOverdue, s.listToday, today);
  }
}
