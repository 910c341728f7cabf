/**
 * `src/components/TasksList.tsx`: the split of a task list into `overdueInView` and
 * `otherTasksInView`, the order in which cards are rendered, and `getEmptyMessage`.
 * Rendering is reduced to the sequence of cards, each carrying its task and its overdue flag.
 */
module TasksList {
  import opened Common
  import opened RecordStore
  import opened DueDays

  /** The `selectedView` values. */
  datatype View = Overdue | Today | Tomorrow | Next7Days | All | NoDueDate

  /** A `TaskCard`: the task and its `isOverdue` flag. */
  datatype Card = Card(task: Assignment, overdue: bool)

  datatype Message = Message(main: string, sub: string)

  /** What the list shows: the empty-state message, or the cards in order. */
  datatype Panel = EmptyState(message: Message) | Cards(cards: seq<Card>)

  /** `tasks.filter(task => task.dueDate && dueDay < todayString)`. */
  function OverdueInView(tasks: seq<Assignment>, today: int): (r: seq<Assignment>)
    ensures forall a :: a in r <==> a in tasks && IsOverdue(a, today)
    ensures Subseq(r, tasks)
  {
    FilterIsSubseq(tasks, a => IsOverdue(a, today));
    Filter(tasks, a => IsOverdue(a, today))
  }

  /** `tasks.filter(task => !task.dueDate || dueDay >= todayString)`. */
  function OtherInView(tasks: seq<Assignment>, today: int): (r: seq<Assignment>)
    ensures forall a :: a in r <==> a in tasks && (Undated(a) || DayKey(a.dueDate.value) >= today)
    ensures Subseq(r, tasks)
  {
    FilterIsSubseq(tasks, a => IsCurrent(a, today));
    Filter(tasks, a => IsCurrent(a, today))
  }

  /** Every task lands in exactly one of the two lists, so the lists share out the view. */
  lemma ViewPartition(tasks: seq<Assignment>, today: int)
    ensures multiset(OverdueInView(tasks, today)) + multiset(OtherInView(tasks, today)) == multiset(tasks)
    ensures |OverdueInView(tasks, today)| + |OtherInView(tasks, today)| == |tasks|
    ensures forall a :: !(a in OverdueInView(tasks, today) && a in OtherInView(tasks, today))
  {
    FilterSplit(tasks, a => IsOverdue(a, today), a => IsCurrent(a, today));
  }

  /** `xs.map(task => <TaskCard task={task} isOverdue={flag} />)`. */
  function CardsOf(xs: seq<Assignment>, flag: bool): (r: seq<Card>)
    ensures |r| == |xs|
    ensures forall i :: 0 <= i < |xs| ==> r[i].task == xs[i] && r[i].overdue == flag
  {
    seq(|xs|, i requires 0 <= i < |xs| => Card(xs[i], flag))
  }

  function TasksOf(cards: seq<Card>): (r: seq<Assignment>)
    ensures |r| == |cards|
    ensures forall i :: 0 <= i < |cards| ==> r[i] == cards[i].task
  {
    seq(|cards|, i requires 0 <= i < |cards| => cards[i].task)
  }

  /** `getEmptyMessage`; its `default` branch cannot be reached with a `View`. */
  function EmptyMessage(v: View): Message {
    match v
    case Overdue => Message("No overdue tasks! \U{1F44D}", "You're all caught up!")
    case Today => Message("No tasks due today! \U{1F389}", "Enjoy your day or get ahead on tomorrow's work.")
    case Tomorrow => Message("No tasks due tomorrow! \U{1F389}", "Great! You have a free day tomorrow.")
    case Next7Days => Message("No tasks in the next 7 days! \U{1F389}", "Looks like you have a relaxing week ahead!")
    case All => Message("No tasks found! \U{1F389}", "No tasks at all! Time to add some assignments.")
    case NoDueDate => Message("No tasks without due dates! \U{1F389}", "No tasks without due dates!")
  }

  /** Each view has its own headline, so the empty state tells the views apart. */
  lemma EmptyHeadlinesDistinct(v: View, w: View)
    requires v != w
    ensures EmptyMessage(v).main != EmptyMessage(w).main
  {
    HeadlineLength(v);
    HeadlineLength(w);
  }

  /** The headlines have six different lengths. */
  function HeadlineSize(v: View): nat {
    match v
    case Overdue => 19
    case Today => 21
    case Tomorrow => 24
    case Next7Days => 30
    case All => 17
    case NoDueDate => 29
  }

  lemma HeadlineLength(v: View)
    ensures |EmptyMessage(v).main| == HeadlineSize(v)
  {
    match v
    case Overdue =>
    case Today =>
    case Tomorrow =>
    case Next7Days =>
    case All =>
    case NoDueDate =>
  }

  /**
   * The `TasksList` component. An empty list shows only the view's message. The overdue view
   * shows only the overdue cards; every other view shows the overdue cards, then the rest.
   */
  function RenderTasks(tasks: seq<Assignment>, v: View, today: int): (r: Panel)
    ensures r.EmptyState? <==> |tasks| == 0
    ensures r.EmptyState? ==> r.message == EmptyMessage(v)
    ensures r.Cards? ==> forall c :: c in r.cards ==> c.task in tasks && (c.overdue <==> IsOverdue(c.task, today))
  {
    if |tasks| == 0 then EmptyState(EmptyMessage(v))
    else if v == Overdue then Cards(CardsOf(OverdueInView(tasks, today), true))
    else
      var o := OverdueInView(tasks, today);
      var rest := OtherInView(tasks, today);
      var r := CardsOf(o, true) + CardsOf(rest, false);
      assert forall i :: 0 <= i < |r| ==> r[i] in CardsOf(o, true) || r[i] in CardsOf(rest, false);
      Cards(r)
  }

  /**
   * Outside the overdue view every task is rendered exactly once: the rendered tasks are a
   * permutation of the list, overdue ones first, each group in input order.
   */
  lemma RenderShowsEveryTask(tasks: seq<Assignment>, v: View, today: int)
    requires |tasks| > 0 && v != Overdue
    ensures multiset(TasksOf(RenderTasks(tasks, v, today).cards)) == multiset(tasks)
    ensures TasksOf(RenderTasks(tasks, v, today).cards)
         == OverdueInView(tasks, today) + OtherInView(tasks, today)
    ensures |RenderTasks(tasks, v, today).cards| == |tasks|
    ensures forall i, j :: 0 <= i < j < |tasks| && RenderTasks(tasks, v, today).cards[j].overdue
              ==> RenderTasks(tasks, v, today).cards[i].overdue
  {
    ViewPartition(tasks, today);
    var o := OverdueInView(tasks, today);
    var rest := OtherInView(tasks, today);
    var cards := RenderTasks(tasks, v, today).cards;
    assert cards == CardsOf(o, true) + CardsOf(rest, false);
    assert TasksOf(cards) == o + rest;
  }

  /** The overdue view drops tasks that are not overdue; when all are overdue it shows them all, in order. */
  lemma OverdueViewShowsOverdueOnly(tasks: seq<Assignment>, today: int)
    requires |tasks| > 0
    ensures TasksOf(RenderTasks(tasks, Overdue, today).cards) == OverdueInView(tasks, today)
    ensures (forall a :: a in tasks ==> IsOverdue(a, today))
              ==> TasksOf(RenderTasks(tasks, Overdue, today).cards) == tasks
  {
    if forall a :: a in tasks ==> IsOverdue(a, today) {
      FilterKeepsAll(tasks, a => IsOverdue(a, today));
    }
  }
}
