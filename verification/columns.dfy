/**
 * Grouping by assignment type: the four columns of `src/components/AssignmentList.tsx` and the
 * type filter with its per-type counts in `src/components/HistoryView.tsx`. Both compare
 * `a.type?.toLowerCase()` with `homework`, `projects` and `exams`; everything else is "other".
 */
module TypeColumns {
  import opened Common
  import opened Text
  import opened RecordStore

  /** `a.type?.toLowerCase() || ''`: a missing type reads as the empty string. */
  function LowerKind(a: Assignment): string {
    if a.kind.Some? then Lower(a.kind.value) else ""
  }

  /** `a.type?.toLowerCase() === k`: false when the type is missing. */
  predicate KindIs(a: Assignment, k: string) {
    a.kind.Some? && Lower(a.kind.value) == k
  }

  /** `!['homework', 'projects', 'exams'].includes(a.type?.toLowerCase() || '')`. */
  predicate IsOtherKind(a: Assignment) {
    !(LowerKind(a) == "homework" || LowerKind(a) == "projects" || LowerKind(a) == "exams")
  }

  /** "Other" is exactly "none of the three named types", and a missing type is other. */
  lemma OtherIsNoneOfThree(a: Assignment)
    ensures IsOtherKind(a) <==> !KindIs(a, "homework") && !KindIs(a, "projects") && !KindIs(a, "exams")
    ensures a.kind.None? ==> IsOtherKind(a)
  {
  }

  /** Upper and lower case spell the same type. */
  lemma KindIgnoresCase(a: Assignment, b: Assignment, k: string)
    requires a.kind.Some? && b.kind.Some? && Lower(a.kind.value) == Lower(b.kind.value)
    ensures KindIs(a, k) <==> KindIs(b, k)
    ensures IsOtherKind(a) <==> IsOtherKind(b)
  {
  }

  /** A `renderColumn` call: its title and the assignments it lists. */
  datatype Column = Column(title: string, items: seq<Assignment>)

  /** What `AssignmentList` shows: the empty notice naming the class, or the columns. */
  datatype ListPanel = NoAssignments(className: string) | Columns(columns: seq<Column>)

  /** `assignments.filter(a => a.type?.toLowerCase() === k)`: one named column's entries. */
  function ItemsOfKind(xs: seq<Assignment>, k: string): (r: seq<Assignment>)
    ensures forall a :: a in r <==> a in xs && KindIs(a, k)
    ensures Subseq(r, xs)
  {
    Select(xs, a => KindIs(a, k))
  }

  function OtherItems(xs: seq<Assignment>): (r: seq<Assignment>)
    ensures forall a :: a in r <==> a in xs && IsOtherKind(a)
    ensures Subseq(r, xs)
  {
    Select(xs, IsOtherKind)
  }

  /**
   * `AssignmentList`: no columns for an empty list; otherwise Homework, Projects and Exams
   * always, and Other only when some assignment is of another type.
   */
  function AssignmentList(xs: seq<Assignment>, className: string): (r: ListPanel)
    ensures r.NoAssignments? <==> |xs| == 0
    ensures r.NoAssignments? ==> r.className == className
    ensures r.Columns? ==> |r.columns| == 3 || |r.columns| == 4
    ensures r.Columns? ==> (|r.columns| == 4 <==> exists a :: a in xs && IsOtherKind(a))
    ensures r.Columns? ==> r.columns[0] == Column("Homework", ItemsOfKind(xs, "homework"))
    ensures r.Columns? ==> r.columns[1] == Column("Projects", ItemsOfKind(xs, "projects"))
    ensures r.Columns? ==> r.columns[2] == Column("Exams", ItemsOfKind(xs, "exams"))
    ensures r.Columns? && |r.columns| == 4 ==> r.columns[3] == Column("Other", OtherItems(xs))
  {
    if |xs| == 0 then NoAssignments(className)
    else
      OtherShownIff(xs);
      var fixed := [Column("Homework", ItemsOfKind(xs, "homework")), Column("Projects", ItemsOfKind(xs, "projects")), Column("Exams", ItemsOfKind(xs, "exams"))];
      if |OtherItems(xs)| > 0 then Columns(fixed + [Column("Other", OtherItems(xs))]) else Columns(fixed)
  }

  /** The Other column has entries iff some assignment is of another type. */
  lemma OtherShownIff(xs: seq<Assignment>)
    ensures |OtherItems(xs)| > 0 <==> exists a :: a in xs && IsOtherKind(a)
  {
    var other := OtherItems(xs);
    if |other| > 0 {
      assert other[0] in xs && IsOtherKind(other[0]);
    }
  }

  /** The four groups share out the list: every assignment is in exactly one, so the sizes sum to the total. */
  lemma {:induction false} ColumnsPartition(xs: seq<Assignment>)
    ensures multiset(ItemsOfKind(xs, "homework")) + multiset(ItemsOfKind(xs, "projects")) + multiset(ItemsOfKind(xs, "exams")) + multiset(OtherItems(xs)) == multiset(xs)
    ensures |ItemsOfKind(xs, "homework")| + |ItemsOfKind(xs, "projects")| + |ItemsOfKind(xs, "exams")| + |OtherItems(xs)| == |xs|
  {
    forall i | 0 <= i < |xs|
      ensures OneOfFour(xs[i], a => KindIs(a, "homework"), a => KindIs(a, "projects"), a => KindIs(a, "exams"), IsOtherKind)
    {
      OtherIsNoneOfThree(xs[i]);
    }
    FilterSplit4(xs, a => KindIs(a, "homework"), a => KindIs(a, "projects"), a => KindIs(a, "exams"), IsOtherKind);
  }

  /** The column sizes a non-empty list shows sum to the number of assignments. */
  lemma ShownColumnsCoverList(xs: seq<Assignment>, className: string)
    requires |xs| > 0
    ensures var cols := AssignmentList(xs, className).columns;
            |cols[0].items| + |cols[1].items| + |cols[2].items| + (if |cols| == 4 then |cols[3].items| else 0) == |xs|
  {
    ColumnsPartition(xs);
  }

  /** The type filters of the history view. */
  datatype TypeFilter = AllTypes | HomeworkOnly | ProjectsOnly | ExamsOnly | OtherOnly

  /** The `key` string of each filter button. */
  function KeyOf(f: TypeFilter): string {
    match f
    case AllTypes => "all"
    case HomeworkOnly => "homework"
    case ProjectsOnly => "projects"
    case ExamsOnly => "exams"
    case OtherOnly => "other"
  }

  /** How `filteredAssignments` reads `selectedFilter`: an unknown key falls through to "keep everything". */
  function FilterOfKey(key: string): (f: TypeFilter)
    ensures f != AllTypes ==> KeyOf(f) == key
  {
    if key == "homework" then HomeworkOnly
    else if key == "projects" then ProjectsOnly
    else if key == "exams" then ExamsOnly
    else if key == "other" then OtherOnly
    else AllTypes
  }

  /** A button's key selects that button's filter. */
  lemma FilterOfKeyRoundTrip(f: TypeFilter)
    ensures FilterOfKey(KeyOf(f)) == f
  {
    match f
    case AllTypes =>
      assert "all"[0] == 'a';
    case HomeworkOnly =>
    case ProjectsOnly =>
      assert "projects"[0] != "homework"[0];
    case ExamsOnly =>
      assert "exams"[0] != "homework"[0] && "exams"[0] != "projects"[0];
    case OtherOnly =>
      assert "other"[0] != "homework"[0] && "other"[0] != "projects"[0] && "other"[0] != "exams"[0];
  }

  predicate Matches(f: TypeFilter, a: Assignment) {
    match f
    case AllTypes => true
    case HomeworkOnly => KindIs(a, "homework")
    case ProjectsOnly => KindIs(a, "projects")
    case ExamsOnly => KindIs(a, "exams")
    case OtherOnly => IsOtherKind(a)
  }

  /** `filteredAssignments` over the completed list, for the selected key. */
  function FilteredAssignments(completed: seq<Assignment>, key: string): (r: seq<Assignment>)
    ensures forall a :: a in r <==> a in completed && Matches(FilterOfKey(key), a)
    ensures Subseq(r, completed)
    ensures FilterOfKey(key) == AllTypes ==> r == completed
  {
    var f := FilterOfKey(key);
    if f == AllTypes then
      FilterKeepsAll(completed, a => Matches(f, a));
      Select(completed, a => Matches(f, a))
    else Select(completed, a => Matches(f, a))
  }

  /** One entry of the filter-button list. */
  datatype FilterButton = FilterButton(filter: TypeFilter, caption: string, count: nat)

  /** The five candidate buttons, each count computed by its own `filter(...).length`. */
  function CandidateButtons(completed: seq<Assignment>): (r: seq<FilterButton>)
    ensures |r| == 5
    ensures r[0].filter == AllTypes && r[1].filter == HomeworkOnly && r[2].filter == ProjectsOnly
    ensures r[3].filter == ExamsOnly && r[4].filter == OtherOnly
    ensures r[0].count == |completed|
  {
    [ FilterButton(AllTypes, "All Types", |completed|),
      FilterButton(HomeworkOnly, "Homework", |Filter(completed, a => KindIs(a, "homework"))|),
      FilterButton(ProjectsOnly, "Projects", |Filter(completed, a => KindIs(a, "projects"))|),
      FilterButton(ExamsOnly, "Exams", |Filter(completed, a => KindIs(a, "exams"))|),
      FilterButton(OtherOnly, "Other", |Filter(completed, IsOtherKind)|) ]
  }

  /** `filter.count > 0 && <button>`: the buttons that are rendered, in order. */
  function ShownButtons(completed: seq<Assignment>): (r: seq<FilterButton>)
    ensures forall b :: b in r <==> b in CandidateButtons(completed) && b.count > 0
    ensures Subseq(r, CandidateButtons(completed))
  {
    Select(CandidateButtons(completed), (b: FilterButton) => b.count > 0)
  }

  /** Each button's count is the length of the list that clicking it selects. */
  lemma ButtonCountMatchesFilter(completed: seq<Assignment>, i: nat)
    requires i < 5
    ensures CandidateButtons(completed)[i].count == |FilteredAssignments(completed, KeyOf(CandidateButtons(completed)[i].filter))|
  {
    var f := CandidateButtons(completed)[i].filter;
    FilterOfKeyRoundTrip(f);
    match f
    case AllTypes =>
    case HomeworkOnly =>
      FilterExt(completed, a => Matches(f, a), a => KindIs(a, "homework"));
    case ProjectsOnly =>
      FilterExt(completed, a => Matches(f, a), a => KindIs(a, "projects"));
    case ExamsOnly =>
      FilterExt(completed, a => Matches(f, a), a => KindIs(a, "exams"));
    case OtherOnly =>
      FilterExt(completed, a => Matches(f, a), IsOtherKind);
  }

  /** The four per-type counts add up to the `all` count. */
  lemma TypeCountsSum(completed: seq<Assignment>)
    ensures var bs := CandidateButtons(completed);
            bs[1].count + bs[2].count + bs[3].count + bs[4].count == bs[0].count
  {
    ColumnsPartition(completed);
  }

  /** A filter button is shown iff clicking it would select at least one completed assignment. */
  lemma ButtonShownIff(completed: seq<Assignment>, i: nat)
    requires i < 5
    ensures (CandidateButtons(completed)[i] in ShownButtons(completed))
        <==> |FilteredAssignments(completed, KeyOf(CandidateButtons(completed)[i].filter))| > 0
  {
    ButtonCountMatchesFilter(completed, i);
  }
}
