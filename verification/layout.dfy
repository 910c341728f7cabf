/**
 * `src/components/AppLayout.tsx`: which class the current path selects, `handleSelectClass`
 * and the current-class reset in `handleDeleteClass`. The class list is a parameter whose
 * entries carry an optional slug; router navigation is returned as the path pushed, if any.
 */
module AppLayout {
  import opened Common

  /** The fields of a class the layout reads. */
  datatype ClassEntry = ClassEntry(id: nat, slug: Option<string>)

  /** The `classes` and `currentClassId` state. */
  datatype Layout = Layout(classes: seq<ClassEntry>, current: Option<nat>)

  /** A handler's effect: the new state and the path passed to `router.push`, if any. */
  datatype Step = Step(layout: Layout, navigate: Option<string>)

  /** `/`, `/manager` and everything under `/manager/`; `/managerX` is not one of them. */
  predicate IsManagerPath(path: string) {
    path == "/" || path == "/manager" || (|path| >= 9 && path[..9] == "/manager/")
  }

  /** `pathname.substring(1)`. */
  function SlugOfPath(path: string): (r: string)
    ensures |path| > 0 ==> [path[0]] + r == path
    ensures |path| == 0 ==> r == []
  {
    if |path| == 0 then [] else path[1..]
  }

  /** The index of the first class satisfying `p`, as `Array.prototype.find` picks it. */
  function FindFirst(classes: seq<ClassEntry>, p: ClassEntry -> bool): (r: Option<nat>)
    ensures r.Some? ==> r.value < |classes| && p(classes[r.value])
    ensures r.Some? ==> forall j :: 0 <= j < r.value ==> !p(classes[j])
    ensures r.None? ==> forall j :: 0 <= j < |classes| ==> !p(classes[j])
    decreases |classes|
  {
    if |classes| == 0 then None
    else if p(classes[0]) then Some(0)
    else
      match FindFirst(classes[1..], p)
      case None => None
      case Some(k) => Some(k + 1)
  }

  predicate HasSlug(c: ClassEntry, slug: string) {
    c.slug == Some(slug)
  }

  /** `j` is the first class with the slug. */
  predicate FirstWithSlug(classes: seq<ClassEntry>, slug: string, j: int) {
    0 <= j < |classes| && HasSlug(classes[j], slug) && forall k :: 0 <= k < j ==> !HasSlug(classes[k], slug)
  }

  /**
   * The `currentClassId` the load effect leaves for a path: none on the dashboard and manager
   * paths; otherwise the first class whose slug is the path without its leading character, or
   * the previous value when no class has that slug.
   */
  function CurrentForPath(path: string, classes: seq<ClassEntry>, current: Option<nat>): (r: Option<nat>)
    ensures IsManagerPath(path) ==> r == None
    ensures !IsManagerPath(path) && (forall j :: 0 <= j < |classes| ==> !HasSlug(classes[j], SlugOfPath(path))) ==> r == current
    ensures !IsManagerPath(path) && (exists j :: 0 <= j < |classes| && HasSlug(classes[j], SlugOfPath(path))) ==>
              (exists j :: FirstWithSlug(classes, SlugOfPath(path), j) && r == Some(classes[j].id))
  {
    if IsManagerPath(path) then None
    else
      match FindFirst(classes, (c: ClassEntry) => HasSlug(c, SlugOfPath(path)))
      case None => current
      case Some(i) => Some(classes[i].id)
  }

  /** `/managerX` is not a manager path: it is read as the slug `managerX`. */
  lemma ManagerPrefixIsNotExcluded(path: string)
    requires path == "/managerX"
    ensures !IsManagerPath(path)
    ensures SlugOfPath(path) == "managerX"
  {
    assert path[8] == 'X';
  }

  /**
   * `handleSelectClass`: when the first class with the id has a non-empty slug, it becomes
   * current and the router goes to `/` plus the slug; otherwise nothing happens.
   */
  function SelectClass(st: Layout, classId: nat): (r: Step)
    ensures r.layout.classes == st.classes
    ensures r.navigate.None? ==> r.layout == st
    ensures r.navigate.Some? ==> r.layout.current == Some(classId)
    ensures r.navigate.Some? <==>
              exists i :: 0 <= i < |st.classes| && st.classes[i].id == classId
                && (forall k :: 0 <= k < i ==> st.classes[k].id != classId)
                && st.classes[i].slug.Some? && st.classes[i].slug.value != []
    ensures r.navigate.Some? ==>
              exists i :: 0 <= i < |st.classes| && st.classes[i].id == classId && st.classes[i].slug.Some? && r.navigate == Some("/" + st.classes[i].slug.value)
  {
    match FindFirst(st.classes, (c: ClassEntry) => c.id == classId)
    case None => Step(st, None)
    case Some(i) =>
      var slug := st.classes[i].slug;
      if slug.Some? && slug.value != [] then Step(Layout(st.classes, Some(classId)), Some("/" + slug.value))
      else Step(st, None)
  }

  /** No two classes share a slug. */
  predicate UniqueSlugs(classes: seq<ClassEntry>) {
    forall i, j :: 0 <= i < j < |classes| && classes[i].slug.Some? ==> classes[i].slug != classes[j].slug
  }

  /**
   * Selecting a class and then loading the path it navigated to selects the same class again,
   * as long as slugs are unique and the slug does not spell a manager path.
   */
  lemma SelectThenLoadAgrees(st: Layout, classId: nat, other: Option<nat>)
    requires UniqueSlugs(st.classes)
    requires SelectClass(st, classId).navigate.Some?
    requires !IsManagerPath(SelectClass(st, classId).navigate.value)
    ensures CurrentForPath(SelectClass(st, classId).navigate.value, st.classes, other) == Some(classId)
  {
    var path := SelectClass(st, classId).navigate.value;
    var i :| 0 <= i < |st.classes| && st.classes[i].id == classId && st.classes[i].slug.Some? && path == "/" + st.classes[i].slug.value;
    var slug := st.classes[i].slug.value;
    assert SlugOfPath(path) == slug;
    var f := FindFirst(st.classes, (c: ClassEntry) => HasSlug(c, slug));
    assert HasSlug(st.classes[i], slug);
    assert f.Some?;
    assert f.value == i;
  }

  /**
   * `handleDeleteClass`. Without a database handle, or when the delete or the reload throws,
   * nothing changes. Otherwise the reloaded list replaces the old one, and the current class is
   * cleared, with a move to the dashboard, exactly when it was the deleted one.
   * `reloaded` is the outcome of `deleteClass` followed by `getAllClasses`.
   */
  function DeleteClassInLayout(st: Layout, hasDb: bool, classId: nat, reloaded: Result<seq<ClassEntry>, string>): (r: Step)
    ensures !hasDb || reloaded.Err? ==> r == Step(st, None)
    ensures hasDb && reloaded.Ok? ==> r.layout.classes == reloaded.value
    ensures hasDb && reloaded.Ok? ==> (r.layout.current == None && r.navigate == Some("/") <==> st.current == Some(classId))
    ensures hasDb && reloaded.Ok? && st.current != Some(classId) ==> r.layout.current == st.current && r.navigate == None
  {
    if !hasDb then Step(st, None)
    else
      match reloaded
      case Err(_) => Step(st, None)
      case Ok(list) =>
        if st.current == Some(classId) then Step(Layout(list, None), Some("/"))
        else Step(Layout(list, st.current), None)
  }

  /** A successful delete never leaves the deleted class selected. */
  lemma DeleteLeavesNoStaleSelection(st: Layout, classId: nat, list: seq<ClassEntry>)
    ensures DeleteClassInLayout(st, true, classId, Ok(list)).layout.current != Some(classId)
  {
  }
}
