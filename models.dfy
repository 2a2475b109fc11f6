/**
 * The in-memory model (model/ModelManager.java): the stored EduDex plus the
 * state of the person view, which is a predicate on the filtered list, a
 * comparator that may have been installed on the sorted list, and a flag
 * that switches the displayed list to a list of subject-trimmed copies.
 *
 * The observable state is given as a value, ModelState, with one pure
 * function per view operation; the class ModelManager updates its fields
 * and the stored persons so that its state follows those functions.
 */
module Models {
  import opened Wrappers
  import opened JavaText
  import opened Errors
  import opened Subjects
  import opened Lessons
  import opened Persons
  import opened SubjectLists
  import opened Roster
  import opened Views

  /**
   * The person view: the current predicate, whether SubjectComparator has
   * been installed, whether the trimmed copies are displayed, and those copies.
   */
  datatype ViewState = ViewState(filter: Filter, sorted: bool, subjectView: bool, display: seq<PersonData>)

  /** The model as values: the stored persons, the subject list and the view. */
  datatype ModelState = ModelState(roster: seq<PersonData>, subjects: seq<Subject>, view: ViewState)

  /** The view a fresh model starts with: all persons, no comparator, no trimmed copies. */
  const InitialView := ViewState(ShowAll, false, false, [])

  /** The filtered list: the stored persons satisfying the predicate, in roster order. */
  function Filtered(s: ModelState): seq<PersonData> {
    FilterPersons(s.roster, s.view.filter)
  }

  /** getFilteredPersonList: the trimmed copies in subject view, otherwise the (sorted) filtered list. */
  function Shown(s: ModelState): seq<PersonData> {
    if s.view.subjectView then s.view.display
    else if s.view.sorted then SortPersons(Filtered(s))
    else Filtered(s)
  }

  // ------------------------------------------------------ view operations

  /** updateFilteredPersonList: the predicate is replaced and the trimmed view is left. */
  function WithFilter(s: ModelState, f: Filter): ModelState {
    s.(view := s.view.(filter := f, subjectView := false))
  }

  /** sortFilteredPersonList(new SubjectComparator()): the comparator is installed and the trimmed view is left. */
  function WithComparator(s: ModelState): ModelState {
    s.(view := s.view.(sorted := true, subjectView := false))
  }

  /** The roster after sortLessonsForEachPerson: each person the predicate admits gets its lessons sorted. */
  function SortMatchingLessons(r: seq<PersonData>, f: Filter): seq<PersonData> {
    seq(|r|, i requires 0 <= i < |r| =>
      if Matches(f, r[i]) then PersonData(r[i].id, SortLessons(r[i].lessons)) else r[i])
  }

  /** sortLessonsForEachPerson on the model's state. */
  function WithSortedLessons(s: ModelState): ModelState {
    s.(roster := SortMatchingLessons(s.roster, s.view.filter))
  }

  /** sortLessonsForEachPersonBySubject: the trimmed copies of the filtered persons become the displayed list. */
  function WithTrimmedView(s: ModelState, keyword: string): ModelState {
    s.(view := s.view.(subjectView := true, display := TrimmedView(Filtered(s), keyword)))
  }

  /** addPerson: the EduDex's addPerson, then the filter is reset to show everyone. */
  function AddPersonState(s: ModelState, p: PersonData): (Outcome<Error>, ModelState) {
    var (o, r) := AddPersonValue(s.roster, p);
    if o.Pass? then (o, WithFilter(s.(roster := r), ShowAll)) else (o, s)
  }

  /** setPerson: the EduDex's setPerson; the view settings are kept. */
  function SetPersonState(s: ModelState, target: PersonData, edited: PersonData): (Outcome<Error>, ModelState) {
    var (o, r) := SetPersonValue(s.roster, target, edited);
    (o, s.(roster := r))
  }

  /** addSubject: refused when a subject of that name is present, otherwise appended. */
  function AddSubjectState(s: ModelState, subject: Subject): (Outcome<Error>, ModelState) {
    if HasSame(s.subjects, subject) then (Fail(DuplicateSubject), s)
    else (Pass, s.(subjects := s.subjects + [subject]))
  }

  /** deleteSubject: removes the first equal subject, or fails when there is none. */
  function DeleteSubjectState(s: ModelState, subject: Subject): (Outcome<Error>, ModelState) {
    if subject in s.subjects then (Pass, s.(subjects := RemoveFirst(s.subjects, subject)))
    else (Fail(SubjectNotFound), s)
  }

  // ------------------------------------------------------- view properties

  /** Outside subject view the displayed persons are exactly the stored persons the predicate admits. */
  lemma ShownPlainMembers(s: ModelState)
    requires !s.view.subjectView
    ensures multiset(Shown(s)) == multiset(Filtered(s))
    ensures forall p :: p in Shown(s) <==> p in s.roster && Matches(s.view.filter, p)
  {
    forall p ensures p in Shown(s) <==> p in s.roster && Matches(s.view.filter, p) {
      FilterMembership(s.roster, s.view.filter, p);
      assert p in Shown(s) <==> p in multiset(Shown(s));
    }
  }

  /**
   * updateFilteredPersonList replaces the predicate rather than composing
   * with it: afterwards the displayed persons depend on the new predicate
   * alone, whatever the old one was.
   */
  lemma FilterReplaced(s: ModelState, f: Filter)
    ensures multiset(Shown(WithFilter(s, f))) == multiset(FilterPersons(s.roster, f))
    ensures forall p :: p in Shown(WithFilter(s, f)) <==> p in s.roster && Matches(f, p)
  {
    ShownPlainMembers(WithFilter(s, f));
  }

  /**
   * The displayed list is the trimmed copies exactly when the latest view
   * call was sortLessonsForEachPersonBySubject.
   */
  lemma TrimmedViewIffLastCall(s: ModelState, f: Filter, keyword: string)
    ensures Shown(WithTrimmedView(s, keyword)) == TrimmedView(Filtered(s), keyword)
    ensures !WithFilter(s, f).view.subjectView && !WithComparator(s).view.subjectView
    ensures multiset(Shown(WithComparator(s))) == multiset(Filtered(s))
  {
    ShownPlainMembers(WithComparator(s));
  }

  /** Persons with the same identity and the same lessons in any order are admitted alike. */
  lemma MatchesIgnoresLessonOrder(f: Filter, p: PersonData, q: PersonData)
    requires p.id == q.id && multiset(p.lessons) == multiset(q.lessons)
    ensures Matches(f, p) == Matches(f, q)
  {
    forall l ensures l in p.lessons <==> l in q.lessons {
      assert l in p.lessons <==> l in multiset(p.lessons);
      assert l in q.lessons <==> l in multiset(q.lessons);
    }
    assert |p.lessons| == |q.lessons| by {
      assert |multiset(p.lessons)| == |multiset(q.lessons)|;
    }
    if f.ByDay? {
      if DayMatches(f.day, p) {
        var k :| 0 <= k < |p.lessons| && EqualsIgnoreCase(p.lessons[k].day.name, f.day.name);
        assert p.lessons[k] in q.lessons;
      }
      if DayMatches(f.day, q) {
        var k :| 0 <= k < |q.lessons| && EqualsIgnoreCase(q.lessons[k].day.name, f.day.name);
        assert q.lessons[k] in p.lessons;
      }
    } else if f.BySubject? {
      if SubjectMatches(f.keyword, p) {
        var k :| 0 <= k < |p.lessons| && EqualsIgnoreCase(p.lessons[k].subject.name, f.keyword);
        assert p.lessons[k] in q.lessons;
      }
      if SubjectMatches(f.keyword, q) {
        var k :| 0 <= k < |q.lessons| && EqualsIgnoreCase(q.lessons[k].subject.name, f.keyword);
        assert q.lessons[k] in p.lessons;
      }
    }
  }

  /**
   * sortLessonsForEachPerson keeps the person sequence and every identity;
   * each admitted person's lessons become a permutation sorted by (day
   * ordinal, start time), and every other person is left as it was.
   */
  lemma SortMatchingLessonsSpec(r: seq<PersonData>, f: Filter)
    ensures var r' := SortMatchingLessons(r, f);
      |r'| == |r| &&
      forall i :: 0 <= i < |r| ==>
        r'[i].id == r[i].id && multiset(r'[i].lessons) == multiset(r[i].lessons) &&
        (Matches(f, r[i]) ==> LessonsSorted(r'[i].lessons)) &&
        (!Matches(f, r[i]) ==> r'[i] == r[i])
  {
  }

  /** Lessons in (day ordinal, start time) order. */
  predicate LessonsSorted(ls: seq<Lesson>) {
    forall i, j :: 0 <= i < j < |ls| ==> Sorting.KeyLe(LessonKey(ls[i]), LessonKey(ls[j]))
  }

  /** Sorting the lessons a second time changes nothing: the predicate admits the same persons. */
  lemma SortMatchingLessonsIdempotent(r: seq<PersonData>, f: Filter)
    ensures SortMatchingLessons(SortMatchingLessons(r, f), f) == SortMatchingLessons(r, f)
  {
    var r1 := SortMatchingLessons(r, f);
    var r2 := SortMatchingLessons(r1, f);
    forall i | 0 <= i < |r| ensures r2[i] == r1[i] {
      MatchesIgnoresLessonOrder(f, r[i], r1[i]);
      if Matches(f, r[i]) {
        SortLessonsOfSorted(r1[i].lessons);
      }
    }
  }

  /** sortLessonsForEachPerson keeps the names, so the roster's names stay distinct. */
  lemma SortMatchingKeepsNamesDistinct(r: seq<PersonData>, f: Filter)
    requires NamesDistinct(r)
    ensures NamesDistinct(SortMatchingLessons(r, f))
  {
    var r' := SortMatchingLessons(r, f);
    forall i, j | 0 <= i < j < |r'| ensures !SamePerson(r'[i], r'[j]) {
      assert r'[i].id == r[i].id && r'[j].id == r[j].id;
    }
  }

  /** The trimmed view changes no stored person and no setting other than the displayed list. */
  lemma TrimmedViewKeepsRoster(s: ModelState, keyword: string)
    ensures WithTrimmedView(s, keyword).roster == s.roster
    ensures WithTrimmedView(s, keyword).subjects == s.subjects
    ensures WithTrimmedView(s, keyword).view.filter == s.view.filter
    ensures forall q :: q in Shown(WithTrimmedView(s, keyword)) ==>
      exists i :: 0 <= i < |Filtered(s)| && q == TrimmedCopy(Filtered(s)[i], keyword) && |q.lessons| > 0
  {
    TrimmedViewMembers(Filtered(s), keyword);
  }

  /** A successful addPerson stores the person at the end and shows everyone. */
  lemma AddPersonStateSpec(s: ModelState, p: PersonData)
    requires NamesDistinct(s.roster)
    ensures var (o, s') := AddPersonState(s, p);
      NamesDistinct(s'.roster) &&
      (o.Pass? <==> !HasSamePerson(s.roster, p)) &&
      (o.Pass? ==> (s'.roster == s.roster + [p] && s'.view.filter == ShowAll && !s'.view.subjectView &&
        multiset(Shown(s')) == multiset(s'.roster))) &&
      (o.Fail? ==> s' == s)
  {
    AddPersonKeepsNamesDistinct(s.roster, p);
    var (o, s') := AddPersonState(s, p);
    if o.Pass? {
      FilterAll(s'.roster);
      ShownPlainMembers(s');
    }
  }

  /** The show-all predicate admits everyone, in order. */
  lemma {:induction false} FilterAll(r: seq<PersonData>)
    ensures FilterPersons(r, ShowAll) == r
    decreases |r|
  {
    if r != [] {
      FilterAll(r[1..]);
      assert r == [r[0]] + r[1..];
    }
  }

  // ------------------------------------------------------------ the class

  class ModelManager {
    const eduDex: EduDex
    var filter: Filter
    var sorted: bool
    var subjectView: bool
    var display: seq<PersonData>

    ghost predicate Valid()
      reads this, eduDex, eduDex.persons, eduDex.subjects
    {
      eduDex.Valid()
    }

    /** The model's state as a value. */
    function State(): ModelState
      reads this, eduDex, eduDex.persons, eduDex.subjects
    {
      ModelState(eduDex.Roster(), eduDex.Subjects(), ViewState(filter, sorted, subjectView, display))
    }

    /**
     * new ModelManager(eduDex, userPrefs): a new EduDex is filled from the
     * given one by resetData, so it holds the same person objects and
     * subjects, and the view starts by showing everyone.
     */
    constructor (source: EduDex)
      requires source.Valid()
      ensures Valid() && fresh(eduDex) && fresh(eduDex.subjects)
      ensures eduDex.persons == source.persons
      ensures State() == ModelState(source.Roster(), source.Subjects(), InitialView)
    {
      var book := new EduDex();
      book.ResetData(source);
      eduDex := book;
      filter := ShowAll;
      sorted := false;
      subjectView := false;
      display := [];
    }

    /** new ModelManager(): an empty EduDex. */
    constructor Empty()
      ensures Valid() && fresh(eduDex) && fresh(eduDex.subjects)
      ensures State() == ModelState([], [], InitialView)
    {
      eduDex := new EduDex();
      filter := ShowAll;
      sorted := false;
      subjectView := false;
      display := [];
    }

    /**
     * getFilteredPersonList: in subject view the trimmed copies; otherwise
     * exactly the stored persons the predicate admits.
     */
    function FilteredPersonList(): (r: seq<PersonData>)
      reads this, eduDex, eduDex.persons, eduDex.subjects
      ensures subjectView ==> r == display
      ensures !subjectView ==> forall p :: p in r <==> p in eduDex.Roster() && Matches(filter, p)
    {
      if !subjectView then ShownPlainMembers(State()); Shown(State())
      else Shown(State())
    }

    /** updateFilteredPersonList. */
    method UpdateFilteredPersonList(f: Filter)
      modifies this
      ensures State() == WithFilter(old(State()), f)
    {
      filter := f;
      subjectView := false;
    }

    /** sortFilteredPersonList; the only comparator the application installs is SubjectComparator. */
    method SortFilteredPersonList()
      modifies this
      ensures State() == WithComparator(old(State()))
    {
      sorted := true;
      subjectView := false;
    }

    /**
     * sortLessonsForEachPerson: every person the predicate admits gets its
     * lesson list replaced by the sorted one, in place; the person
     * sequence and everything else stay.
     */
    method SortLessonsForEachPerson()
      requires Valid()
      modifies eduDex.persons
      ensures Valid()
      ensures eduDex.persons == old(eduDex.persons)
      ensures State() == WithSortedLessons(old(State()))
    {
      ghost var before := eduDex.Roster();
      ghost var target := SortMatchingLessons(before, filter);
      SortMatchingKeepsNamesDistinct(before, filter);
      var persons := eduDex.persons;
      assert forall j, k :: 0 <= j < k < |persons| ==> persons[j] != persons[k] by {
        forall j, k | 0 <= j < k < |persons| ensures persons[j] != persons[k] {
          assert before[j].id == persons[j].id && before[k].id == persons[k].id;
        }
      }
      for i := 0 to |persons|
        invariant forall j :: 0 <= j < i ==> persons[j].Data() == target[j]
        invariant forall j :: i <= j < |persons| ==> persons[j].Data() == before[j]
      {
        var person := persons[i];
        if Matches(filter, person.Data()) {
          person.SetLessons(SortLessons(person.lessons));
        }
      }
      assert eduDex.Roster() == target;
    }

    /**
     * sortLessonsForEachPersonBySubject: the trimmed copies of the filtered
     * persons become the displayed list; no stored person is touched.
     */
    method SortLessonsForEachPersonBySubject(keyword: string)
      modifies this
      ensures State() == WithTrimmedView(old(State()), keyword)
    {
      ghost var before := State();
      var copies := TrimmedView(FilterPersons(eduDex.Roster(), filter), keyword);
      subjectView := true;
      display := copies;
      assert eduDex.Roster() == before.roster;
    }

    /** addPerson: stores the person, then shows everyone. */
    method AddPerson(p: Person) returns (r: Outcome<Error>)
      requires Valid()
      modifies this, eduDex
      ensures Valid()
      ensures (r, State()) == AddPersonState(old(State()), p.Data())
    {
      r := eduDex.AddPerson(p);
      if r.Pass? {
        UpdateFilteredPersonList(ShowAll);
      }
    }

    /** setPerson: delegates to the EduDex. */
    method SetPerson(target: PersonData, edited: Person) returns (r: Outcome<Error>)
      requires Valid()
      modifies eduDex
      ensures Valid()
      ensures (r, State()) == SetPersonState(old(State()), target, edited.Data())
    {
      r := eduDex.SetPerson(target, edited);
    }

    /** hasSubject: some stored subject has that name. */
    function HasSubject(s: Subject): (r: bool)
      reads this, eduDex, eduDex.subjects
      ensures r <==> HasSame(eduDex.Subjects(), s)
    {
      eduDex.HasSubject(s)
    }

    /** addSubject: delegates to the EduDex; the subject list always shows every subject. */
    method AddSubject(s: Subject) returns (r: Outcome<Error>)
      requires Valid()
      modifies eduDex.subjects
      ensures Valid()
      ensures (r, State()) == AddSubjectState(old(State()), s)
    {
      r := eduDex.AddSubject(s);
    }

    /** deleteSubject: delegates to the EduDex. */
    method DeleteSubject(s: Subject) returns (r: Outcome<Error>)
      requires Valid()
      modifies eduDex.subjects
      ensures Valid()
      ensures (r, State()) == DeleteSubjectState(old(State()), s)
    {
      ghost var before := eduDex.Subjects();
      r := eduDex.RemoveSubject(s);
      if r.Pass? {
        RemoveFirstAt(before, s);
      }
    }

    /** findPersonWithLessonConflict: delegates to the EduDex and changes nothing. */
    method FindPersonWithLessonConflict(lesson: Lesson, exclude: PersonData) returns (r: Option<Person>)
      ensures match ConflictingPerson(eduDex.Roster(), lesson, exclude)
        case None => r.None?
        case Some(k) => r == Some(eduDex.persons[k])
    {
      r := eduDex.FindPersonWithLessonConflict(lesson, exclude);
    }
  }
}
