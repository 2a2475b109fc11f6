/**
 * FindCommand (logic/commands/FindCommand.java): three search modes, each
 * installing a fresh predicate on the person view, followed in the day
 * and subject modes by the comparator and a lesson rewrite.
 */
module FindCommands {
  import opened Wrappers
  import opened JavaText
  import opened Errors
  import opened Subjects
  import opened Days
  import opened Persons
  import opened SubjectLists
  import opened Roster
  import opened Views
  import opened Models

  /** The command with the predicate it was built from; the subject keyword is the predicate's trimmed one. */
  datatype FindCommand =
    | FindByName(keywords: seq<string>)
    | FindByDay(day: Day)
    | FindBySubject(keyword: string)

  /** The predicate the command installs. */
  function FilterOf(c: FindCommand): Filter {
    match c
    case FindByName(kws) => ByName(kws)
    case FindByDay(d) => ByDay(d)
    case FindBySubject(kw) => BySubject(kw)
  }

  /** The success result: the size of the displayed list. */
  function Listed(s: ModelState): (Result<nat, Error>, ModelState) {
    var count: nat := |Shown(s)|;
    (Ok(count), s)
  }

  /**
   * FindCommand.execute: the outcome (the number of persons listed, or the
   * error) and the new state. The subject must be taught before the view
   * is touched.
   */
  function FindSpec(s: ModelState, c: FindCommand): (Result<nat, Error>, ModelState) {
    match c
    case FindByDay(d) =>
      Listed(WithSortedLessons(WithComparator(WithFilter(s, ByDay(d)))))
    case FindBySubject(kw) =>
      if !HasSame(s.subjects, Subject(kw)) then (Err(SubjectNotInList), s)
      else
        Listed(WithTrimmedView(WithComparator(WithFilter(s, BySubject(kw))), kw))
    case FindByName(kws) =>
      Listed(WithFilter(s, ByName(kws)))
  }

  method Execute(m: ModelManager, c: FindCommand) returns (r: Result<nat, Error>)
    requires m.Valid()
    modifies m, m.eduDex.persons
    ensures m.Valid()
    ensures (r, m.State()) == FindSpec(old(m.State()), c)
  {
    match c {
      case FindByDay(d) =>
        m.UpdateFilteredPersonList(ByDay(d));
        m.SortFilteredPersonList();
        m.SortLessonsForEachPerson();
      case FindBySubject(kw) =>
        if !m.HasSubject(Subject(kw)) {
          return Err(SubjectNotInList);
        }
        m.UpdateFilteredPersonList(BySubject(kw));
        m.SortFilteredPersonList();
        m.SortLessonsForEachPersonBySubject(kw);
      case FindByName(kws) =>
        m.UpdateFilteredPersonList(ByName(kws));
    }
    var shown := m.FilteredPersonList();
    r := Ok(|shown|);
  }

  /** FindCommand.equals: the same mode and equal predicates. */
  predicate FindEquals(a: FindCommand, b: FindCommand) {
    SameFilter(FilterOf(a), FilterOf(b))
  }

  /** Command equality is an equivalence relation that never relates two modes. */
  lemma FindEqualsEquivalence(a: FindCommand, b: FindCommand, c: FindCommand)
    ensures FindEquals(a, a)
    ensures FindEquals(a, b) ==> FindEquals(b, a)
    ensures FindEquals(a, b) && FindEquals(b, c) ==> FindEquals(a, c)
    ensures FindEquals(a, b) ==> (a.FindByName? <==> b.FindByName?) && (a.FindByDay? <==> b.FindByDay?)
  {
    SameFilterEquivalence(FilterOf(a), FilterOf(b), FilterOf(c));
  }

  /** Equal name or day commands behave identically on every state. */
  lemma EqualCommandsAgree(s: ModelState, a: FindCommand, b: FindCommand)
    requires FindEquals(a, b) && !a.FindBySubject?
    ensures FindSpec(s, a) == FindSpec(s, b)
  {
  }

  /**
   * Subject commands are equal ignoring case, but the subject check is
   * case-sensitive: with only "Math" taught, "math" fails where "Math"
   * does not, although the two commands are equal.
   */
  lemma EqualSubjectCommandsMayDiffer(s: ModelState)
    requires s.subjects == [Subject("Math")]
    ensures FindEquals(FindBySubject("Math"), FindBySubject("math"))
    ensures FindSpec(s, FindBySubject("Math")).0.Ok?
    ensures FindSpec(s, FindBySubject("math")).0 == Err(SubjectNotInList)
  {
    assert IsSameSubject(s.subjects[0], Subject("Math"));
    assert !IsSameSubject(s.subjects[0], Subject("math")) by {
      assert "Math"[0] != "math"[0];
    }
    assert UpperChar("math"[0]) == 'M';
  }

  /** The displayed list depends on the roster and the view settings only. */
  lemma ShownDependsOnView(s: ModelState, t: ModelState)
    requires s.roster == t.roster && s.view.filter == t.view.filter && s.view.sorted == t.view.sorted
    requires s.view.subjectView == t.view.subjectView && (s.view.subjectView ==> s.view.display == t.view.display)
    ensures Shown(s) == Shown(t)
  {
  }

  /**
   * Searches never accumulate: the outcome, and after a successful search
   * the displayed list, do not depend on the predicate or the trimmed view
   * left by earlier commands (outside name mode, not on the comparator
   * either). A failed subject search leaves the earlier view in place.
   */
  lemma FindNeverAccumulates(s: ModelState, t: ModelState, c: FindCommand)
    requires s.roster == t.roster && s.subjects == t.subjects
    requires c.FindByName? ==> s.view.sorted == t.view.sorted
    ensures FindSpec(s, c).0 == FindSpec(t, c).0
    ensures FindSpec(s, c).0.Ok? ==> Shown(FindSpec(s, c).1) == Shown(FindSpec(t, c).1)
    ensures FindSpec(s, c).1.roster == FindSpec(t, c).1.roster
  {
    var s', t' := FindSpec(s, c).1, FindSpec(t, c).1;
    if !(c.FindBySubject? && !HasSame(s.subjects, Subject(c.keyword))) {
      ShownDependsOnView(s', t');
    }
  }

  /** The lesson rewrite works person by person: the first person, then the rest. */
  lemma SortMatchingLessonsCons(r: seq<PersonData>, f: Filter)
    requires r != []
    ensures var r' := SortMatchingLessons(r, f);
      r'[1..] == SortMatchingLessons(r[1..], f) &&
      r'[0].id == r[0].id && multiset(r'[0].lessons) == multiset(r[0].lessons)
  {
    var r', t := SortMatchingLessons(r, f), SortMatchingLessons(r[1..], f);
    assert |r'[1..]| == |t|;
    forall i | 0 <= i < |t| ensures r'[1..][i] == t[i] {
      assert r'[1..][i] == r'[i + 1] && r[1..][i] == r[i + 1];
    }
    assert r'[0] == if Matches(f, r[0]) then PersonData(r[0].id, SortLessons(r[0].lessons)) else r[0];
  }

  /** Sorting the admitted persons' lessons does not change how many persons the predicate admits. */
  lemma {:induction false} FilterAfterSortingLessons(r: seq<PersonData>, f: Filter)
    ensures |FilterPersons(SortMatchingLessons(r, f), f)| == |FilterPersons(r, f)|
    decreases |r|
  {
    if r != [] {
      var r' := SortMatchingLessons(r, f);
      SortMatchingLessonsCons(r, f);
      MatchesIgnoresLessonOrder(f, r[0], r'[0]);
      FilterAfterSortingLessons(r[1..], f);
      FilterCount(r', f);
      FilterCount(r, f);
    }
  }

  /** The number admitted: the first person's share, then the rest's. */
  lemma FilterCount(ps: seq<PersonData>, f: Filter)
    requires ps != []
    ensures |FilterPersons(ps, f)| == (if Matches(f, ps[0]) then 1 else 0) + |FilterPersons(ps[1..], f)|
  {
  }

  /** After the lesson rewrite, every person the predicate admits has sorted lessons. */
  lemma AdmittedHaveSortedLessons(r: seq<PersonData>, f: Filter)
    ensures forall p :: p in FilterPersons(SortMatchingLessons(r, f), f) ==> LessonsSorted(p.lessons)
  {
    var r' := SortMatchingLessons(r, f);
    SortMatchingLessonsSpec(r, f);
    forall p | p in FilterPersons(r', f) ensures LessonsSorted(p.lessons) {
      FilterMembership(r', f, p);
      var i :| 0 <= i < |r'| && r'[i] == p;
      MatchesIgnoresLessonOrder(f, r[i], r'[i]);
    }
  }

  /** The state a day search leaves: the filter, the comparator, then the lesson rewrite. */
  function DayState(s: ModelState, d: Day): ModelState {
    WithSortedLessons(WithComparator(WithFilter(s, ByDay(d))))
  }

  /**
   * Day mode changes the stored persons only by sorting the lessons of
   * those with a lesson on that day; the list shown is the admitted
   * persons in comparator order.
   */
  lemma FindByDayState(s: ModelState, d: Day)
    ensures FindSpec(s, FindByDay(d)) == Listed(DayState(s, d))
    ensures DayState(s, d).roster == SortMatchingLessons(s.roster, ByDay(d)) && DayState(s, d).subjects == s.subjects
    ensures Shown(DayState(s, d)) == SortPersons(FilterPersons(DayState(s, d).roster, ByDay(d)))
  {
  }

  /** Day mode: the count is the number of stored persons with a lesson on that day. */
  lemma FindByDayCount(s: ModelState, d: Day)
    ensures FindSpec(s, FindByDay(d)).0 == Ok(|FilterPersons(s.roster, ByDay(d))|)
  {
    var s' := DayState(s, d);
    FindByDayState(s, d);
    var admitted := FilterPersons(s'.roster, ByDay(d));
    FilterAfterSortingLessons(s.roster, ByDay(d));
    assert |Shown(s')| == |admitted| by {
      assert |multiset(Shown(s'))| == |multiset(admitted)|;
    }
  }

  /** Day mode: the displayed persons are exactly the stored persons with a lesson on that day. */
  lemma FindByDayMembers(s: ModelState, d: Day)
    ensures var s' := FindSpec(s, FindByDay(d)).1;
      forall p :: p in Shown(s') <==> p in s'.roster && DayMatches(d, p)
  {
    FindByDayState(s, d);
    ShownPlainMembers(DayState(s, d));
  }

  /** Day mode: every displayed person has its lessons sorted by (day, start). */
  lemma FindByDayLessonsSorted(s: ModelState, d: Day)
    ensures var s' := FindSpec(s, FindByDay(d)).1;
      forall p :: p in Shown(s') ==> LessonsSorted(p.lessons)
  {
    var s' := DayState(s, d);
    FindByDayState(s, d);
    AdmittedHaveSortedLessons(s.roster, ByDay(d));
    var admitted := FilterPersons(s'.roster, ByDay(d));
    forall p | p in Shown(s') ensures LessonsSorted(p.lessons) {
      assert p in multiset(Shown(s'));
      assert p in multiset(admitted);
    }
  }

  /** Day mode: the displayed list is in comparator order. */
  lemma FindByDayOrdered(s: ModelState, d: Day)
    ensures var s' := FindSpec(s, FindByDay(d)).1;
      forall i, j :: 0 <= i < j < |Shown(s')| ==> Compare(Shown(s')[i], Shown(s')[j]) <= 0
  {
    FindByDayState(s, d);
    SortPersonsOrdered(FilterPersons(DayState(s, d).roster, ByDay(d)));
  }

  /**
   * Subject mode: an untaught subject fails before any change, exactly when
   * no stored subject has that name; otherwise no stored person changes and
   * the displayed list is the trimmed copies, every lesson of which has
   * exactly the keyword as subject name.
   */
  lemma FindBySubjectSpec(s: ModelState, keyword: string)
    ensures var (r, s') := FindSpec(s, FindBySubject(keyword));
      (r == Err(SubjectNotInList) <==> !HasSame(s.subjects, Subject(keyword))) &&
      (r.Err? ==> s' == s) &&
      (r.Ok? ==> (s'.roster == s.roster && s'.subjects == s.subjects &&
        Shown(s') == TrimmedView(FilterPersons(s.roster, BySubject(keyword)), keyword) &&
        r.value == |Shown(s')| &&
        forall q, l :: q in Shown(s') && l in q.lessons ==> l.subject.name == keyword))
  {
    TrimmedViewSubjects(FilterPersons(s.roster, BySubject(keyword)), keyword);
  }

  /** Name mode only replaces the predicate: the roster and the comparator stay, and the list is the matching persons. */
  lemma FindByNameSpec(s: ModelState, keywords: seq<string>)
    ensures var (r, s') := FindSpec(s, FindByName(keywords));
      s'.roster == s.roster && s'.subjects == s.subjects && s'.view.sorted == s.view.sorted &&
      r == Ok(|FilterPersons(s.roster, ByName(keywords))|) &&
      forall p :: p in Shown(s') <==> p in s.roster && NameMatches(keywords, p)
  {
    var (r, s') := FindSpec(s, FindByName(keywords));
    ShownPlainMembers(s');
    assert |Shown(s')| == |multiset(Shown(s'))|;
  }
}
