/**
 * The lesson mutation commands (logic/commands/AddLessonCommand.java,
 * EditLessonCommand.java, EditCommand.java, DeleteLessonCommand.java).
 * Each resolves a person from the displayed list, runs its checks in a
 * fixed order, and only then replaces that person through setPerson.
 *
 * Each command is a pure function on the model's state, giving the
 * outcome and the new state, and a method over ModelManager that does
 * the same steps and is proved to follow that function.
 */
module LessonCommands {
  import opened Wrappers
  import opened Errors
  import opened Subjects
  import opened Days
  import opened Lessons
  import opened Persons
  import opened SubjectLists
  import opened Roster
  import opened Views
  import opened Models
  import opened Descriptors

  /** A person whose lessons are the given person's with l appended. */
  function WithLesson(p: PersonData, l: Lesson): PersonData {
    PersonData(p.id, p.lessons + [l])
  }

  /** A person whose lessons are the given person's without the one at i. */
  function WithoutLesson(p: PersonData, i: nat): PersonData
    requires i < |p.lessons|
  {
    PersonData(p.id, p.lessons[..i] + p.lessons[i + 1..])
  }

  /** Every stored student's lessons are free of clashes among themselves. */
  predicate RosterConflictFree(r: seq<PersonData>) {
    forall i :: 0 <= i < |r| ==> NoSelfConflict(r[i].lessons)
  }

  /** setPerson followed, on success, by the filter reset both edit commands perform. */
  function CommitEdit(s: ModelState, target: PersonData, edited: PersonData): (Outcome<Error>, ModelState) {
    var (o, s1) := SetPersonState(s, target, edited);
    if o.Pass? then (o, WithFilter(s1, ShowAll)) else (o, s1)
  }

  /** setPerson, then on success show everyone. */
  method Commit(m: ModelManager, target: PersonData, edited: Person) returns (r: Outcome<Error>)
    requires m.Valid()
    modifies m, m.eduDex
    ensures m.Valid()
    ensures (r, m.State()) == CommitEdit(old(m.State()), target, edited.Data())
  {
    r := m.SetPerson(target, edited);
    if r.Pass? {
      m.UpdateFilteredPersonList(ShowAll);
    }
  }

  // ------------------------------------------------------ AddLessonCommand

  /** AddLessonCommand.execute as written: index check, subject check, then the copy with the lesson appended. */
  function AddLessonSpec(s: ModelState, index: nat, lesson: Lesson): (Outcome<Error>, ModelState) {
    var shown := Shown(s);
    if index >= |shown| then (Fail(InvalidPersonIndex), s)
    else if !HasSame(s.subjects, lesson.subject) then (Fail(SubjectNotTaught), s)
    else SetPersonState(s, shown[index], WithLesson(shown[index], lesson))
  }

  method AddLesson(m: ModelManager, index: nat, lesson: Lesson) returns (r: Outcome<Error>)
    requires m.Valid()
    modifies m.eduDex
    ensures m.Valid()
    ensures (r, m.State()) == AddLessonSpec(old(m.State()), index, lesson)
  {
    var lastShown := m.FilteredPersonList();
    if index >= |lastShown| {
      return Fail(InvalidPersonIndex);
    }
    if !m.HasSubject(lesson.subject) {
      return Fail(SubjectNotTaught);
    }
    var original := lastShown[index];
    var updated := WithLessonAdded(original, lesson);
    r := m.SetPerson(original, updated);
  }

  /** The fresh copy addLesson builds: same identity and lessons, then the new lesson appended. */
  method WithLessonAdded(original: PersonData, lesson: Lesson) returns (updated: Person)
    ensures fresh(updated)
    ensures updated.Data() == WithLesson(original, lesson)
  {
    updated := new Person(original.id, original.lessons);
    updated.AddLesson(lesson);
  }

  /**
   * A failed add changes nothing; a successful one replaces exactly the
   * displayed person's stored entry by the copy with the lesson appended.
   * The view and the subjects are never touched.
   */
  lemma AddLessonEffect(s: ModelState, index: nat, lesson: Lesson)
    requires NamesDistinct(s.roster)
    ensures var (r, s') := AddLessonSpec(s, index, lesson);
      NamesDistinct(s'.roster) && s'.subjects == s.subjects && s'.view == s.view &&
      (r.Fail? ==> s' == s) &&
      (r.Pass? ==> (index < |Shown(s)| &&
        exists k :: ReplacedAt(s.roster, s'.roster, k, Shown(s)[index], WithLesson(Shown(s)[index], lesson))))
  {
    var shown := Shown(s);
    if index < |shown| && HasSame(s.subjects, lesson.subject) {
      SetPersonKeepsNamesDistinct(s.roster, shown[index], WithLesson(shown[index], lesson));
    }
  }

  /**
   * Outside subject view every displayed person is stored, so a valid
   * index and a taught subject always succeed, and the lesson lands at
   * the end of that student's list.
   */
  lemma AddLessonPlainSucceeds(s: ModelState, index: nat, lesson: Lesson)
    requires NamesDistinct(s.roster) && !s.view.subjectView
    requires index < |Shown(s)| && HasSame(s.subjects, lesson.subject)
    ensures var (r, s') := AddLessonSpec(s, index, lesson);
      r.Pass? && exists k :: (0 <= k < |s.roster| && s.roster[k] == Shown(s)[index] &&
        s'.roster[k].lessons == s.roster[k].lessons + [lesson])
  {
    var p := Shown(s)[index];
    ShownPlainMembers(s);
    assert p in s.roster;
    AddLessonEffect(s, index, lesson);
  }

  /**
   * In subject view the displayed entries are trimmed copies; when the copy
   * is not itself a stored value, setPerson cannot find it and the command
   * fails with PersonNotFound, leaving the model unchanged.
   */
  lemma SubjectViewAddNotFound(s: ModelState, index: nat, lesson: Lesson)
    requires s.view.subjectView && index < |Shown(s)| && HasSame(s.subjects, lesson.subject)
    requires Shown(s)[index] !in s.roster
    ensures AddLessonSpec(s, index, lesson) == (Fail(PersonNotFound), s)
  {
  }

  /** A trimmed copy of a stored student who has a lesson of another subject is never a stored value. */
  lemma TrimmedCopyNotStored(r: seq<PersonData>, p: PersonData, keyword: string, j: nat)
    requires NamesDistinct(r) && p in r
    requires j < |p.lessons| && p.lessons[j].subject.name != keyword
    ensures TrimmedCopy(p, keyword) !in r
  {
    TrimmedCopyDiffers(p, keyword, j);
    SameIdentityNotStored(r, p, TrimmedCopy(p, keyword));
  }

  /** The trimmed copy keeps the identity but loses the lesson of another subject. */
  lemma TrimmedCopyDiffers(p: PersonData, keyword: string, j: nat)
    requires j < |p.lessons| && p.lessons[j].subject.name != keyword
    ensures TrimmedCopy(p, keyword).id == p.id && TrimmedCopy(p, keyword) != p
  {
    var q := TrimmedCopy(p, keyword);
    TrimmedCopyContents(p, keyword);
    assert multiset(p.lessons)[p.lessons[j]] > 0;
    assert multiset(q.lessons)[p.lessons[j]] == 0;
  }

  /** With distinct names, a stored person is the only stored value with its identity. */
  lemma SameIdentityNotStored(r: seq<PersonData>, p: PersonData, q: PersonData)
    requires NamesDistinct(r) && p in r && q.id == p.id && q != p
    ensures q !in r
  {
    var b :| 0 <= b < |r| && r[b] == p;
    forall a | 0 <= a < |r| ensures r[a] != q {
      if r[a].id == q.id {
        assert SamePerson(r[a], r[b]);
      }
    }
  }

  // ------------------------------------------- the corrected add (finding)

  /**
   * AddLessonCommand with the conflict checks its own tests expect: after
   * the subject check, a lesson of the student that conflicts with the new
   * one is reported, then another student with a conflicting lesson.
   */
  function AddLessonCheckedSpec(s: ModelState, index: nat, lesson: Lesson): (Outcome<Error>, ModelState) {
    var shown := Shown(s);
    if index >= |shown| then (Fail(InvalidPersonIndex), s)
    else if !HasSame(s.subjects, lesson.subject) then (Fail(SubjectNotTaught), s)
    else match FindConflict(shown[index].lessons, lesson, None)
      case Some(c) => (Fail(SelfConflict(c)), s)
      case None =>
        match ConflictingPerson(s.roster, lesson, shown[index])
        case Some(k) => (Fail(CrossConflict(s.roster[k].id.name)), s)
        case None => SetPersonState(s, shown[index], WithLesson(shown[index], lesson))
  }

  /**
   * The corrected command: the two conflict checks come after the index and
   * subject checks, and a lesson that passes them is added as before.
   */
  method AddLessonChecked(m: ModelManager, index: nat, lesson: Lesson) returns (r: Outcome<Error>)
    requires m.Valid()
    modifies m.eduDex
    ensures m.Valid()
    ensures (r, m.State()) == AddLessonCheckedSpec(old(m.State()), index, lesson)
  {
    ghost var s := m.State();
    var lastShown := m.FilteredPersonList();
    if index < |lastShown| && m.HasSubject(lesson.subject) {
      var original := lastShown[index];
      var conflicted := FindConflict(original.lessons, lesson, None);
      if conflicted.Some? {
        CheckedSelfConflict(s, index, lesson);
        return Fail(SelfConflict(conflicted.value));
      }
      var other := m.FindPersonWithLessonConflict(lesson, original);
      if other.Some? {
        CheckedCrossConflict(s, index, lesson);
        return Fail(CrossConflict(other.value.id.name));
      }
      CheckedPasses(s, index, lesson);
    }
    r := AddLesson(m, index, lesson);
  }

  /** The checked add refuses a lesson that clashes with one of the student's own. */
  lemma CheckedSelfConflict(s: ModelState, index: nat, lesson: Lesson)
    requires index < |Shown(s)| && HasSame(s.subjects, lesson.subject)
    requires FindConflict(Shown(s)[index].lessons, lesson, None).Some?
    ensures AddLessonCheckedSpec(s, index, lesson)
      == (Fail(SelfConflict(FindConflict(Shown(s)[index].lessons, lesson, None).value)), s)
  {
  }

  /** The checked add refuses a lesson that clashes with another student's, naming that student. */
  lemma CheckedCrossConflict(s: ModelState, index: nat, lesson: Lesson)
    requires index < |Shown(s)| && HasSame(s.subjects, lesson.subject)
    requires FindConflict(Shown(s)[index].lessons, lesson, None).None?
    requires ConflictingPerson(s.roster, lesson, Shown(s)[index]).Some?
    ensures AddLessonCheckedSpec(s, index, lesson)
      == (Fail(CrossConflict(s.roster[ConflictingPerson(s.roster, lesson, Shown(s)[index]).value].id.name)), s)
  {
  }

  /** A lesson that passes both checks is added exactly as the unchecked command adds it. */
  lemma CheckedPasses(s: ModelState, index: nat, lesson: Lesson)
    requires index < |Shown(s)| && HasSame(s.subjects, lesson.subject)
    requires FindConflict(Shown(s)[index].lessons, lesson, None).None?
    requires ConflictingPerson(s.roster, lesson, Shown(s)[index]).None?
    ensures AddLessonCheckedSpec(s, index, lesson) == AddLessonSpec(s, index, lesson)
  {
  }

  /** Appending a lesson that conflicts with none of the list keeps the list clash-free. */
  lemma AppendKeepsNoSelfConflict(ls: seq<Lesson>, l: Lesson)
    requires NoSelfConflict(ls)
    requires forall j :: 0 <= j < |ls| ==> !ConflictsWith(ls[j], l)
    ensures NoSelfConflict(ls + [l])
  {
  }

  /** The checked add keeps every stored student's lessons clash-free. */
  lemma AddLessonCheckedKeepsConflictFree(s: ModelState, index: nat, lesson: Lesson)
    requires NamesDistinct(s.roster) && RosterConflictFree(s.roster)
    ensures RosterConflictFree(AddLessonCheckedSpec(s, index, lesson).1.roster)
  {
    var shown := Shown(s);
    if index < |shown| && HasSame(s.subjects, lesson.subject)
      && FindConflict(shown[index].lessons, lesson, None).None?
      && ConflictingPerson(s.roster, lesson, shown[index]).None?
    {
      var p := shown[index];
      var (o, r') := SetPersonValue(s.roster, p, WithLesson(p, lesson));
      SetPersonKeepsNamesDistinct(s.roster, p, WithLesson(p, lesson));
      if o.Pass? {
        var k :| ReplacedAt(s.roster, r', k, p, WithLesson(p, lesson));
        FindConflictSpec(p.lessons, lesson, None);
        AppendKeepsNoSelfConflict(p.lessons, lesson);
        assert NoSelfConflict(r'[k].lessons);
        forall i | 0 <= i < |r'| ensures NoSelfConflict(r'[i].lessons) {
          if i != k {
            assert r'[i] == s.roster[i];
          }
        }
      }
    }
  }

  /**
   * As written, the add lets a student take two overlapping lessons: a
   * Monday 10:00-12:00 Math lesson accepts a Monday 10:30-11:30 Math
   * lesson beside it, which the checked add refuses.
   */
  lemma AddLessonAllowsSelfConflict(id: Identity)
    ensures var math := Subject("Math");
      var existing := Lesson(math, Day("Monday"), 600, 720);
      var clash := Lesson(math, Day("Monday"), 630, 690);
      var s := ModelState([PersonData(id, [existing])], [math], InitialView);
      var (r, s') := AddLessonSpec(s, 0, clash);
      r.Pass? && s'.roster == [PersonData(id, [existing, clash])] && !NoSelfConflict(s'.roster[0].lessons)
      && AddLessonCheckedSpec(s, 0, clash) == (Fail(SelfConflict(existing)), s)
  {
    var math := Subject("Math");
    var existing := Lesson(math, Day("Monday"), 600, 720);
    var clash := Lesson(math, Day("Monday"), 630, 690);
    var p := PersonData(id, [existing]);
    var s := ModelState([p], [math], InitialView);
    FilterAll(s.roster);
    assert Shown(s) == [p];
    assert IsSameSubject(s.subjects[0], math);
    assert IndexOfPerson(s.roster, p) == Some(0);
    assert FirstConflictFrom(p.lessons, clash, None, 0) == Some(0);
    assert [existing] + [clash] == [existing, clash];
    assert ConflictsWith([existing, clash][0], [existing, clash][1]);
  }

  // --------------------------------------------- createEditedPersonWithLesson

  /**
   * createEditedPersonWithLesson, shared by EditLessonCommand and the lesson
   * branch of EditCommand: no lessons, lesson index, subject taught, start
   * before end, the lesson constructor's toString (which throws on a name
   * that is no valid format string), a clash with another lesson of the student (the edited one
   * skipped), a clash with another student (the edited one excluded); then
   * a new person with the same identity and only lesson i replaced.
   */
  function EditedPersonWithLesson(s: ModelState, p: PersonData, i: nat, e: LessonEdit): Result<PersonData, Error> {
    if |p.lessons| == 0 then Err(NoLessons)
    else if i >= |p.lessons| then Err(InvalidLessonIndex)
    else
      var l := MergeLesson(p.lessons[i], e);
      if !HasSame(s.subjects, l.subject) then Err(SubjectNotTaught)
      else if !IsValidStartEndTime(l.start, l.end) then Err(LessonConstraint)
      else if !Formattable(l) then Err(FormatFailure)
      else match FindConflict(p.lessons, l, Some(i))
        case Some(c) => Err(SelfConflict(c))
        case None =>
          match ConflictingPerson(s.roster, l, p)
          case Some(k) => Err(CrossConflict(s.roster[k].id.name))
          case None => Ok(PersonData(p.id, p.lessons[i := l]))
  }

  /** The edited lesson passes every check: taught, well-formed, no clash in the student's other lessons, nobody else reported. */
  predicate EditAcceptable(s: ModelState, p: PersonData, i: nat, l: Lesson)
    requires i < |p.lessons|
  {
    HasSame(s.subjects, l.subject) && l.start < l.end && Formattable(l)
    && (forall j :: 0 <= j < |p.lessons| && j != i ==> !ConflictsWith(p.lessons[j], l))
    && ConflictingPerson(s.roster, l, p).None?
  }

  /**
   * The edit succeeds exactly when the index is valid and the merged lesson
   * is acceptable; the result keeps the identity and the length, replaces
   * only lesson i, and keeps a clash-free list clash-free.
   */
  lemma EditedPersonWithLessonSpec(s: ModelState, p: PersonData, i: nat, e: LessonEdit)
    ensures var r := EditedPersonWithLesson(s, p, i, e);
      r.Ok? <==> i < |p.lessons| && EditAcceptable(s, p, i, MergeLesson(p.lessons[i], e))
    ensures var r := EditedPersonWithLesson(s, p, i, e);
      r.Ok? ==> (i < |p.lessons| && r.value.id == p.id && |r.value.lessons| == |p.lessons|
        && r.value.lessons[i] == MergeLesson(p.lessons[i], e) && IsValidLesson(r.value.lessons[i])
        && (forall j :: 0 <= j < |p.lessons| && j != i ==> r.value.lessons[j] == p.lessons[j])
        && (NoSelfConflict(p.lessons) ==> NoSelfConflict(r.value.lessons)))
  {
    if i < |p.lessons| {
      var l := MergeLesson(p.lessons[i], e);
      FindConflictSpec(p.lessons, l, Some(i));
      var r := EditedPersonWithLesson(s, p, i, e);
      if r.Ok? && NoSelfConflict(p.lessons) {
        var ls := r.value.lessons;
        forall a, b | 0 <= a < b < |ls| ensures !ConflictsWith(ls[a], ls[b]) {
          if a == i {
            ConflictsSymmetric(ls[a], ls[b]);
          } else if b == i {
            assert !ConflictsWith(p.lessons[a], l);
          }
        }
      }
    }
  }

  /** Re-saving a lesson unchanged is never a clash with itself: the edited index is skipped. */
  lemma EditSkipsEditedLesson(p: PersonData, i: nat)
    requires i < |p.lessons| && NoSelfConflict(p.lessons)
    ensures FindConflict(p.lessons, MergeLesson(p.lessons[i], NoLessonEdit), Some(i)).None?
  {
    var l := p.lessons[i];
    assert MergeLesson(l, NoLessonEdit) == l;
    forall j | 0 <= j < |p.lessons| && j != i ensures !ConflictsWith(p.lessons[j], l) {
      if j < i {
        assert !ConflictsWith(p.lessons[j], p.lessons[i]);
      } else {
        assert !ConflictsWith(p.lessons[i], p.lessons[j]);
        ConflictsSymmetric(p.lessons[i], p.lessons[j]);
      }
    }
    FindConflictSpec(p.lessons, l, Some(i));
  }

  /**
   * The method form of createEditedPersonWithLesson: the same checks in the
   * same order, then a new person built from the identity and given the
   * new lesson list.
   */
  method CreateEditedPersonWithLesson(m: ModelManager, p: PersonData, i: nat, e: LessonEdit)
    returns (r: Result<Person, Error>)
    ensures match EditedPersonWithLesson(m.State(), p, i, e)
      case Err(x) => r == Err(x)
      case Ok(q) => r.Ok? && fresh(r.value) && r.value.Data() == q
  {
    var currentLessons := p.lessons;
    if |currentLessons| == 0 {
      return Err(NoLessons);
    }
    if i >= |currentLessons| {
      return Err(InvalidLessonIndex);
    }
    var editedLesson := MergeLesson(currentLessons[i], e);
    if !m.HasSubject(editedLesson.subject) {
      return Err(SubjectNotTaught);
    }
    if !IsValidStartEndTime(editedLesson.start, editedLesson.end) {
      return Err(LessonConstraint);
    }
    if !Formattable(editedLesson) {
      return Err(FormatFailure);
    }
    var conflicted := FindConflict(currentLessons, editedLesson, Some(i));
    if conflicted.Some? {
      return Err(SelfConflict(conflicted.value));
    }
    var other := m.FindPersonWithLessonConflict(editedLesson, p);
    if other.Some? {
      ghost var k := ConflictingPerson(m.eduDex.Roster(), editedLesson, p).value;
      assert m.eduDex.Roster()[k] == m.eduDex.persons[k].Data();
      return Err(CrossConflict(other.value.id.name));
    }
    var edited := WithLessonReplaced(p, i, editedLesson);
    return Ok(edited);
  }

  /** The fresh person createEditedPersonWithLesson builds: same identity, one lesson replaced. */
  method WithLessonReplaced(p: PersonData, i: nat, editedLesson: Lesson) returns (edited: Person)
    requires i < |p.lessons|
    ensures fresh(edited)
    ensures edited.Data() == PersonData(p.id, p.lessons[i := editedLesson])
  {
    var newLessons := p.lessons[i := editedLesson];
    edited := new Person.WithoutLessons(p.id);
    edited.SetLessons(newLessons);
  }

  // ----------------------------------------------------- EditLessonCommand

  /** EditLessonCommand.execute: person index, createEditedPersonWithLesson, setPerson, show all. */
  function EditLessonSpec(s: ModelState, personIndex: nat, lessonIndex: nat, e: LessonEdit): (Outcome<Error>, ModelState) {
    var shown := Shown(s);
    if personIndex >= |shown| then (Fail(InvalidPersonIndex), s)
    else match EditedPersonWithLesson(s, shown[personIndex], lessonIndex, e)
      case Err(x) => (Fail(x), s)
      case Ok(q) => CommitEdit(s, shown[personIndex], q)
  }

  method EditLesson(m: ModelManager, personIndex: nat, lessonIndex: nat, descriptor: EditLessonDescriptor)
    returns (r: Outcome<Error>)
    requires m.Valid()
    modifies m, m.eduDex
    ensures m.Valid()
    ensures (r, m.State()) == EditLessonSpec(old(m.State()), personIndex, lessonIndex, descriptor.Value())
  {
    ghost var s0 := m.State();
    var lastShown := m.FilteredPersonList();
    assert lastShown == Shown(s0);
    if personIndex >= |lastShown| {
      return Fail(InvalidPersonIndex);
    }
    var personToEdit := lastShown[personIndex];
    var edited := CreateEditedPersonWithLesson(m, personToEdit, lessonIndex, descriptor.Value());
    assert m.State() == s0;
    if edited.Err? {
      return Fail(edited.error);
    }
    r := Commit(m, personToEdit, edited.value);
  }

  /**
   * A failed lesson edit changes nothing; a successful one replaces one
   * stored entry, keeps its length and identity, and shows everyone.
   */
  lemma EditLessonEffect(s: ModelState, personIndex: nat, lessonIndex: nat, e: LessonEdit)
    requires NamesDistinct(s.roster)
    ensures var (r, s') := EditLessonSpec(s, personIndex, lessonIndex, e);
      NamesDistinct(s'.roster) && s'.subjects == s.subjects &&
      (r.Fail? ==> s' == s) &&
      (r.Pass? ==> (personIndex < |Shown(s)| && s'.view.filter == ShowAll && !s'.view.subjectView &&
        var p := Shown(s)[personIndex];
        EditedPersonWithLesson(s, p, lessonIndex, e).Ok? &&
        exists k :: ReplacedAt(s.roster, s'.roster, k, p, EditedPersonWithLesson(s, p, lessonIndex, e).value)))
  {
    var shown := Shown(s);
    if personIndex < |shown| {
      var p := shown[personIndex];
      var q := EditedPersonWithLesson(s, p, lessonIndex, e);
      if q.Ok? {
        SetPersonKeepsNamesDistinct(s.roster, p, q.value);
      }
    }
  }

  /** Lesson edits keep every stored student's lessons clash-free. */
  lemma EditLessonKeepsConflictFree(s: ModelState, personIndex: nat, lessonIndex: nat, e: LessonEdit)
    requires NamesDistinct(s.roster) && RosterConflictFree(s.roster)
    ensures RosterConflictFree(EditLessonSpec(s, personIndex, lessonIndex, e).1.roster)
  {
    EditLessonEffect(s, personIndex, lessonIndex, e);
    var (r, s') := EditLessonSpec(s, personIndex, lessonIndex, e);
    if r.Pass? {
      var p := Shown(s)[personIndex];
      var q := EditedPersonWithLesson(s, p, lessonIndex, e).value;
      var k :| ReplacedAt(s.roster, s'.roster, k, p, q);
      EditedPersonWithLessonSpec(s, p, lessonIndex, e);
      assert NoSelfConflict(s.roster[k].lessons);
      forall i | 0 <= i < |s'.roster| ensures NoSelfConflict(s'.roster[i].lessons) {
        if i != k {
          assert s'.roster[i] == s.roster[i];
        }
      }
    }
  }

  // ----------------------------------------------------------- EditCommand

  /** The person EditCommand builds: the lesson branch when both lesson parts are given, else the field merge. */
  function EditedForCommand(s: ModelState, p: PersonData, d: PersonEdit): Result<PersonData, Error> {
    if d.lessonIndex.Some? && d.lessonEdit.Some? then
      EditedPersonWithLesson(s, p, d.lessonIndex.value, d.lessonEdit.value)
    else Ok(EditedPerson(p, d))
  }

  /** EditCommand.execute: index, build, duplicate check, setPerson, show all. */
  function EditSpec(s: ModelState, index: nat, d: PersonEdit): (Outcome<Error>, ModelState) {
    var shown := Shown(s);
    if index >= |shown| then (Fail(InvalidPersonIndex), s)
    else match EditedForCommand(s, shown[index], d)
      case Err(x) => (Fail(x), s)
      case Ok(q) =>
        if !SamePerson(shown[index], q) && HasSamePerson(s.roster, q) then (Fail(DuplicatePerson), s)
        else CommitEdit(s, shown[index], q)
  }

  /** The person EditCommand builds, as a new object. */
  method BuildEditedPerson(m: ModelManager, p: PersonData, d: PersonEdit) returns (r: Result<Person, Error>)
    ensures match EditedForCommand(m.State(), p, d)
      case Err(x) => r == Err(x)
      case Ok(q) => r.Ok? && fresh(r.value) && r.value.Data() == q
  {
    if d.lessonIndex.Some? && d.lessonEdit.Some? {
      r := CreateEditedPersonWithLesson(m, p, d.lessonIndex.value, d.lessonEdit.value);
    } else {
      var q := EditedPerson(p, d);
      var updated := new Person.WithoutLessons(q.id);
      updated.SetLessons(p.lessons);
      r := Ok(updated);
    }
  }

  method Edit(m: ModelManager, index: nat, d: PersonEdit) returns (r: Outcome<Error>)
    requires m.Valid()
    modifies m, m.eduDex
    ensures m.Valid()
    ensures (r, m.State()) == EditSpec(old(m.State()), index, d)
  {
    ghost var before := m.State();
    var lastShown := m.FilteredPersonList();
    if index >= |lastShown| {
      return Fail(InvalidPersonIndex);
    }
    var personToEdit := lastShown[index];
    var edited := BuildEditedPerson(m, personToEdit, d);
    if edited.Err? {
      return Fail(edited.error);
    }
    var editedPerson := edited.value;
    ghost var q := editedPerson.Data();
    assert EditedForCommand(before, personToEdit, d) == Ok(q);
    if !SamePerson(personToEdit, editedPerson.Data()) && m.eduDex.HasPerson(editedPerson.Data()) {
      return Fail(DuplicatePerson);
    }
    assert !(!SamePerson(personToEdit, q) && HasSamePerson(before.roster, q));
    r := Commit(m, personToEdit, editedPerson);
  }

  /**
   * With both a lesson index and a lesson descriptor, EditCommand behaves
   * exactly as EditLessonCommand: same checks, same order, same result.
   * The identity fields of the descriptor are then ignored.
   */
  lemma EditLessonBranchAgrees(s: ModelState, index: nat, d: PersonEdit)
    requires d.lessonIndex.Some? && d.lessonEdit.Some?
    ensures EditSpec(s, index, d) == EditLessonSpec(s, index, d.lessonIndex.value, d.lessonEdit.value)
  {
  }

  /**
   * Without a complete lesson part, EditCommand replaces the identity fields
   * and keeps the lessons; a new name held by another student is refused
   * with DuplicatePerson and changes nothing.
   */
  lemma EditFieldsBranch(s: ModelState, index: nat, d: PersonEdit)
    requires NamesDistinct(s.roster)
    requires !(d.lessonIndex.Some? && d.lessonEdit.Some?) && index < |Shown(s)|
    ensures var p := Shown(s)[index];
      var (r, s') := EditSpec(s, index, d);
      (r == Fail(DuplicatePerson) <==> !SamePerson(p, EditedPerson(p, d)) && HasSamePerson(s.roster, EditedPerson(p, d))) &&
      NamesDistinct(s'.roster) &&
      (r.Fail? ==> s' == s) &&
      (r.Pass? ==> exists k :: ReplacedAt(s.roster, s'.roster, k, p, EditedPerson(p, d)) && s'.roster[k].lessons == p.lessons)
  {
    var p := Shown(s)[index];
    SetPersonKeepsNamesDistinct(s.roster, p, EditedPerson(p, d));
  }

  // -------------------------------------------------- DeleteLessonCommand

  /** DeleteLessonCommand.execute: the result names the deleted lesson's subject. */
  function DeleteLessonSpec(s: ModelState, studentIndex: nat, lessonIndex: nat): (Result<Subject, Error>, ModelState) {
    var shown := Shown(s);
    if studentIndex >= |shown| then (Err(InvalidPersonIndex), s)
    else if lessonIndex >= |shown[studentIndex].lessons| then (Err(InvalidLessonIndex), s)
    else
      var p := shown[studentIndex];
      var (o, s1) := SetPersonState(s, p, WithoutLesson(p, lessonIndex));
      if o.Pass? then (Ok(p.lessons[lessonIndex].subject), s1) else (Err(o.error), s1)
  }

  /** The fresh person deleteLesson builds: same identity, the remaining lessons set on it. */
  method WithLessonRemoved(p: PersonData, lessonIndex: nat) returns (updatedPerson: Person)
    requires lessonIndex < |p.lessons|
    ensures fresh(updatedPerson)
    ensures updatedPerson.Data() == WithoutLesson(p, lessonIndex)
  {
    var currentLessons := p.lessons;
    currentLessons := currentLessons[..lessonIndex] + currentLessons[lessonIndex + 1..];
    updatedPerson := new Person.WithoutLessons(p.id);
    updatedPerson.SetLessons(currentLessons);
  }

  method DeleteLesson(m: ModelManager, studentIndex: nat, lessonIndex: nat) returns (r: Result<Subject, Error>)
    requires m.Valid()
    modifies m.eduDex
    ensures m.Valid()
    ensures (r, m.State()) == DeleteLessonSpec(old(m.State()), studentIndex, lessonIndex)
  {
    var lastShown := m.FilteredPersonList();
    if studentIndex >= |lastShown| {
      return Err(InvalidPersonIndex);
    }
    var studentToEdit := lastShown[studentIndex];
    var currentLessons := studentToEdit.lessons;
    if lessonIndex >= |currentLessons| {
      return Err(InvalidLessonIndex);
    }
    var lessonToDelete := currentLessons[lessonIndex];
    var updatedPerson := WithLessonRemoved(studentToEdit, lessonIndex);
    var o := m.SetPerson(studentToEdit, updatedPerson);
    if o.Fail? {
      return Err(o.error);
    }
    return Ok(lessonToDelete.subject);
  }

  /**
   * A failed delete changes nothing; a successful one drops exactly the
   * indexed lesson from one stored entry, keeping the others in order,
   * and reports that lesson's subject.
   */
  lemma DeleteLessonEffect(s: ModelState, studentIndex: nat, lessonIndex: nat)
    requires NamesDistinct(s.roster)
    ensures var (r, s') := DeleteLessonSpec(s, studentIndex, lessonIndex);
      NamesDistinct(s'.roster) && s'.subjects == s.subjects && s'.view == s.view &&
      (r.Err? ==> s' == s) &&
      (r.Ok? ==> (studentIndex < |Shown(s)| && lessonIndex < |Shown(s)[studentIndex].lessons| &&
        var p := Shown(s)[studentIndex];
        var q := WithoutLesson(p, lessonIndex);
        r.value == p.lessons[lessonIndex].subject &&
        |q.lessons| == |p.lessons| - 1 &&
        multiset(q.lessons) + multiset{p.lessons[lessonIndex]} == multiset(p.lessons) &&
        exists k :: ReplacedAt(s.roster, s'.roster, k, p, q)))
  {
    var shown := Shown(s);
    if studentIndex < |shown| && lessonIndex < |shown[studentIndex].lessons| {
      var p := shown[studentIndex];
      var ls := p.lessons;
      assert ls == ls[..lessonIndex] + [ls[lessonIndex]] + ls[lessonIndex + 1..];
      SetPersonKeepsNamesDistinct(s.roster, p, WithoutLesson(p, lessonIndex));
    }
  }

  /** Removing a lesson cannot create a clash. */
  lemma DeleteKeepsNoSelfConflict(p: PersonData, i: nat)
    requires i < |p.lessons| && NoSelfConflict(p.lessons)
    ensures NoSelfConflict(WithoutLesson(p, i).lessons)
  {
    var ls := WithoutLesson(p, i).lessons;
    forall a, b | 0 <= a < b < |ls| ensures !ConflictsWith(ls[a], ls[b]) {
      var a', b' := if a < i then a else a + 1, if b < i then b else b + 1;
      assert ls[a] == p.lessons[a'] && ls[b] == p.lessons[b'];
    }
  }

  /** In the unsorted show-all view the displayed index is the stored index, so an add lands there. */
  lemma AddLessonShowAll(s: ModelState, index: nat, lesson: Lesson)
    requires NamesDistinct(s.roster)
    requires s.view.filter == ShowAll && !s.view.sorted && !s.view.subjectView
    requires index < |s.roster| && HasSame(s.subjects, lesson.subject)
    ensures AddLessonSpec(s, index, lesson) == (Pass, s.(roster := s.roster[index := WithLesson(s.roster[index], lesson)]))
    ensures NamesDistinct(s.roster[index := WithLesson(s.roster[index], lesson)])
  {
    FilterAll(s.roster);
    assert Shown(s) == s.roster;
    SetPersonInPlace(s.roster, index, WithLesson(s.roster[index], lesson));
  }

  /** In the unsorted show-all view a delete removes the lesson from the stored entry at that index. */
  lemma DeleteLessonShowAll(s: ModelState, index: nat, lessonIndex: nat)
    requires NamesDistinct(s.roster)
    requires s.view.filter == ShowAll && !s.view.sorted && !s.view.subjectView
    requires index < |s.roster| && lessonIndex < |s.roster[index].lessons|
    ensures DeleteLessonSpec(s, index, lessonIndex) ==
      (Ok(s.roster[index].lessons[lessonIndex].subject),
       s.(roster := s.roster[index := WithoutLesson(s.roster[index], lessonIndex)]))
  {
    FilterAll(s.roster);
    assert Shown(s) == s.roster;
    SetPersonInPlace(s.roster, index, WithoutLesson(s.roster[index], lessonIndex));
  }

  /**
   * In the unsorted show-all view, deleting the lesson just added to a
   * student restores the model.
   */
  lemma AddThenDeleteRestores(s: ModelState, index: nat, lesson: Lesson)
    requires NamesDistinct(s.roster)
    requires s.view.filter == ShowAll && !s.view.sorted && !s.view.subjectView
    requires index < |s.roster| && HasSame(s.subjects, lesson.subject)
    ensures var s1 := s.(roster := s.roster[index := WithLesson(s.roster[index], lesson)]);
      AddLessonSpec(s, index, lesson) == (Pass, s1) &&
      DeleteLessonSpec(s1, index, |s.roster[index].lessons|) == (Ok(lesson.subject), s)
  {
    AddLessonShowAll(s, index, lesson);
    DeleteAppendedShowAll(s, index, lesson);
  }

  /** The second half of the round trip: the appended lesson is the one deleted. */
  lemma DeleteAppendedShowAll(s: ModelState, index: nat, lesson: Lesson)
    requires NamesDistinct(s.roster)
    requires s.view.filter == ShowAll && !s.view.sorted && !s.view.subjectView
    requires index < |s.roster|
    ensures var s1 := s.(roster := s.roster[index := WithLesson(s.roster[index], lesson)]);
      DeleteLessonSpec(s1, index, |s.roster[index].lessons|) == (Ok(lesson.subject), s)
  {
    var p := s.roster[index];
    var p1 := WithLesson(p, lesson);
    var n := |p.lessons|;
    var s1 := s.(roster := s.roster[index := p1]);
    SetPersonInPlace(s.roster, index, p1);
    DeleteLessonShowAll(s1, index, n);
    RemoveAppended(p, lesson);
    UpdateBack(s.roster, index, p1);
  }

  /** Writing a position and then writing its old value back restores the sequence. */
  lemma UpdateBack<T>(r: seq<T>, i: nat, x: T)
    requires i < |r|
    ensures r[i := x][i := r[i]] == r
  {
  }

  /** Removing the last lesson of the appended copy gives the person back. */
  lemma RemoveAppended(p: PersonData, l: Lesson)
    ensures WithoutLesson(WithLesson(p, l), |p.lessons|) == p
    ensures WithLesson(p, l).lessons[|p.lessons|] == l
  {
    var n := |p.lessons|;
    assert (p.lessons + [l])[..n] == p.lessons;
  }
}
