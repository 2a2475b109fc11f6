/**
 * The address book (model/EduDex.java): the roster of students and the
 * list of taught subjects, with the roster-wide lesson conflict search.
 */
module Roster {
  import opened Wrappers
  import opened Errors
  import opened Subjects
  import opened Lessons
  import opened Persons
  import opened SubjectLists

  /** The values of a list of persons, in order. */
  function Snapshot(ps: seq<Person>): (r: seq<PersonData>)
    reads ps
    ensures |r| == |ps| && forall i :: 0 <= i < |ps| ==> r[i] == ps[i].Data()
  {
    if ps == [] then [] else Snapshot(ps[..|ps| - 1]) + [ps[|ps| - 1].Data()]
  }

  /** The person list's invariant: no two persons are the same person (share a name). */
  predicate NamesDistinct(r: seq<PersonData>) {
    forall i, j :: 0 <= i < j < |r| ==> !SamePerson(r[i], r[j])
  }

  /** hasPerson on values: some stored person is the same person as p. */
  predicate HasSamePerson(r: seq<PersonData>, p: PersonData) {
    exists i :: 0 <= i < |r| && SamePerson(r[i], p)
  }

  /** List.indexOf on values: the first position holding a person equal to p. */
  function IndexOfPerson(r: seq<PersonData>, p: PersonData): (k: Option<nat>)
    ensures k.Some? ==> k.value < |r| && r[k.value] == p && forall j :: 0 <= j < k.value ==> r[j] != p
    ensures k.None? <==> p !in r
    decreases |r|
  {
    if r == [] then None
    else if r[0] == p then Some(0)
    else match IndexOfPerson(r[1..], p)
      case None => None
      case Some(k) => Some(k + 1)
  }

  // ------------------------------------------------- roster conflict search

  /**
   * The test findPersonWithLessonConflict applies to one person: it is not
   * the excluded person (by full equality), it has a lesson conflicting
   * with the candidate, and the first such lesson is not the candidate itself.
   */
  predicate Qualifies(p: PersonData, c: Lesson, exclude: PersonData) {
    p != exclude &&
    match FindConflict(p.lessons, c, None)
    case None => false
    case Some(l) => l != c
  }

  /** The first position at or after i holding a qualifying person. */
  function ConflictingPersonFrom(r: seq<PersonData>, c: Lesson, exclude: PersonData, i: nat): (k: Option<nat>)
    requires i <= |r|
    ensures k.Some? ==> i <= k.value < |r| && Qualifies(r[k.value], c, exclude)
    ensures k.Some? ==> forall j :: i <= j < k.value ==> !Qualifies(r[j], c, exclude)
    ensures k.None? <==> forall j :: i <= j < |r| ==> !Qualifies(r[j], c, exclude)
    decreases |r| - i
  {
    if i == |r| then None
    else if Qualifies(r[i], c, exclude) then Some(i)
    else ConflictingPersonFrom(r, c, exclude, i + 1)
  }

  /** The position of the person findPersonWithLessonConflict returns, or None for null. */
  function ConflictingPerson(r: seq<PersonData>, c: Lesson, exclude: PersonData): Option<nat> {
    ConflictingPersonFrom(r, c, exclude, 0)
  }

  /** No two lessons of one student conflict (which also rules out duplicates). */
  predicate NoSelfConflict(ls: seq<Lesson>) {
    forall i, j :: 0 <= i < j < |ls| ==> !ConflictsWith(ls[i], ls[j])
  }

  /**
   * The reported person is never the excluded one, and has a lesson that
   * conflicts with the candidate without being equal to it.
   */
  lemma CrossConflictReported(r: seq<PersonData>, c: Lesson, exclude: PersonData)
    requires ConflictingPerson(r, c, exclude).Some?
    ensures var p := r[ConflictingPerson(r, c, exclude).value];
      p != exclude && exists j :: 0 <= j < |p.lessons| && ConflictsWith(p.lessons[j], c) && p.lessons[j] != c
  {
    var p := r[ConflictingPerson(r, c, exclude).value];
    FindConflictSpec(p.lessons, c, None);
  }

  /** Every lesson of p that conflicts with the candidate is an exact copy of it. */
  predicate OnlyCopiesConflict(p: PersonData, c: Lesson) {
    forall j :: 0 <= j < |p.lessons| && ConflictsWith(p.lessons[j], c) ==> p.lessons[j] == c
  }

  /**
   * Identical slots are allowed: when every lesson of every other person
   * that conflicts with the candidate is an exact copy of it, no one is reported.
   */
  lemma IdenticalSlotsAllowed(r: seq<PersonData>, c: Lesson, exclude: PersonData)
    requires forall i :: 0 <= i < |r| && r[i] != exclude ==> OnlyCopiesConflict(r[i], c)
    ensures ConflictingPerson(r, c, exclude).None?
  {
    forall i | 0 <= i < |r| ensures !Qualifies(r[i], c, exclude) {
      FindConflictSpec(r[i].lessons, c, None);
    }
  }

  /**
   * For a person without self-conflicts, being skipped means that every
   * lesson conflicting with the candidate is an exact copy of it.
   */
  lemma SkippedOnlyForCopies(p: PersonData, c: Lesson, exclude: PersonData)
    requires p != exclude && NoSelfConflict(p.lessons) && !Qualifies(p, c, exclude)
    ensures OnlyCopiesConflict(p, c)
  {
    FindConflictSpec(p.lessons, c, None);
    var ls := p.lessons;
    var first := FirstConflict(ls, c, None);
    if first.Some? {
      var k := first.value;
      assert ls[k] == c;
      forall j | 0 <= j < |ls| && j != k ensures !ConflictsWith(ls[j], c) {
        if j < k {
          assert !ConflictsWith(ls[j], ls[k]);
        } else {
          assert !ConflictsWith(ls[k], ls[j]);
        }
      }
    }
  }

  /**
   * When no student has a self-conflict, the search reports nobody exactly
   * when no other person has a lesson that conflicts with the candidate
   * and differs from it.
   */
  lemma CrossConflictNoneIff(r: seq<PersonData>, c: Lesson, exclude: PersonData)
    requires forall i :: 0 <= i < |r| ==> NoSelfConflict(r[i].lessons)
    ensures ConflictingPerson(r, c, exclude).None? <==>
      forall i :: 0 <= i < |r| && r[i] != exclude ==> OnlyCopiesConflict(r[i], c)
  {
    if ConflictingPerson(r, c, exclude).None? {
      forall i | 0 <= i < |r| && r[i] != exclude ensures OnlyCopiesConflict(r[i], c) {
        SkippedOnlyForCopies(r[i], c, exclude);
      }
    } else {
      CrossConflictReported(r, c, exclude);
    }
  }

  /**
   * Without that invariant the exemption can hide a real clash: a student
   * holding both the candidate and an overlapping different lesson is skipped.
   */
  lemma CopyMasksOverlap(c: Lesson, x: Lesson, id: Identity, other: PersonData)
    requires IsValidLesson(c) && ConflictsWith(x, c) && x != c
    requires other != PersonData(id, [c, x])
    ensures ConflictingPerson([PersonData(id, [c, x])], c, other).None?
    ensures !NoSelfConflict([c, x])
  {
    var p := PersonData(id, [c, x]);
    assert FirstConflictFrom(p.lessons, c, None, 0) == Some(0);
    assert !Qualifies(p, c, other);
    assert ConflictsWith([c, x][0], [c, x][1]);
  }

  // ------------------------------------------------ person list, on values

  /** addPerson: a person already present (by name) is refused; otherwise it is appended. */
  function AddPersonValue(r: seq<PersonData>, p: PersonData): (Outcome<Error>, seq<PersonData>) {
    if HasSamePerson(r, p) then (Fail(DuplicatePerson), r) else (Pass, r + [p])
  }

  /**
   * setPerson: the target is located by equality (PersonNotFound when
   * absent); an edited person with a new name must not clash with a stored
   * one (DuplicatePerson); then only the target's position is replaced.
   */
  function SetPersonValue(r: seq<PersonData>, target: PersonData, edited: PersonData): (Outcome<Error>, seq<PersonData>) {
    match IndexOfPerson(r, target)
    case None => (Fail(PersonNotFound), r)
    case Some(k) =>
      if !SamePerson(target, edited) && HasSamePerson(r, edited) then (Fail(DuplicatePerson), r)
      else (Pass, r[k := edited])
  }

  /** r' is r with the entry target at position k replaced by edited. */
  predicate ReplacedAt(r: seq<PersonData>, r': seq<PersonData>, k: int, target: PersonData, edited: PersonData) {
    0 <= k < |r| == |r'| && r[k] == target && r'[k] == edited
    && forall j :: 0 <= j < |r| && j != k ==> r'[j] == r[j]
  }

  lemma AddPersonKeepsNamesDistinct(r: seq<PersonData>, p: PersonData)
    requires NamesDistinct(r)
    ensures NamesDistinct(AddPersonValue(r, p).1)
    ensures AddPersonValue(r, p).0.Pass? ==> |AddPersonValue(r, p).1| == |r| + 1
  {
    if !HasSamePerson(r, p) {
      var r' := r + [p];
      forall i, j | 0 <= i < j < |r'| ensures !SamePerson(r'[i], r'[j]) {
        if j == |r| {
          assert !SamePerson(r[i], p);
        }
      }
    }
  }

  /** Replacing a stored entry by a person of the same name succeeds and changes that position only. */
  lemma SetPersonInPlace(r: seq<PersonData>, i: nat, edited: PersonData)
    requires NamesDistinct(r) && i < |r| && SamePerson(r[i], edited)
    ensures SetPersonValue(r, r[i], edited) == (Pass, r[i := edited])
    ensures NamesDistinct(r[i := edited])
  {
    var k := IndexOfPerson(r, r[i]).value;
    assert SamePerson(r[k], r[i]);
    SetPersonKeepsNamesDistinct(r, r[i], edited);
  }

  /** setPerson keeps the names distinct and, on success, changes the target's position only. */
  lemma SetPersonKeepsNamesDistinct(r: seq<PersonData>, target: PersonData, edited: PersonData)
    requires NamesDistinct(r)
    ensures NamesDistinct(SetPersonValue(r, target, edited).1)
    ensures SetPersonValue(r, target, edited).0.Pass? ==>
      var r' := SetPersonValue(r, target, edited).1;
      |r'| == |r| && exists k :: ReplacedAt(r, r', k, target, edited)
  {
    var idx := IndexOfPerson(r, target);
    if idx.Some? && (SamePerson(target, edited) || !HasSamePerson(r, edited)) {
      var k := idx.value;
      var r' := r[k := edited];
      assert ReplacedAt(r, r', k, target, edited);
      forall i, j | 0 <= i < j < |r'| ensures !SamePerson(r'[i], r'[j]) {
        if i == k {
          assert !SamePerson(r[j], edited) by {
            if SamePerson(target, edited) {
              assert !SamePerson(r[k], r[j]);
            } else {
              assert !SamePerson(r[j], edited);
            }
          }
        } else if j == k {
          if SamePerson(target, edited) {
            assert !SamePerson(r[i], r[k]);
          } else {
            assert !SamePerson(r[i], edited);
          }
        }
      }
    }
  }

  // ---------------------------------------------------------------- EduDex

  class EduDex {
    var persons: seq<Person>
    const subjects: UniqueSubjectList

    ghost predicate Valid()
      reads this, persons, subjects
    {
      subjects.Valid() && NamesDistinct(Roster())
    }

    /** The roster as values. */
    function Roster(): seq<PersonData>
      reads this, persons
    {
      Snapshot(persons)
    }

    /** The subjects as values. */
    function Subjects(): seq<Subject>
      reads this, subjects
    {
      subjects.items
    }

    /** An empty EduDex. */
    constructor ()
      ensures Valid() && fresh(subjects)
      ensures persons == [] && subjects.items == []
    {
      persons := [];
      subjects := new UniqueSubjectList();
    }

    /**
     * resetData: the person list and the subject list are both replaced by
     * the other book's. The person objects themselves are shared, as the
     * list's setAll shares them.
     */
    method ResetData(other: EduDex)
      requires Valid() && other.Valid()
      modifies this, subjects
      ensures Valid()
      ensures persons == old(other.persons) && subjects.items == old(other.subjects.items)
    {
      var newPersons := other.persons;
      var newSubjects := other.subjects.items;
      persons := newPersons;
      var r := subjects.SetSubjects(newSubjects);
    }

    /** hasSubject: a stored subject has the same name. */
    function HasSubject(s: Subject): (r: bool)
      reads this, subjects
      ensures r <==> exists i :: 0 <= i < |subjects.items| && subjects.items[i].name == s.name
    {
      subjects.Contains(s)
    }

    /** addSubject: delegates to the unique subject list. */
    method AddSubject(s: Subject) returns (r: Outcome<Error>)
      requires Valid()
      modifies subjects
      ensures Valid()
      ensures r == (if old(HasSubject(s)) then Fail(DuplicateSubject) else Pass)
      ensures subjects.items == (if r.Pass? then old(subjects.items) + [s] else old(subjects.items))
    {
      r := subjects.Add(s);
    }

    /** setSubject: delegates to the unique subject list. */
    method SetSubject(target: Subject, edited: Subject) returns (r: Outcome<Error>)
      requires Valid()
      modifies subjects
      ensures Valid()
      ensures var idx := IndexOf(old(subjects.items), target);
        if idx.None? then r == Fail(SubjectNotFound) && subjects.items == old(subjects.items)
        else if !IsSameSubject(target, edited) && old(HasSubject(edited)) then
          r == Fail(DuplicateSubject) && subjects.items == old(subjects.items)
        else r == Pass && subjects.items == old(subjects.items)[idx.value := edited]
    {
      r := subjects.SetSubject(target, edited);
    }

    /** removeSubject: delegates to the unique subject list. */
    method RemoveSubject(s: Subject) returns (r: Outcome<Error>)
      requires Valid()
      modifies subjects
      ensures Valid()
      ensures r == (if s in old(subjects.items) then Pass else Fail(SubjectNotFound))
      ensures r.Pass? ==> var i := IndexOf(old(subjects.items), s).value;
        subjects.items == old(subjects.items)[..i] + old(subjects.items)[i + 1..]
      ensures r.Fail? ==> subjects.items == old(subjects.items)
    {
      r := subjects.Remove(s);
    }

    /** hasPerson: a stored person has the same name. */
    function HasPerson(p: PersonData): (r: bool)
      reads this, persons
      ensures r <==> exists i :: 0 <= i < |persons| && persons[i].id.name == p.id.name
    {
      assert forall i :: 0 <= i < |persons| ==> Roster()[i].id == persons[i].id;
      HasSamePerson(Roster(), p)
    }

    /** addPerson: a person already present is refused; otherwise it is appended. */
    method AddPerson(p: Person) returns (r: Outcome<Error>)
      requires Valid()
      modifies this
      ensures Valid()
      ensures (r, Roster()) == AddPersonValue(old(Roster()), p.Data())
      ensures persons == (if r.Pass? then old(persons) + [p] else old(persons))
    {
      if HasPerson(p.Data()) {
        return Fail(DuplicatePerson);
      }
      ghost var before := Roster();
      AddPersonKeepsNamesDistinct(before, p.Data());
      persons := persons + [p];
      assert Roster() == before + [p.Data()];
      r := Pass;
    }

    /**
     * setPerson: the target is located by equality (PersonNotFound when
     * absent); an edited person with a new name must not clash with a
     * stored one (DuplicatePerson); then only that position is replaced.
     */
    method SetPerson(target: PersonData, edited: Person) returns (r: Outcome<Error>)
      requires Valid()
      modifies this
      ensures Valid()
      ensures (r, Roster()) == SetPersonValue(old(Roster()), target, edited.Data())
      ensures persons == if r.Pass? then old(persons)[IndexOfPerson(old(Roster()), target).value := edited]
        else old(persons)
    {
      var idx := IndexOfPerson(Roster(), target);
      if idx.None? {
        return Fail(PersonNotFound);
      }
      if !SamePerson(target, edited.Data()) && HasPerson(edited.Data()) {
        return Fail(DuplicatePerson);
      }
      ghost var before := Roster();
      SetPersonKeepsNamesDistinct(before, target, edited.Data());
      persons := persons[idx.value := edited];
      assert Roster() == before[idx.value := edited.Data()];
      r := Pass;
    }

    /** equals: the person lists are equal element by element; the subjects are not compared. */
    predicate Equals(other: EduDex)
      reads this, persons, other, other.persons
      ensures Equals(other) <==>
        (|persons| == |other.persons| && forall i :: 0 <= i < |persons| ==> persons[i].Equals(other.persons[i]))
    {
      Roster() == other.Roster()
    }

    /**
     * findPersonWithLessonConflict: scans the roster in order, skipping the
     * excluded person, persons with no conflicting lesson and persons whose
     * conflicting lesson is the candidate itself; returns the first other.
     */
    method FindPersonWithLessonConflict(lesson: Lesson, exclude: PersonData) returns (r: Option<Person>)
      ensures match ConflictingPerson(Roster(), lesson, exclude)
        case None => r.None?
        case Some(k) => r == Some(persons[k])
    {
      ghost var roster := Roster();
      for i := 0 to |persons|
        invariant ConflictingPerson(roster, lesson, exclude) == ConflictingPersonFrom(roster, lesson, exclude, i)
      {
        var person := persons[i];
        assert roster[i] == person.Data();
        if person.Data() == exclude {
          continue;
        }
        var conflicting := person.HasLessonConflict(lesson, None);
        if conflicting.None? {
          continue;
        }
        if conflicting.value == lesson {
          continue;
        }
        return Some(person);
      }
      return None;
    }
  }
}
