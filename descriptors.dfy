/**
 * The edit descriptors: EditLessonDescriptor (logic/parser/EditLessonDescriptor.java),
 * a record of four optional lesson fields filled in by setters, and the
 * person descriptor of EditCommand (logic/commands/EditCommand.java),
 * whose identity fields and optional lesson edit are given here as a value.
 */
module Descriptors {
  import opened Wrappers
  import opened Subjects
  import opened Days
  import opened Lessons
  import opened Persons

  /** The four optional lesson fields as a value; None stands for a null field. */
  datatype LessonEdit = LessonEdit(subject: Option<Subject>, day: Option<Day>, start: Option<Time>, end: Option<Time>)

  const NoLessonEdit := LessonEdit(None, None, None, None)

  /** Optional.orElse. */
  function OrElse<T>(o: Option<T>, other: T): T {
    if o.Some? then o.value else other
  }

  /** The lesson the edit commands build: each field from the descriptor when present, otherwise from l. */
  function MergeLesson(l: Lesson, e: LessonEdit): Lesson {
    Lesson(OrElse(e.subject, l.subject), OrElse(e.day, l.day), OrElse(e.start, l.start), OrElse(e.end, l.end))
  }

  /**
   * Each field of the merged lesson is the descriptor's when it is set and
   * the original's when it is not; a descriptor with no field set changes
   * nothing, and merging twice is merging once.
   */
  lemma MergeLessonFields(l: Lesson, e: LessonEdit)
    ensures var m := MergeLesson(l, e);
      (e.subject.Some? ==> m.subject == e.subject.value) && (e.subject.None? ==> m.subject == l.subject) &&
      (e.day.Some? ==> m.day == e.day.value) && (e.day.None? ==> m.day == l.day) &&
      (e.start.Some? ==> m.start == e.start.value) && (e.start.None? ==> m.start == l.start) &&
      (e.end.Some? ==> m.end == e.end.value) && (e.end.None? ==> m.end == l.end)
    ensures e == NoLessonEdit ==> MergeLesson(l, e) == l
    ensures MergeLesson(MergeLesson(l, e), e) == MergeLesson(l, e)
  {
  }

  /** A descriptor that sets all four fields yields the same lesson whatever the original. */
  lemma MergeFullEdit(l1: Lesson, l2: Lesson, e: LessonEdit)
    requires e.subject.Some? && e.day.Some? && e.start.Some? && e.end.Some?
    ensures MergeLesson(l1, e) == MergeLesson(l2, e)
  {
  }

  class EditLessonDescriptor {
    var subject: Option<Subject>
    var day: Option<Day>
    var startTime: Option<Time>
    var endTime: Option<Time>

    /** The descriptor's fields as a value. */
    function Value(): LessonEdit
      reads this
    {
      LessonEdit(subject, day, startTime, endTime)
    }

    /** A descriptor with no field set. */
    constructor ()
      ensures Value() == NoLessonEdit
    {
      subject := None;
      day := None;
      startTime := None;
      endTime := None;
    }

    /** The copy constructor: the four fields are set from the original through the setters. */
    constructor Copy(toCopy: EditLessonDescriptor)
      ensures Value() == toCopy.Value()
    {
      subject := toCopy.subject;
      day := toCopy.day;
      startTime := toCopy.startTime;
      endTime := toCopy.endTime;
    }

    /** isAnyFieldEdited: some field is set. */
    function IsAnyFieldEdited(): (r: bool)
      reads this
      ensures r <==> Value() != NoLessonEdit
    {
      subject.Some? || day.Some? || startTime.Some? || endTime.Some?
    }

    method SetSubject(s: Option<Subject>)
      modifies this
      ensures Value() == old(Value()).(subject := s)
    {
      subject := s;
    }

    method SetDay(d: Option<Day>)
      modifies this
      ensures Value() == old(Value()).(day := d)
    {
      day := d;
    }

    method SetStartTime(t: Option<Time>)
      modifies this
      ensures Value() == old(Value()).(start := t)
    {
      startTime := t;
    }

    method SetEndTime(t: Option<Time>)
      modifies this
      ensures Value() == old(Value()).(end := t)
    {
      endTime := t;
    }

    /** equals: the four optionals are compared field by field. */
    predicate Equals(other: EditLessonDescriptor)
      reads this, other
      ensures Equals(other) <==> Value() == other.Value()
    {
      subject == other.subject && day == other.day && startTime == other.startTime && endTime == other.endTime
    }
  }

  // ---------------------------------------------------- person descriptor

  /**
   * EditPersonDescriptor as a value: the identity fields that may be
   * replaced, the lesson index and the lesson descriptor.
   */
  datatype PersonEdit = PersonEdit(
    name: Option<string>, phone: Option<string>, contact: Option<string>, address: Option<string>,
    tags: Option<set<string>>, lessonIndex: Option<nat>, lessonEdit: Option<LessonEdit>)

  /** EditPersonDescriptor.isAnyFieldEdited: only the five identity fields count. */
  predicate AnyPersonFieldEdited(d: PersonEdit) {
    d.name.Some? || d.phone.Some? || d.contact.Some? || d.address.Some? || d.tags.Some?
  }

  /** A descriptor holding only a lesson edit counts as editing nothing. */
  lemma LessonOnlyIsNotEdited(li: Option<nat>, e: Option<LessonEdit>)
    ensures !AnyPersonFieldEdited(PersonEdit(None, None, None, None, None, li, e))
    ensures AnyPersonFieldEdited(PersonEdit(Some(""), None, None, None, None, li, e))
  {
  }

  /** createEditedPerson: each identity field from the descriptor or the original; the lessons are copied. */
  function EditedPerson(p: PersonData, d: PersonEdit): PersonData {
    PersonData(Identity(OrElse(d.name, p.id.name), OrElse(d.phone, p.id.phone), OrElse(d.contact, p.id.contact),
                        OrElse(d.address, p.id.address), OrElse(d.tags, p.id.tags)),
               p.lessons)
  }

  /**
   * The edited person keeps the lesson list; it is the same person exactly
   * when no new name is given or the new name is the old one, and an edit
   * that sets no field gives the person back.
   */
  lemma EditedPersonSpec(p: PersonData, d: PersonEdit)
    ensures EditedPerson(p, d).lessons == p.lessons
    ensures SamePerson(p, EditedPerson(p, d)) <==> d.name.None? || d.name.value == p.id.name
    ensures !AnyPersonFieldEdited(d) ==> EditedPerson(p, d) == p
  {
  }
}
