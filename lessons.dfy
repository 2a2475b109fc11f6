/**
 * A weekly lesson (model/person/Lesson.java): a subject on a day between a
 * start time and a strictly later end time.
 */
module Lessons {
  import opened Wrappers
  import opened JavaText
  import opened Days
  import opened Subjects

  /** A time of day, as minutes after midnight. */
  type Time = t: int | 0 <= t < 1440

  datatype Lesson = Lesson(subject: Subject, day: Day, start: Time, end: Time)

  /** isValidStartEndTime: the start is strictly before the end. */
  predicate IsValidStartEndTime(start: Time, end: Time) {
    start < end
  }

  /**
   * A lesson the constructor can build: the start is before the end, and
   * toString, which the constructor calls, does not throw.
   */
  predicate IsValidLesson(l: Lesson) {
    IsValidStartEndTime(l.start, l.end) && Formattable(l)
  }

  /**
   * The constructor: fails (IllegalArgumentException) unless start is
   * before end, and then fails again (an IllegalFormatException) when the
   * subject or day name holds a '%' that String.format cannot read.
   */
  function NewLesson(subject: Subject, day: Day, start: Time, end: Time): (r: Option<Lesson>)
    ensures r.Some? <==> start < end && Formattable(Lesson(subject, day, start, end))
    ensures r.Some? ==> r.value == Lesson(subject, day, start, end) && IsValidLesson(r.value)
  {
    if !IsValidStartEndTime(start, end) then None
    else if !Formattable(Lesson(subject, day, start, end)) then None
    else Some(Lesson(subject, day, start, end))
  }

  /** Without '%' in the subject name or the day name, only the time order decides. */
  lemma NewLessonPlainNames(subject: Subject, day: Day, start: Time, end: Time)
    requires '%' !in subject.name && '%' !in day.name
    ensures NewLesson(subject, day, start, end).Some? <==> start < end
  {
    PlainTemplate(Lesson(subject, day, start, end));
  }

  /** A subject such as "100% Maths", with a lone '%' before a space, can never be in a lesson. */
  lemma PercentNameRejected(subject: Subject, day: Day, start: Time, end: Time, p: string, q: string)
    requires subject.name == p + "% " + q && '%' !in p
    ensures NewLesson(subject, day, start, end) == None
  {
    var l := Lesson(subject, day, start, end);
    var pre := "[Subject: " + p;
    assert LessonTemplate(l) == pre + "% " + (q + ", Day: " + day.name
      + ", startTime: " + TimeText(start) + ", endTime: " + TimeText(end));
    PercentBeforeSpaceFails(pre, q + ", Day: " + day.name
      + ", startTime: " + TimeText(start) + ", endTime: " + TimeText(end));
  }

  /** conflictsWith: same day, and the half-open intervals [start, end) overlap. */
  predicate ConflictsWith(a: Lesson, b: Lesson) {
    a.day == b.day && a.start < b.end && b.start < a.end
  }

  lemma ConflictsSymmetric(a: Lesson, b: Lesson)
    ensures ConflictsWith(a, b) <==> ConflictsWith(b, a)
  {
  }

  lemma DifferentDaysNeverConflict(a: Lesson, b: Lesson)
    requires a.day != b.day
    ensures !ConflictsWith(a, b)
  {
  }

  /** Back-to-back lessons, where one ends when the other starts, do not conflict. */
  lemma TouchingNeverConflict(a: Lesson, b: Lesson)
    requires a.end == b.start
    ensures !ConflictsWith(a, b) && !ConflictsWith(b, a)
  {
  }

  /** A valid lesson conflicts with itself and with every equal copy. */
  lemma ValidLessonConflictsWithCopy(a: Lesson, b: Lesson)
    requires IsValidLesson(a) && a == b
    ensures ConflictsWith(a, b)
  {
  }

  /** A lesson whose interval contains another's start conflicts with it on the same day. */
  lemma StartInsideConflicts(a: Lesson, b: Lesson)
    requires a.day == b.day && IsValidLesson(b) && a.start <= b.start < a.end
    ensures ConflictsWith(a, b)
  {
  }

  // ------------------------------------------------------------- rendering

  function TwoDigits(n: nat): string
    requires n < 100
  {
    [DigitChar(n / 10), DigitChar(n % 10)]
  }

  /**
   * Time.toString: LocalTime's "HH:mm" form, two digits of hours, a colon
   * and two digits of minutes.
   */
  function TimeText(t: Time): (r: string)
    ensures |r| == 5 && r[2] == ':'
    ensures IsDigit(r[0]) && IsDigit(r[1]) && IsDigit(r[3]) && IsDigit(r[4])
    ensures DigitsValue(r[..2]) == t / 60 && DigitsValue(r[3..]) == t % 60
  {
    var r := TwoDigits(t / 60) + ":" + TwoDigits(t % 60);
    assert r[..2] == TwoDigits(t / 60) && r[3..] == TwoDigits(t % 60);
    TwoDigitsValue(t / 60);
    TwoDigitsValue(t % 60);
    r
  }

  lemma TwoDigitsValue(n: nat)
    requires n < 100
    ensures IsDigit(TwoDigits(n)[0]) && IsDigit(TwoDigits(n)[1]) && DigitsValue(TwoDigits(n)) == n
  {
    var d := TwoDigits(n);
    assert d[..|d| - 1] == [d[0]] && [d[0]][..0] == [];
    assert DigitsValue([d[0]]) == n / 10;
    assert n / 10 * 10 + n % 10 == n;
  }

  /** Two times are rendered alike only when they are the same time. */
  lemma TimeTextInjective(a: Time, b: Time)
    ensures TimeText(a) == TimeText(b) <==> a == b
  {
    if TimeText(a) == TimeText(b) {
      assert a == a / 60 * 60 + a % 60 && b == b / 60 * 60 + b % 60;
    }
  }

  /** The text toString passes to String.format, without the closing bracket added after it. */
  function LessonTemplate(l: Lesson): string {
    "[Subject: " + l.subject.name + ", Day: " + l.day.name
      + ", startTime: " + TimeText(l.start) + ", endTime: " + TimeText(l.end)
  }

  /** toString does not throw: every '%' in the template starts a specifier String.format accepts. */
  predicate Formattable(l: Lesson) {
    FormatNoArgs(LessonTemplate(l)).Some?
  }

  /** Every lesson of the list can be rendered: each was built by the constructor. */
  predicate AllFormattable(ls: seq<Lesson>) {
    forall k :: 0 <= k < |ls| ==> Formattable(ls[k])
  }

  /** A template without '%' in either name has no '%' at all, and formats to itself. */
  lemma PlainTemplate(l: Lesson)
    ensures '%' !in l.subject.name && '%' !in l.day.name ==>
      FormatNoArgs(LessonTemplate(l)) == Some(LessonTemplate(l))
  {
    if '%' !in l.subject.name && '%' !in l.day.name {
      var t := LessonTemplate(l);
      assert '%' !in TimeText(l.start) && '%' !in TimeText(l.end);
      assert '%' !in t;
      FormatNoArgsPlain(t);
    }
  }

  /**
   * Lesson.toString, for a lesson whose constructor returned: the template
   * formatted, then "]". With no '%' in the names the text holds the
   * subject name, the day name, the start and the end in that order.
   */
  function LessonText(l: Lesson): (r: string)
    requires Formattable(l)
    ensures |r| > 0 && r[0] == '[' && r[|r| - 1] == ']'
    ensures '%' !in l.subject.name && '%' !in l.day.name ==>
      r == "[Subject: " + l.subject.name + ", Day: " + l.day.name
        + ", startTime: " + TimeText(l.start) + ", endTime: " + TimeText(l.end) + "]"
  {
    PlainTemplate(l);
    FormatNoArgs(LessonTemplate(l)).value + "]"
  }
}
