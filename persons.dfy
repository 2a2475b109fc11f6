/**
 * A student (model/person/Person.java): fixed identity fields and a
 * mutable list of weekly lessons.
 */
module Persons {
  import opened Wrappers
  import opened JavaText
  import opened Subjects
  import opened Lessons

  /**
   * The identity and contact fields, which the application never changes
   * after construction. Two persons are the same person when their names agree.
   */
  datatype Identity = Identity(name: string, phone: string, contact: string, address: string, tags: set<string>)

  /** The value of a person: identity and lessons. Person.equals compares exactly this. */
  datatype PersonData = PersonData(id: Identity, lessons: seq<Lesson>)

  /** isSamePerson on values: the names are equal. */
  predicate SamePerson(a: PersonData, b: PersonData) {
    a.id.name == b.id.name
  }

  class Person {
    const id: Identity
    var lessons: seq<Lesson>

    /** The general constructor; it keeps its own copy of the lessons. */
    constructor (id: Identity, lessons: seq<Lesson>)
      ensures this.id == id && this.lessons == lessons
    {
      this.id := id;
      this.lessons := lessons;
    }

    /** The constructor for a new person with no lessons. */
    constructor WithoutLessons(id: Identity)
      ensures this.id == id && lessons == []
    {
      this.id := id;
      lessons := [];
    }

    function Data(): PersonData
      reads this
    {
      PersonData(id, lessons)
    }

    /** setLessons: the lesson list is replaced; the identity is untouched. */
    method SetLessons(ls: seq<Lesson>)
      modifies this
      ensures lessons == ls
    {
      lessons := ls;
    }

    /** addLesson: the lesson goes at the end and the earlier ones stay in place. */
    method AddLesson(l: Lesson)
      modifies this
      ensures lessons == old(lessons) + [l]
    {
      lessons := lessons + [l];
    }

    /** makeCopyOfPerson: a new person with the same value, sharing no list with this one. */
    method MakeCopy() returns (c: Person)
      ensures fresh(c) && c.Data() == Data()
    {
      c := new Person(id, lessons);
    }

    /** isSamePerson. */
    predicate IsSamePerson(other: Person) {
      id.name == other.id.name
    }

    /** equals: identity fields and the whole lesson sequence. */
    predicate Equals(other: Person)
      reads this, other
    {
      Data() == other.Data()
    }

    /** getAllSubjects. */
    function AllSubjects(): seq<Subject>
      reads this
    {
      DistinctSubjects(lessons)
    }

    /** hasLessonConflict(candidate, exclude). */
    function HasLessonConflict(candidate: Lesson, exclude: Option<nat>): Option<Lesson>
      reads this
    {
      FindConflict(lessons, candidate, exclude)
    }

    /** getLessonsAsString: the StringBuilder loop, then trim. */
    method LessonsAsString() returns (s: string)
      requires AllFormattable(lessons)
      ensures s == LessonsText(lessons)
    {
      if |lessons| == 0 {
        return "No lessons scheduled.";
      }
      var sb := "";
      for i := 0 to |lessons|
        invariant sb == Builder(lessons, i)
      {
        AppendLine(sb, NatToString(i + 1), ". ", LessonText(lessons[i]), "\n");
        sb := sb + NatToString(i + 1);
        sb := sb + ". ";
        sb := sb + LessonText(lessons[i]);
        sb := sb + "\n";
      }
      BuilderTrimmed(lessons);
      s := Trim(sb);
    }
  }

  // ------------------------------------------------------ conflict lookup

  /**
   * The lowest index at or after i, other than exclude, whose lesson
   * conflicts with the candidate. The scan order of the missing
   * hasLessonConflict is not shown; the lowest index is the model's choice.
   */
  function FirstConflictFrom(ls: seq<Lesson>, c: Lesson, exclude: Option<nat>, i: nat): (r: Option<nat>)
    requires i <= |ls|
    ensures r.Some? ==> i <= r.value < |ls| && exclude != Some(r.value) && ConflictsWith(ls[r.value], c)
    ensures r.Some? ==> forall j :: i <= j < r.value && exclude != Some(j) ==> !ConflictsWith(ls[j], c)
    ensures r.None? ==> forall j :: i <= j < |ls| && exclude != Some(j) ==> !ConflictsWith(ls[j], c)
    decreases |ls| - i
  {
    if i == |ls| then None
    else if exclude != Some(i) && ConflictsWith(ls[i], c) then Some(i)
    else FirstConflictFrom(ls, c, exclude, i + 1)
  }

  function FirstConflict(ls: seq<Lesson>, c: Lesson, exclude: Option<nat>): Option<nat> {
    FirstConflictFrom(ls, c, exclude, 0)
  }

  /** The lesson hasLessonConflict reports, or None. */
  function FindConflict(ls: seq<Lesson>, c: Lesson, exclude: Option<nat>): Option<Lesson> {
    match FirstConflict(ls, c, exclude)
    case None => None
    case Some(i) => Some(ls[i])
  }

  /**
   * hasLessonConflict returns a lesson exactly when some lesson at an index
   * other than exclude conflicts with the candidate, and what it returns is
   * the first such lesson.
   */
  lemma FindConflictSpec(ls: seq<Lesson>, c: Lesson, exclude: Option<nat>)
    ensures FindConflict(ls, c, exclude).Some?
        <==> exists j :: 0 <= j < |ls| && exclude != Some(j) && ConflictsWith(ls[j], c)
    ensures FindConflict(ls, c, exclude).Some? ==>
      exists j :: 0 <= j < |ls| && exclude != Some(j) && ls[j] == FindConflict(ls, c, exclude).value
        && ConflictsWith(ls[j], c)
        && forall k :: 0 <= k < j && exclude != Some(k) ==> !ConflictsWith(ls[k], c)
  {
    var r := FirstConflict(ls, c, exclude);
    if r.Some? {
      assert ls[r.value] == FindConflict(ls, c, exclude).value;
    }
  }

  // ----------------------------------------------------------- subjects

  /** Some lesson in ls has subject s. */
  predicate Teaches(ls: seq<Lesson>, s: Subject) {
    exists k :: 0 <= k < |ls| && ls[k].subject == s
  }

  /** Stream.map(getSubject).distinct(): each subject once, at its first occurrence. */
  function DistinctSubjects(ls: seq<Lesson>): (r: seq<Subject>)
    ensures forall s :: s in r <==> Teaches(ls, s)
    ensures forall i :: 0 <= i < |r| ==> Teaches(ls, r[i])
    ensures forall i, j :: 0 <= i < j < |r| ==> r[i] != r[j]
    decreases |ls|
  {
    if ls == [] then []
    else
      var prev := DistinctSubjects(ls[..|ls| - 1]);
      var s := ls[|ls| - 1].subject;
      assert forall k :: 0 <= k < |ls| - 1 ==> ls[..|ls| - 1][k] == ls[k];
      if s in prev then prev else prev + [s]
  }

  /** The index of the first lesson with subject s. */
  function FirstSubjectIndex(ls: seq<Lesson>, s: Subject): (k: nat)
    requires Teaches(ls, s)
    ensures k < |ls| && ls[k].subject == s && forall j :: 0 <= j < k ==> ls[j].subject != s
    decreases |ls|
  {
    if ls[0].subject == s then 0
    else
      assert Teaches(ls[1..], s) by {
        var k :| 0 <= k < |ls| && ls[k].subject == s;
        assert ls[1..][k - 1].subject == s;
      }
      1 + FirstSubjectIndex(ls[1..], s)
  }

  /** The distinct subjects are listed in the order of their first occurrence. */
  lemma {:induction false} DistinctSubjectsOrder(ls: seq<Lesson>)
    ensures forall i, j :: 0 <= i < j < |DistinctSubjects(ls)| ==>
      FirstSubjectIndex(ls, DistinctSubjects(ls)[i]) < FirstSubjectIndex(ls, DistinctSubjects(ls)[j])
    decreases |ls|
  {
    if ls != [] {
      var init := ls[..|ls| - 1];
      DistinctSubjectsOrder(init);
      var prev := DistinctSubjects(init);
      var r := DistinctSubjects(ls);
      forall t | t in prev ensures Teaches(ls, t) && FirstSubjectIndex(ls, t) == FirstSubjectIndex(init, t) {
        FirstIndexOfPrefix(ls, t);
      }
      var s := ls[|ls| - 1].subject;
      if s !in prev {
        assert FirstSubjectIndex(ls, s) == |ls| - 1 by {
          assert !Teaches(init, s);
          NotTaughtInPrefix(ls, s);
        }
        forall i | 0 <= i < |prev| ensures FirstSubjectIndex(ls, r[i]) < |ls| - 1 {
          assert r[i] == prev[i];
          assert r[i] in prev;
        }
      }
    }
  }

  lemma NotTaughtInPrefix(ls: seq<Lesson>, s: Subject)
    requires ls != [] && !Teaches(ls[..|ls| - 1], s)
    ensures forall j :: 0 <= j < |ls| - 1 ==> ls[j].subject != s
  {
    forall j | 0 <= j < |ls| - 1 ensures ls[j].subject != s {
      assert ls[..|ls| - 1][j] == ls[j];
    }
  }

  lemma FirstIndexOfPrefix(ls: seq<Lesson>, t: Subject)
    requires ls != [] && Teaches(ls[..|ls| - 1], t)
    ensures Teaches(ls, t)
    ensures FirstSubjectIndex(ls, t) == FirstSubjectIndex(ls[..|ls| - 1], t)
  {
    var init := ls[..|ls| - 1];
    var k :| 0 <= k < |init| && init[k].subject == t;
    assert ls[k].subject == t;
    var a, b := FirstSubjectIndex(ls, t), FirstSubjectIndex(init, t);
    assert ls[b].subject == t;
    assert a <= b < |init|;
    assert init[a].subject == t;
  }

  // ------------------------------------------------------- lesson listing

  function Line(i: nat, l: Lesson): string
    requires Formattable(l)
  {
    NatToString(i + 1) + ". " + LessonText(l)
  }

  /** One line "n. <lesson>" per lesson, numbered from 1. */
  function Lines(ls: seq<Lesson>): (r: seq<string>)
    requires AllFormattable(ls)
    ensures |r| == |ls| && forall i :: 0 <= i < |ls| ==> r[i] == Line(i, ls[i])
  {
    seq(|ls|, i requires 0 <= i < |ls| => Line(i, ls[i]))
  }

  /** The lines separated by newlines, with no newline after the last. */
  function JoinLines(lines: seq<string>): string
    decreases |lines|
  {
    if |lines| == 0 then ""
    else if |lines| == 1 then lines[0]
    else JoinLines(lines[..|lines| - 1]) + "\n" + lines[|lines| - 1]
  }

  /** What getLessonsAsString returns. */
  function LessonsText(ls: seq<Lesson>): string
    requires AllFormattable(ls)
  {
    if |ls| == 0 then "No lessons scheduled." else JoinLines(Lines(ls))
  }

  /** The builder's contents after n rounds of the loop. */
  function Builder(ls: seq<Lesson>, n: nat): string
    requires n <= |ls| && AllFormattable(ls)
  {
    if n == 0 then "" else Builder(ls, n - 1) + Line(n - 1, ls[n - 1]) + "\n"
  }

  /** The four appends of one round add one line and a newline. */
  lemma AppendLine(b: string, number: string, dot: string, text: string, nl: string)
    ensures b + number + dot + text + nl == b + (number + dot + text) + nl
  {
  }

  lemma JoinLinesStep(lines: seq<string>, n: nat)
    requires 2 <= n <= |lines|
    ensures JoinLines(lines[..n]) == JoinLines(lines[..n - 1]) + "\n" + lines[n - 1]
  {
    assert lines[..n][..n - 1] == lines[..n - 1];
  }

  lemma {:induction false} BuilderIsJoinedLines(ls: seq<Lesson>, n: nat)
    requires 1 <= n <= |ls| && AllFormattable(ls)
    ensures Builder(ls, n) == JoinLines(Lines(ls)[..n]) + "\n"
  {
    var lines := Lines(ls);
    if n > 1 {
      BuilderIsJoinedLines(ls, n - 1);
      JoinLinesStep(lines, n);
    } else {
      assert lines[..1] == [lines[0]];
    }
  }

  /** A listing line: it starts with a digit and ends with ']'. */
  predicate IsListedLine(l: string) {
    |l| > 0 && IsDigit(l[0]) && l[|l| - 1] == ']'
  }

  lemma LineListed(i: nat, l: Lesson)
    requires Formattable(l)
    ensures IsListedLine(Line(i, l))
  {
  }

  /** Joining listing lines gives text that starts with a digit and ends with ']'. */
  lemma {:induction false} JoinLinesListed(lines: seq<string>)
    requires |lines| >= 1 && forall i :: 0 <= i < |lines| ==> IsListedLine(lines[i])
    ensures IsListedLine(JoinLines(lines))
    decreases |lines|
  {
    if |lines| > 1 {
      var init := lines[..|lines| - 1];
      forall i | 0 <= i < |init| ensures IsListedLine(init[i]) {
        assert init[i] == lines[i];
      }
      JoinLinesListed(init);
      var j := JoinLines(init) + "\n" + lines[|lines| - 1];
      assert JoinLines(lines) == j;
      assert j[0] == JoinLines(init)[0];
    }
  }

  /** A listing line followed by a newline trims back to the line. */
  lemma TrimOfListedLine(j: string)
    requires IsListedLine(j)
    ensures Trim(j + "\n") == j
  {
    TrimEndPadded(j, "\n");
    TrimOfTrimmed(j);
  }

  lemma LinesListed(ls: seq<Lesson>)
    requires |ls| >= 1 && AllFormattable(ls)
    ensures IsListedLine(JoinLines(Lines(ls)))
  {
    var lines := Lines(ls);
    forall i | 0 <= i < |lines| ensures IsListedLine(lines[i]) {
      LineListed(i, ls[i]);
    }
    JoinLinesListed(lines);
  }

  /** Trimming the builder's final contents drops the last newline and nothing else. */
  lemma BuilderTrimmed(ls: seq<Lesson>)
    requires |ls| >= 1 && AllFormattable(ls)
    ensures Trim(Builder(ls, |ls|)) == LessonsText(ls)
  {
    BuilderIsJoinedLines(ls, |ls|);
    assert Lines(ls)[..|ls|] == Lines(ls);
    LinesListed(ls);
    TrimOfListedLine(JoinLines(Lines(ls)));
  }
}
