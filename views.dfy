/**
 * The pure half of the person view: the three search predicates
 * (model/person/DayMatchesPredicate.java, SubjectMatchesPredicate.java and
 * the name-keyword predicate), SubjectComparator, the lesson ordering and
 * the subject-trimmed projection that ModelManager builds.
 */
module Views {
  import opened JavaText
  import opened Days
  import opened Subjects
  import opened Lessons
  import opened Persons
  import opened Sorting

  // ------------------------------------------------------------ predicates

  /** The predicate installed on the filtered list. */
  datatype Filter =
    /** PREDICATE_SHOW_ALL_PERSONS: every person. */
    | ShowAll
    /** NameContainsKeywordsPredicate: some word of the name is a keyword. */
    | ByName(keywords: seq<string>)
    /** DayMatchesPredicate: some lesson falls on the day. */
    | ByDay(day: Day)
    /** SubjectMatchesPredicate, with its keyword already trimmed. */
    | BySubject(keyword: string)

  /**
   * The name predicate: some keyword equals some whitespace-separated word
   * of the name, ignoring case. Its class is not part of this model; this is
   * the whole-word rule its tests show ("cArL" finds Carl, "Car" does not).
   */
  predicate NameMatches(keywords: seq<string>, p: PersonData) {
    var words := Split(p.id.name);
    exists k, w :: 0 <= k < |keywords| && 0 <= w < |words| && EqualsIgnoreCase(words[w], keywords[k])
  }

  /** DayMatchesPredicate.test: some lesson's day name equals the day's, ignoring case. */
  predicate DayMatches(d: Day, p: PersonData) {
    |p.lessons| > 0 && exists k :: 0 <= k < |p.lessons| && EqualsIgnoreCase(p.lessons[k].day.name, d.name)
  }

  /** The SubjectMatchesPredicate constructor trims the keyword. */
  function NewSubjectFilter(keyword: string): (f: Filter)
    ensures f.BySubject? && IsTrimmed(f.keyword)
  {
    TrimIsTrimmed(keyword);
    BySubject(Trim(keyword))
  }

  /** SubjectMatchesPredicate.test: some lesson's subject name equals the keyword, ignoring case. */
  predicate SubjectMatches(keyword: string, p: PersonData) {
    |p.lessons| > 0 && exists k :: 0 <= k < |p.lessons| && EqualsIgnoreCase(p.lessons[k].subject.name, keyword)
  }

  predicate Matches(f: Filter, p: PersonData) {
    match f
    case ShowAll => true
    case ByName(kws) => NameMatches(kws, p)
    case ByDay(d) => DayMatches(d, p)
    case BySubject(kw) => SubjectMatches(kw, p)
  }

  /**
   * Predicate equality, as FindCommand.equals compares them: the name
   * predicate by its keyword list, the day predicate by its day and the
   * subject predicate by its keyword ignoring case.
   */
  predicate SameFilter(f: Filter, g: Filter) {
    match (f, g)
    case (ShowAll, ShowAll) => true
    case (ByName(a), ByName(b)) => a == b
    case (ByDay(a), ByDay(b)) => a == b
    case (BySubject(a), BySubject(b)) => EqualsIgnoreCase(a, b)
    case _ => false
  }

  /** The filtered list: the persons that satisfy the predicate, in roster order. */
  function FilterPersons(ps: seq<PersonData>, f: Filter): (r: seq<PersonData>)
    ensures |r| <= |ps|
    ensures forall p :: multiset(r)[p] == if Matches(f, p) then multiset(ps)[p] else 0
    decreases |ps|
  {
    if ps == [] then []
    else
      assert ps == [ps[0]] + ps[1..];
      (if Matches(f, ps[0]) then [ps[0]] else []) + FilterPersons(ps[1..], f)
  }

  /** A person is displayed by the plain view exactly when it is stored and satisfies the predicate. */
  lemma FilterMembership(ps: seq<PersonData>, f: Filter, p: PersonData)
    ensures p in FilterPersons(ps, f) <==> p in ps && Matches(f, p)
  {
    assert p in FilterPersons(ps, f) <==> multiset(FilterPersons(ps, f))[p] > 0;
  }

  /** A person with no lessons matches neither a day nor a subject. */
  lemma NoLessonsNeverMatch(p: PersonData, d: Day, kw: string)
    requires p.lessons == []
    ensures !Matches(ByDay(d), p) && !Matches(BySubject(kw), p)
  {
  }

  /**
   * Day names are stored normalised, so for constructed days the
   * ignore-case test is plain Day equality.
   */
  lemma DayMatchesIsDayEquality(d: Day, p: PersonData)
    requires d.name in ValidDays
    requires forall k :: 0 <= k < |p.lessons| ==> p.lessons[k].day.name in ValidDays
    ensures DayMatches(d, p) <==> exists k :: 0 <= k < |p.lessons| && p.lessons[k].day == d
  {
    forall k | 0 <= k < |p.lessons|
      ensures EqualsIgnoreCase(p.lessons[k].day.name, d.name) <==> p.lessons[k].day == d
    {
      ValidNamesIgnoreCase(p.lessons[k].day, d);
    }
  }

  /** The day test looks only at the lessons' days: subjects, times and identity are irrelevant. */
  lemma DayMatchesOnlyDays(d: Day, p: PersonData, q: PersonData)
    requires |p.lessons| == |q.lessons|
    requires forall k :: 0 <= k < |p.lessons| ==> p.lessons[k].day == q.lessons[k].day
    ensures DayMatches(d, p) <==> DayMatches(d, q)
  {
    if DayMatches(d, p) {
      var k :| 0 <= k < |p.lessons| && EqualsIgnoreCase(p.lessons[k].day.name, d.name);
      assert EqualsIgnoreCase(q.lessons[k].day.name, d.name);
    }
    if DayMatches(d, q) {
      var k :| 0 <= k < |q.lessons| && EqualsIgnoreCase(q.lessons[k].day.name, d.name);
      assert EqualsIgnoreCase(p.lessons[k].day.name, d.name);
    }
  }

  /** Keywords that differ only by surrounding white space give the same predicate. */
  lemma SubjectFilterIgnoresPadding(keyword: string, pre: string, post: string)
    requires IsBlank(pre) && IsBlank(post)
    ensures NewSubjectFilter(pre + keyword + post) == NewSubjectFilter(keyword)
  {
    TrimPadded(pre, keyword, post);
  }

  /** Predicates that are equal test every person alike. */
  lemma SameFilterAgrees(f: Filter, g: Filter, p: PersonData)
    requires SameFilter(f, g)
    ensures Matches(f, p) <==> Matches(g, p)
  {
    if f.BySubject? {
      var a, b := f.keyword, g.keyword;
      EqualsIgnoreCaseSymmetric(a, b);
      if SubjectMatches(a, p) {
        var k :| 0 <= k < |p.lessons| && EqualsIgnoreCase(p.lessons[k].subject.name, a);
        EqualsIgnoreCaseTransitive(p.lessons[k].subject.name, a, b);
      }
      if SubjectMatches(b, p) {
        var k :| 0 <= k < |p.lessons| && EqualsIgnoreCase(p.lessons[k].subject.name, b);
        EqualsIgnoreCaseTransitive(p.lessons[k].subject.name, b, a);
      }
    }
  }

  /** Predicate equality is an equivalence relation. */
  lemma SameFilterEquivalence(f: Filter, g: Filter, h: Filter)
    ensures SameFilter(f, f)
    ensures SameFilter(f, g) ==> SameFilter(g, f)
    ensures SameFilter(f, g) && SameFilter(g, h) ==> SameFilter(f, h)
  {
    if f.BySubject? {
      EqualsIgnoreCaseReflexive(f.keyword);
      if g.BySubject? {
        EqualsIgnoreCaseSymmetric(f.keyword, g.keyword);
        if h.BySubject? && SameFilter(f, g) && SameFilter(g, h) {
          EqualsIgnoreCaseTransitive(f.keyword, g.keyword, h.keyword);
        }
      }
    }
  }

  // ------------------------------------------------------ lesson ordering

  /** The lesson order: day ordinal, then start time. */
  function LessonKey(l: Lesson): Key {
    Key(NumericValue(l.day), l.start)
  }

  /** The stable sort by (day ordinal, start time) both view operations apply. */
  function SortLessons(ls: seq<Lesson>): (r: seq<Lesson>)
    ensures multiset(r) == multiset(ls) && |r| == |ls|
    ensures forall i, j :: 0 <= i < j < |r| ==> KeyLe(LessonKey(r[i]), LessonKey(r[j]))
  {
    SortKeepsLength(ls, LessonKey);
    SortByKey(ls, LessonKey)
  }

  /** Lessons at the same (day, start) keep their original order. */
  lemma SortLessonsStable(ls: seq<Lesson>, k: Key)
    ensures WithKey(SortLessons(ls), LessonKey, k) == WithKey(ls, LessonKey, k)
  {
    SortStable(ls, LessonKey, k);
  }

  /** An already ordered lesson list is left as it is. */
  lemma SortLessonsOfSorted(ls: seq<Lesson>)
    requires forall i, j :: 0 <= i < j < |ls| ==> KeyLe(LessonKey(ls[i]), LessonKey(ls[j]))
    ensures SortLessons(ls) == ls
  {
    SortOfSorted(ls, LessonKey);
  }

  // ---------------------------------------------------- SubjectComparator

  /** SubjectComparator.compare, as written. */
  function Compare(p1: PersonData, p2: PersonData): int {
    if |p1.lessons| == 0 && |p2.lessons| == 0 then 0
    else if |p1.lessons| == 0 then 1
    else if |p2.lessons| == 0 then -1
    else
      var l1, l2 := p1.lessons[0], p2.lessons[0];
      var dayCompare := IntCompare(NumericValue(l1.day), NumericValue(l2.day));
      if dayCompare != 0 then dayCompare else IntCompare(l1.start, l2.start)
  }

  /** The comparator is a key order: a person without lessons ranks after every day ordinal. */
  function PersonKey(p: PersonData): Key {
    if |p.lessons| == 0 then Key(9, 0) else LessonKey(p.lessons[0])
  }

  lemma NumericValueRange(d: Day)
    ensures 1 <= NumericValue(d) <= 8
  {
  }

  /** compare is exactly the lexicographic comparison of the keys. */
  lemma CompareIsKeyOrder(p1: PersonData, p2: PersonData)
    ensures Compare(p1, p2) == CompareKeys(PersonKey(p1), PersonKey(p2))
  {
    if |p1.lessons| > 0 { NumericValueRange(p1.lessons[0].day); }
    if |p2.lessons| > 0 { NumericValueRange(p2.lessons[0].day); }
  }

  /**
   * Two persons without lessons compare equal; one without lessons sorts
   * after one with; otherwise only the first lessons' day and start count.
   */
  lemma CompareCases(p1: PersonData, p2: PersonData)
    ensures |p1.lessons| == 0 && |p2.lessons| == 0 ==> Compare(p1, p2) == 0
    ensures |p1.lessons| == 0 && |p2.lessons| > 0 ==> Compare(p1, p2) == 1 && Compare(p2, p1) == -1
    ensures |p1.lessons| > 0 && |p2.lessons| > 0 ==>
      (Compare(p1, p2) == 0 <==> LessonKey(p1.lessons[0]) == LessonKey(p2.lessons[0]))
  {
    CompareIsKeyOrder(p1, p2);
    CompareIsKeyOrder(p2, p1);
  }

  /** End times, subjects and later lessons never affect the comparison. */
  lemma CompareFirstLessonOnly(p1: PersonData, p2: PersonData, q1: PersonData, q2: PersonData)
    requires |p1.lessons| > 0 && |p2.lessons| > 0 && |q1.lessons| > 0 && |q2.lessons| > 0
    requires LessonKey(p1.lessons[0]) == LessonKey(q1.lessons[0])
    requires LessonKey(p2.lessons[0]) == LessonKey(q2.lessons[0])
    ensures Compare(p1, p2) == Compare(q1, q2)
  {
    CompareIsKeyOrder(p1, p2);
    CompareIsKeyOrder(q1, q2);
  }

  /** Antisymmetry: swapping the arguments negates the result. */
  lemma CompareAntisymmetric(p1: PersonData, p2: PersonData)
    ensures Compare(p1, p2) == -Compare(p2, p1)
  {
    CompareIsKeyOrder(p1, p2);
    CompareIsKeyOrder(p2, p1);
  }

  /** Transitivity of "not after". */
  lemma CompareTransitive(p1: PersonData, p2: PersonData, p3: PersonData)
    requires Compare(p1, p2) <= 0 && Compare(p2, p3) <= 0
    ensures Compare(p1, p3) <= 0
  {
    CompareIsKeyOrder(p1, p2);
    CompareIsKeyOrder(p2, p3);
    CompareIsKeyOrder(p1, p3);
  }

  /** The sorted person list: the filtered persons in comparator order. */
  function SortPersons(ps: seq<PersonData>): (r: seq<PersonData>)
    ensures multiset(r) == multiset(ps)
  {
    SortByKey(ps, PersonKey)
  }

  /** In the sorted list no person compares after a later one. */
  lemma SortPersonsOrdered(ps: seq<PersonData>)
    ensures forall i, j :: 0 <= i < j < |SortPersons(ps)| ==> Compare(SortPersons(ps)[i], SortPersons(ps)[j]) <= 0
  {
    var r := SortPersons(ps);
    forall i, j | 0 <= i < j < |r| ensures Compare(r[i], r[j]) <= 0 {
      CompareIsKeyOrder(r[i], r[j]);
    }
  }

  // ------------------------------------------------- subject-trimmed view

  /** The lessons whose subject isSameSubject the target, in order. */
  function LessonsOf(ls: seq<Lesson>, s: Subject): (r: seq<Lesson>)
    ensures forall l :: multiset(r)[l] == if IsSameSubject(l.subject, s) then multiset(ls)[l] else 0
    ensures |r| <= |ls|
    decreases |ls|
  {
    if ls == [] then []
    else
      assert ls == [ls[0]] + ls[1..];
      (if IsSameSubject(ls[0].subject, s) then [ls[0]] else []) + LessonsOf(ls[1..], s)
  }

  /** The copy shown for one person. */
  function TrimmedCopy(p: PersonData, keyword: string): PersonData {
    PersonData(p.id, SortLessons(LessonsOf(p.lessons, Subject(keyword))))
  }

  /**
   * The copy has the person's identity and exactly the lessons whose subject
   * name is the keyword (case-sensitively), each as often as in the
   * original, ordered by day and start.
   */
  lemma TrimmedCopyContents(p: PersonData, keyword: string)
    ensures TrimmedCopy(p, keyword).id == p.id
    ensures var q := TrimmedCopy(p, keyword);
      forall l :: multiset(q.lessons)[l] == if l.subject.name == keyword then multiset(p.lessons)[l] else 0
    ensures var q := TrimmedCopy(p, keyword);
      forall i, j :: 0 <= i < j < |q.lessons| ==> KeyLe(LessonKey(q.lessons[i]), LessonKey(q.lessons[j]))
  {
  }

  /** The persons that still have lessons, in order. */
  function DropEmpty(qs: seq<PersonData>): (r: seq<PersonData>)
    ensures |r| <= |qs|
    ensures forall q :: q in r <==> q in qs && |q.lessons| > 0
    decreases |qs|
  {
    if qs == [] then []
    else (if |qs[0].lessons| > 0 then [qs[0]] else []) + DropEmpty(qs[1..])
  }

  /** sortLessonsForEachPersonBySubject's list: the non-empty copies, in filtered order. */
  function TrimmedView(ps: seq<PersonData>, keyword: string): (r: seq<PersonData>)
    ensures |r| <= |ps|
    ensures forall q :: q in r ==> |q.lessons| > 0
  {
    DropEmpty(seq(|ps|, i requires 0 <= i < |ps| => TrimmedCopy(ps[i], keyword)))
  }

  /** The trimmed view holds exactly the non-empty copies of the filtered persons. */
  lemma TrimmedViewMembers(ps: seq<PersonData>, keyword: string)
    ensures forall q :: q in TrimmedView(ps, keyword) <==>
      exists i :: 0 <= i < |ps| && q == TrimmedCopy(ps[i], keyword) && |q.lessons| > 0
  {
    var copies := seq(|ps|, i requires 0 <= i < |ps| => TrimmedCopy(ps[i], keyword));
    assert |copies| == |ps| && forall i :: 0 <= i < |ps| ==> copies[i] == TrimmedCopy(ps[i], keyword);
    forall q ensures q in copies <==> exists i :: 0 <= i < |ps| && q == TrimmedCopy(ps[i], keyword) {
      if q in copies {
        var i :| 0 <= i < |copies| && copies[i] == q;
        assert q == TrimmedCopy(ps[i], keyword);
      }
    }
  }

  /** Every lesson in the trimmed view has exactly the keyword as its subject name. */
  lemma TrimmedViewSubjects(ps: seq<PersonData>, keyword: string)
    ensures forall q, l :: q in TrimmedView(ps, keyword) && l in q.lessons ==> l.subject.name == keyword
  {
    forall q, l | q in TrimmedView(ps, keyword) && l in q.lessons ensures l.subject.name == keyword {
      TrimmedViewMembers(ps, keyword);
      var i :| 0 <= i < |ps| && q == TrimmedCopy(ps[i], keyword) && |q.lessons| > 0;
      TrimmedCopyContents(ps[i], keyword);
      assert multiset(q.lessons)[l] > 0;
    }
  }

  /** A person is dropped from the trimmed view exactly when no lesson has the keyword as subject. */
  lemma TrimmedCopyEmptyIff(p: PersonData, keyword: string)
    ensures |TrimmedCopy(p, keyword).lessons| == 0 <==> !Teaches(p.lessons, Subject(keyword))
  {
    var q := TrimmedCopy(p, keyword);
    TrimmedCopyContents(p, keyword);
    if Teaches(p.lessons, Subject(keyword)) {
      var k :| 0 <= k < |p.lessons| && p.lessons[k].subject == Subject(keyword);
      assert multiset(p.lessons)[p.lessons[k]] > 0;
      assert multiset(q.lessons)[p.lessons[k]] > 0;
    } else {
      forall l ensures multiset(q.lessons)[l] == 0 {
        if l.subject.name == keyword {
          assert forall k :: 0 <= k < |p.lessons| ==> p.lessons[k] != l;
          assert l !in p.lessons;
        }
      }
      assert multiset(q.lessons) == multiset{};
    }
  }
}
