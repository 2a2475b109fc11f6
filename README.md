# EduDex scheduling core in Dafny

EduDex is a desktop address book for private tutors. Each student (a
`Person`) has a list of weekly lessons. A lesson has a subject, a day of
the week, a start time and an end time. The tutor also keeps a list of the
subjects they teach. This project models the part of EduDex that keeps
that timetable consistent, and proves properties of the model:

- **Values.** Days are matched ignoring case against seven names and
  normalised, with an ordinal used for sorting. The source's guard also
  lets through a few non-ASCII spellings that normalise to no day name
  (see "Findings"); the model keeps that guard, and a corrected one beside
  it. Lessons must start before they end, and their `toString`, which the
  constructor calls, must not throw. Two lessons conflict when they fall on
  the same day and their time intervals overlap. Subjects are compared by
  their exact name.
- **Stateful objects.** These are Dafny classes whose methods change
  fields:
  - `Person`, with its mutable lesson list;
  - `UniqueSubjectList`;
  - the `EduDex` roster, with its search for a student whose lesson
    conflicts with a given one;
  - `ModelManager`, with its filtered, sorted and subject-trimmed views;
  - `EditLessonDescriptor`.
- **Commands.** `addlesson`, `editlesson`, the lesson branch and the
  field branch of `edit`, `deleteLesson`, `addsub`, `delsub`, and `find`
  by name, by day and by subject. Each command is a pure function from the
  model's state to an outcome and a new state. It is also a method over
  `ModelManager` that takes the same steps, and the method is proved to
  follow the function. The properties of each command are proved as
  lemmas about the function.
- **Parsing.** The `ParserUtil` field parsers, and the `find`,
  `editlesson` and `deleteLesson` argument parsers. They use the Java
  string operations they rely on: `trim`, `split("\\s+")`,
  `replaceAll("\\s+", " ")`, `equalsIgnoreCase`, the decimal rendering of
  an integer, `toLowerCase`, `String.format` without arguments, and
  `Stream.sorted`, which is a stable sort.

Times are minutes of the day (0 to 1439), standing for `LocalTime` at
minute precision. A person's identity fields (name, phone, school or
email, address, tags) are one opaque `Identity` record. Only its name takes
part in `isSamePerson`.

The modules follow the source: `Days`, `Lessons`, `Subjects`, `Persons`,
`SubjectLists`, `Roster` (the `EduDex` class), `Views` (the predicates, the
comparator and the lesson sorting), `Models` (`ModelManager`),
`Descriptors`, `LessonCommands`, `SubjectCommands`, `FindCommands`,
`ParserUtil` and `CommandParsers`. There are also three supporting modules:
`Wrappers` (Option, Result and Outcome), `Errors`, and `JavaText` and
`Sorting` (the Java library behaviour the core relies on).

## Model

| member | source | states |
|---|---|---|
| Days.NewDayAsWritten | src/main/java/seedu/edudex/model/person/Day.java:22-37 | The constructor as written accepts an input exactly when it equals one of the seven day names under Java's character-by-character equalsIgnoreCase. The stored name is the input's toLowerCase with its first character upper-cased. |
| Days.LongSAcceptedAsWritten | src/main/java/seedu/edudex/model/person/Day.java:22-53 | Example: as written, "tueſday" (with U+017F) is accepted and stored as "Tueſday", which is no day name and whose numeric value is the fallback 8. |
| Days.DottedCapitalIAcceptedAsWritten | src/main/java/seedu/edudex/model/person/Day.java:22-53 | Example: as written, "frİday" (with U+0130) is accepted. toLowerCase turns the İ into "i" and a combining dot, so the day is stored as "Fri̇day", seven characters long, which is no day name and whose numeric value is 8. |
| Days.NewDay | src/main/java/seedu/edudex/model/person/Day.java:22-37 | The corrected constructor accepts exactly the inputs whose toLowerCase is the lower case of one of the seven names. It stores that name, whose toLowerCase is the input's. |
| Days.NormalizeValid | src/main/java/seedu/edudex/model/person/Day.java:79-89 | When the corrected guard accepts an input, normalising it gives one of the seven names, with the same toLowerCase as the input. |
| Days.NormalizeCanonical | src/main/java/seedu/edudex/model/person/Day.java:79-89 | Normalising any input whose toLowerCase is a day name's lower case gives that day name. |
| Days.CapitalizeOfLower | src/main/java/seedu/edudex/model/person/Day.java:79-81 | Capitalising the lower case of a capitalised word gives the word back. |
| Days.NumericValueOfValid | src/main/java/seedu/edudex/model/person/Day.java:42-53 | The k-th day name, counted from 0, has numeric value k + 1. |
| Days.NewDayOrdinal | src/main/java/seedu/edudex/model/person/Day.java:42-53 | Every constructed day has a numeric value from 1 to 7, so the default 8 is unreachable. |
| Days.MixedCaseMonday | src/main/java/seedu/edudex/model/person/Day.java:22-25 | Example: "mOnDaY" is accepted and stored as "Monday". |
| Days.MisspeltDayRejected | src/main/java/seedu/edudex/model/person/Day.java:30-37 | Example: "mondayy" is rejected. |
| Days.NormalizeIdempotent | src/main/java/seedu/edudex/model/person/Day.java:22-25 | A stored day name is itself valid input and constructs the same day. |
| Days.NewDayEqualIff | src/main/java/seedu/edudex/model/person/Day.java:64-69 | Two accepted inputs construct equal days exactly when they have the same toLowerCase. |
| Days.DayNamesDistinct | src/main/java/seedu/edudex/model/person/Day.java:12-14 | A fact about the constants: no two of the seven names are equal ignoring case. |
| Days.NumericValueInjective | src/main/java/seedu/edudex/model/person/Day.java:42-53 | On constructed days, equal numeric values mean equal days, so the ordinal is a faithful sort key. |
| Days.ValidNamesIgnoreCase | src/main/java/seedu/edudex/model/person/Day.java:64-69 | Between constructed days, comparing names ignoring case is the same as day equality. |
| Days.CorrectedGuardNarrower | src/main/java/seedu/edudex/model/person/Day.java:30-37 | The corrected guard accepts nothing that the original guard rejects. |
| Days.AsciiGuardWider | src/main/java/seedu/edudex/model/person/Day.java:30-37 | On ASCII input, the original guard accepts nothing that the corrected guard rejects. |
| Days.CorrectedAgreesOnAscii | src/main/java/seedu/edudex/model/person/Day.java:22-37 | On ASCII input, the corrected constructor and the original one give the same result. |
| Lessons.NewLesson | src/main/java/seedu/edudex/model/person/Lesson.java:30-38 | The constructor succeeds exactly when the start is before the end and toString, which it calls, does not throw. It then holds the given four fields. |
| Lessons.NewLessonPlainNames | src/main/java/seedu/edudex/model/person/Lesson.java:30-38 | When neither the subject name nor the day name holds a '%', only the time order decides. |
| Lessons.PercentNameRejected | src/main/java/seedu/edudex/model/person/Lesson.java:37 | A subject name with a lone '%' before a space, as in "100% Maths", makes the constructor fail whatever the day and times. |
| Lessons.ConflictsSymmetric | src/main/java/seedu/edudex/model/person/Lesson.java:109-119 | Conflict is symmetric. |
| Lessons.DifferentDaysNeverConflict | src/main/java/seedu/edudex/model/person/Lesson.java:110-112 | Lessons on different days never conflict. |
| Lessons.TouchingNeverConflict | src/main/java/seedu/edudex/model/person/Lesson.java:115-116 | Back-to-back lessons, where one ends as the other starts, do not conflict in either order. |
| Lessons.ValidLessonConflictsWithCopy | src/main/java/seedu/edudex/model/person/Lesson.java:109-119 | A valid lesson conflicts with every equal copy, itself included. |
| Lessons.StartInsideConflicts | src/main/java/seedu/edudex/model/person/Lesson.java:115-116 | On the same day, a lesson whose interval contains another valid lesson's start conflicts with it. |
| Lessons.TimeText | src/main/java/seedu/edudex/model/person/Time.java:44-47 | A time renders as two digits, a colon and two digits, which read back as the hours and the minutes of the time. |
| Lessons.TimeTextInjective | src/main/java/seedu/edudex/model/person/Time.java:44-47 | Two times render alike exactly when they are the same time. |
| Lessons.PlainTemplate | src/main/java/seedu/edudex/model/person/Lesson.java:68-71 | With no '%' in the subject or day name, String.format returns the template unchanged. |
| Lessons.LessonText | src/main/java/seedu/edudex/model/person/Lesson.java:66-72 | A constructed lesson renders as a text that starts with '[' and ends with ']'. With no '%' in the names it is "[Subject: ", the subject name, ", Day: ", the day name, ", startTime: ", the start, ", endTime: ", the end and "]", in that order. |
| Subjects.NewSubject | src/main/java/seedu/edudex/model/subject/Subject.java:20-35 | Only a null name is rejected. Any other name is stored exactly as given, untrimmed and with its case kept. |
| Subjects.SameSubjectIsEquality | src/main/java/seedu/edudex/model/subject/Subject.java:46-67 | isSameSubject coincides with equals and is an equivalence relation. |
| Subjects.CaseSensitive | src/main/java/seedu/edudex/model/subject/Subject.java:46-53 | "Math" and "math" are different subjects. |
| Persons.Person.constructor | src/main/java/seedu/edudex/model/person/Person.java:44-53 | The general constructor holds the given identity and a copy of the given lessons. |
| Persons.Person.WithoutLessons | src/main/java/seedu/edudex/model/person/Person.java:37-39 | The short constructor gives a person with the identity and no lessons. |
| Persons.Person.SetLessons | src/main/java/seedu/edudex/model/person/Person.java:71-73 | setLessons replaces the lesson list and leaves the identity as it was. |
| Persons.Person.AddLesson | src/main/java/seedu/edudex/model/person/Person.java:109-111 | addLesson appends the lesson and keeps the earlier lessons in order. |
| Persons.Person.MakeCopy | src/main/java/seedu/edudex/model/person/Person.java:177-181 | The copy is a new object with an equal value. |
| Persons.Person.LessonsAsString | src/main/java/seedu/edudex/model/person/Person.java:82-94 | With no lessons the text is "No lessons scheduled.". Otherwise it is one line "n. [lesson]" per lesson, numbered from 1 and separated by newlines, with no trailing newline. |
| Persons.BuilderTrimmed | src/main/java/seedu/edudex/model/person/Person.java:86-93 | The final trim removes only the newline after the last line. |
| Persons.BuilderIsJoinedLines | src/main/java/seedu/edudex/model/person/Person.java:87-92 | After n rounds, the builder holds the first n lines joined by newlines, followed by one newline. |
| Persons.Lines | src/main/java/seedu/edudex/model/person/Person.java:87-92 | Line i is the number i + 1, then ". ", then the i-th lesson's text. |
| Persons.FirstConflictFrom | src/main/java/seedu/edudex/logic/commands/EditLessonCommand.java:137-142 | The result is the first index at or after i, other than the excluded one, whose lesson conflicts with the candidate. None means there is no such index. |
| Persons.FindConflictSpec | src/main/java/seedu/edudex/logic/commands/EditLessonCommand.java:137-142 | The lesson lookup (hasLessonConflict) returns a lesson exactly when some lesson at an index other than the excluded one conflicts with the candidate, and it returns the first such lesson. |
| Persons.DistinctSubjects | src/main/java/seedu/edudex/model/person/Person.java:99-104 | getAllSubjects lists each subject that some lesson has, each exactly once. |
| Persons.FirstSubjectIndex | src/main/java/seedu/edudex/model/person/Person.java:99-104 | Gives the first lesson that has the subject. |
| Persons.DistinctSubjectsOrder | src/main/java/seedu/edudex/model/person/Person.java:99-104 | The distinct subjects come in the order of their first occurrence. |
| Roster.Snapshot | src/main/java/seedu/edudex/model/EduDex.java:158-161 | The roster value is the persons' values, position by position. |
| Roster.IndexOfPerson | src/main/java/seedu/edudex/model/EduDex.java:135-139 | The first position holding an equal person, or None exactly when no stored person is equal. |
| Roster.ConflictingPersonFrom | src/main/java/seedu/edudex/model/EduDex.java:195-212 | The first qualifying position at or after i; None exactly when none qualifies. A person qualifies when they are not the excluded person, have a conflicting lesson, and the first such lesson is not the candidate itself. |
| Roster.CrossConflictReported | src/main/java/seedu/edudex/model/EduDex.java:195-212 | A reported person is never the excluded one, and has a lesson that conflicts with the candidate without being equal to it. |
| Roster.IdenticalSlotsAllowed | src/main/java/seedu/edudex/model/EduDex.java:206-208 | When every conflicting lesson of every other person is an exact copy of the candidate, nobody is reported. |
| Roster.SkippedOnlyForCopies | src/main/java/seedu/edudex/model/EduDex.java:197-208 | Take a person who is not excluded and has no lessons that clash with each other. If that person is skipped, every one of their lessons that conflicts with the candidate is an exact copy of it. |
| Roster.CrossConflictNoneIff | src/main/java/seedu/edudex/model/EduDex.java:195-212 | When no student has self-clashing lessons, nobody is reported exactly when every other person's conflicting lessons are copies of the candidate. |
| Roster.CopyMasksOverlap | src/main/java/seedu/edudex/model/EduDex.java:201-208 | Without that invariant the copy exemption hides a real clash. A student holding both the candidate and an overlapping different lesson is skipped. |
| Roster.AddPersonKeepsNamesDistinct | src/main/java/seedu/edudex/model/EduDex.java:126-128 | addPerson keeps the names distinct, and on success it grows the roster by one. |
| Roster.SetPersonInPlace | src/main/java/seedu/edudex/model/EduDex.java:135-139 | Replacing a stored entry with a person of the same name succeeds and changes only that position. |
| Roster.SetPersonKeepsNamesDistinct | src/main/java/seedu/edudex/model/EduDex.java:135-139 | setPerson keeps the names distinct. A failure changes nothing. A success replaces exactly the target's position. |
| Roster.EduDex.constructor | src/main/java/seedu/edudex/model/EduDex.java:31-36 | A new EduDex has no persons and no subjects. |
| Roster.EduDex.ResetData | src/main/java/seedu/edudex/model/EduDex.java:67-72 | Both lists become the other book's: the same person objects and the same subjects. |
| Roster.EduDex.HasSubject | src/main/java/seedu/edudex/model/EduDex.java:79-82 | True exactly when a stored subject has the same name. |
| Roster.EduDex.AddSubject | src/main/java/seedu/edudex/model/EduDex.java:88-90 | A duplicate is refused and nothing changes. Otherwise the subject is appended. The persons are untouched. |
| Roster.EduDex.SetSubject | src/main/java/seedu/edudex/model/EduDex.java:97-101 | Replaces the target subject as the unique subject list does. The persons are untouched. |
| Roster.EduDex.RemoveSubject | src/main/java/seedu/edudex/model/EduDex.java:107-109 | Deletes the subject or reports that it is missing. The persons, and their lessons of that subject, are untouched. |
| Roster.EduDex.HasPerson | src/main/java/seedu/edudex/model/EduDex.java:117-120 | True exactly when a stored person has the same name. |
| Roster.EduDex.AddPerson | src/main/java/seedu/edudex/model/EduDex.java:126-128 | A person whose name is already present is refused and nothing changes. Otherwise the new object is appended at the end. |
| Roster.EduDex.SetPerson | src/main/java/seedu/edudex/model/EduDex.java:135-139 | A missing target gives PersonNotFound. A new name that clashes gives DuplicatePerson. Otherwise exactly the target's position holds the edited object. |
| Roster.EduDex.Equals | src/main/java/seedu/edudex/model/EduDex.java:168-181 | Two books are equal exactly when their person values are equal position by position. Subjects are ignored. |
| Roster.EduDex.FindPersonWithLessonConflict | src/main/java/seedu/edudex/model/EduDex.java:195-212 | Returns the stored object at the first qualifying position, or None when no position qualifies. |
| SubjectLists.IndexOf | src/main/java/seedu/edudex/model/subject/UniqueSubjectList.java:59-62 | The first position holding the subject, or None exactly when it is absent. |
| SubjectLists.RemoveFirstAt | src/main/java/seedu/edudex/model/subject/UniqueSubjectList.java:75-80 | Removing a present subject deletes exactly the first position holding it and keeps the others in order. |
| SubjectLists.RemoveAtKeepsUnique | src/main/java/seedu/edudex/model/subject/UniqueSubjectList.java:75-80 | Deleting a position keeps the names unique. |
| SubjectLists.SubjectsAreUnique | src/main/java/seedu/edudex/model/subject/UniqueSubjectList.java:141-150 | The pairwise loop returns true exactly when no two subjects share a name. |
| SubjectLists.UniqueSubjectList.constructor | src/main/java/seedu/edudex/model/subject/UniqueSubjectList.java:27-29 | A new list is empty. |
| SubjectLists.UniqueSubjectList.Contains | src/main/java/seedu/edudex/model/subject/UniqueSubjectList.java:34-37 | True exactly when some element has the same name. |
| SubjectLists.UniqueSubjectList.Add | src/main/java/seedu/edudex/model/subject/UniqueSubjectList.java:43-49 | A present subject gives DuplicateSubject and changes nothing. Otherwise the subject is appended. The names stay unique. |
| SubjectLists.UniqueSubjectList.SetSubject | src/main/java/seedu/edudex/model/subject/UniqueSubjectList.java:56-69 | A missing target gives SubjectNotFound. A renamed subject that clashes gives DuplicateSubject. Otherwise only the target's position changes. The names stay unique. |
| SubjectLists.UniqueSubjectList.Remove | src/main/java/seedu/edudex/model/subject/UniqueSubjectList.java:75-80 | Deletes exactly the subject's position, or gives SubjectNotFound and changes nothing. |
| SubjectLists.UniqueSubjectList.SetSubjectsFrom | src/main/java/seedu/edudex/model/subject/UniqueSubjectList.java:82-85 | The contents become the other list's contents. |
| SubjectLists.UniqueSubjectList.SetSubjects | src/main/java/seedu/edudex/model/subject/UniqueSubjectList.java:91-98 | A list with a repeated name gives DuplicateSubject and changes nothing. Otherwise the contents become exactly that list, in order. |
| Views.NewSubjectFilter | src/main/java/seedu/edudex/model/person/SubjectMatchesPredicate.java:12-14 | The subject predicate stores its keyword trimmed. |
| Views.FilterPersons | src/main/java/seedu/edudex/model/ModelManager.java:193-198 | The filtered list holds each admitted person as often as the roster does, and no other person. |
| Views.FilterMembership | src/main/java/seedu/edudex/model/ModelManager.java:193-198 | A person is in the filtered list exactly when stored and admitted by the predicate. |
| Views.NoLessonsNeverMatch | src/main/java/seedu/edudex/model/person/DayMatchesPredicate.java:28-35 | A person without lessons matches neither a day predicate nor a subject predicate (the same test is at SubjectMatchesPredicate.java:17-25). |
| Views.DayMatchesIsDayEquality | src/main/java/seedu/edudex/model/person/DayMatchesPredicate.java:28-35 | Comparing day names ignoring case is the same as having some lesson on exactly that day. |
| Views.DayMatchesOnlyDays | src/main/java/seedu/edudex/model/person/DayMatchesPredicate.java:33-34 | The day test depends on the lessons' days only. Subjects, times and identity are irrelevant. |
| Views.SubjectFilterIgnoresPadding | src/main/java/seedu/edudex/model/person/SubjectMatchesPredicate.java:12-14 | Keywords that differ only in surrounding whitespace give the same predicate. |
| Views.SameFilterAgrees | src/main/java/seedu/edudex/model/person/SubjectMatchesPredicate.java:27-32 | Predicates that are equal admit the same persons. A subject keyword is compared ignoring case both in equals and in test. The day version is at DayMatchesPredicate.java:44-49. |
| Views.SameFilterEquivalence | src/main/java/seedu/edudex/model/person/SubjectMatchesPredicate.java:27-32 | Predicate equality is reflexive, symmetric and transitive. |
| Views.SortLessons | src/main/java/seedu/edudex/model/ModelManager.java:237-243 | The sorted lessons are a permutation of the originals, ordered by (day ordinal, start time). |
| Views.SortLessonsStable | src/main/java/seedu/edudex/model/ModelManager.java:238-242 | Lessons with the same day and start keep their relative order. |
| Views.SortLessonsOfSorted | src/main/java/seedu/edudex/model/ModelManager.java:238-242 | An already ordered lesson list is left as it is. |
| Views.CompareIsKeyOrder | src/main/java/seedu/edudex/model/person/SubjectComparator.java:11-28 | compare is the lexicographic order of a key. The key ranks no lessons last; otherwise it is the first lesson's (day ordinal, start time). |
| Views.CompareCases | src/main/java/seedu/edudex/model/person/SubjectComparator.java:13-27 | Two persons without lessons compare equal. A person without lessons compares after one with lessons. Otherwise only the first lessons' days and starts decide. |
| Views.CompareFirstLessonOnly | src/main/java/seedu/edudex/model/person/SubjectComparator.java:21-27 | End times, subjects and later lessons never affect the comparison. |
| Views.CompareAntisymmetric | src/main/java/seedu/edudex/model/person/SubjectComparator.java:11-28 | Swapping the arguments negates the result. |
| Views.CompareTransitive | src/main/java/seedu/edudex/model/person/SubjectComparator.java:11-28 | The order "not after" is transitive. |
| Views.SortPersons | src/main/java/seedu/edudex/model/ModelManager.java:206-211 | The sorted list is a permutation of the filtered list. |
| Views.SortPersonsOrdered | src/main/java/seedu/edudex/model/ModelManager.java:206-211 | In the sorted list no person compares after a later one. |
| Views.LessonsOf | src/main/java/seedu/edudex/model/ModelManager.java:270-271 | The kept lessons are exactly those whose subject isSameSubject the target, each as often as in the original. |
| Views.TrimmedCopyContents | src/main/java/seedu/edudex/model/ModelManager.java:267-278 | The copy keeps the identity. It holds exactly the lessons whose subject name equals the keyword case-sensitively, each as often as originally, ordered by day and start. |
| Views.DropEmpty | src/main/java/seedu/edudex/model/ModelManager.java:279 | The persons left are exactly those that still have lessons. |
| Views.TrimmedView | src/main/java/seedu/edudex/model/ModelManager.java:267-280 | The trimmed list is no longer than the filtered list, and every entry has lessons. |
| Views.TrimmedViewMembers | src/main/java/seedu/edudex/model/ModelManager.java:267-283 | The trimmed list holds exactly the non-empty trimmed copies of the filtered persons. |
| Views.TrimmedViewSubjects | src/main/java/seedu/edudex/model/ModelManager.java:265-276 | Every lesson shown in the trimmed list has exactly the keyword as its subject name. |
| Views.TrimmedCopyEmptyIff | src/main/java/seedu/edudex/model/ModelManager.java:279 | A person drops out of the trimmed list exactly when they teach no lesson of that exact subject. |
| Models.ShownPlainMembers | src/main/java/seedu/edudex/model/ModelManager.java:189-191 | Outside the subject view, the displayed list is a permutation of the filtered persons. |
| Models.FilterReplaced | src/main/java/seedu/edudex/model/ModelManager.java:194-198 | A new predicate replaces the old one rather than composing with it, and it leaves the subject view. |
| Models.TrimmedViewIffLastCall | src/main/java/seedu/edudex/model/ModelManager.java:189-211 | The display is the trimmed copies after sortLessonsForEachPersonBySubject. After updateFilteredPersonList or sortFilteredPersonList it is the plain list again. |
| Models.MatchesIgnoresLessonOrder | src/main/java/seedu/edudex/model/person/DayMatchesPredicate.java:28-35 | Reordering a person's lessons never changes whether a predicate admits them. |
| Models.SortMatchingLessonsSpec | src/main/java/seedu/edudex/model/ModelManager.java:236-244 | The person sequence and every identity stay. Each admitted person's lessons become a sorted permutation. Every other person is unchanged. |
| Models.SortMatchingLessonsIdempotent | src/main/java/seedu/edudex/model/ModelManager.java:236-244 | Sorting the lessons a second time changes nothing. |
| Models.SortMatchingKeepsNamesDistinct | src/main/java/seedu/edudex/model/ModelManager.java:236-244 | Sorting lessons keeps the roster's names distinct. |
| Models.TrimmedViewKeepsRoster | src/main/java/seedu/edudex/model/ModelManager.java:261-284 | The trimmed view changes no stored person, no subject and not the predicate. Every displayed entry is the non-empty trimmed copy of some filtered person. |
| Models.AddPersonStateSpec | src/main/java/seedu/edudex/model/ModelManager.java:117-120 | addPerson appends a new name and then shows everyone. A duplicate name changes nothing. |
| Models.FilterAll | src/main/java/seedu/edudex/model/Model.java:17 | The show-all predicate admits everyone, in roster order. |
| Models.ModelManager.constructor | src/main/java/seedu/edudex/model/ModelManager.java:41-52 | The new manager's EduDex is fresh and holds the source's person objects and subjects. The view starts by showing everyone, unsorted and outside subject view. |
| Models.ModelManager.Empty | src/main/java/seedu/edudex/model/ModelManager.java:54-56 | The no-argument manager starts with an empty roster and subject list. |
| Models.ModelManager.FilteredPersonList | src/main/java/seedu/edudex/model/ModelManager.java:189-191 | In subject view the list is the trimmed copies. Otherwise it holds exactly the stored persons the predicate admits. |
| Models.ModelManager.UpdateFilteredPersonList | src/main/java/seedu/edudex/model/ModelManager.java:194-198 | The predicate is replaced and the subject view is left. Nothing else changes. |
| Models.ModelManager.SortFilteredPersonList | src/main/java/seedu/edudex/model/ModelManager.java:207-211 | The comparator is installed and the subject view is left. Nothing else changes. |
| Models.ModelManager.SortLessonsForEachPerson | src/main/java/seedu/edudex/model/ModelManager.java:236-244 | Each admitted person's lesson list is replaced in place by its sorted version. This is the stored-state change that SortMatchingLessonsSpec describes. |
| Models.ModelManager.SortLessonsForEachPersonBySubject | src/main/java/seedu/edudex/model/ModelManager.java:261-284 | The display becomes the trimmed copies of the filtered persons and the subject view is entered. No stored person is touched. |
| Models.ModelManager.AddPerson | src/main/java/seedu/edudex/model/ModelManager.java:117-120 | Stores the person as EduDex.addPerson does, then shows everyone. |
| Models.ModelManager.SetPerson | src/main/java/seedu/edudex/model/ModelManager.java:123-127 | Replaces the target as EduDex.setPerson does. The view is untouched. |
| Models.ModelManager.HasSubject | src/main/java/seedu/edudex/model/ModelManager.java:130-133 | True exactly when a stored subject has the same name. |
| Models.ModelManager.AddSubject | src/main/java/seedu/edudex/model/ModelManager.java:141-144 | Adds the subject as EduDex.addSubject does. The persons and the person view are untouched. |
| Models.ModelManager.DeleteSubject | src/main/java/seedu/edudex/model/ModelManager.java:136-138 | Removes the subject as EduDex.removeSubject does. The persons and the person view are untouched. |
| Models.ModelManager.FindPersonWithLessonConflict | src/main/java/seedu/edudex/model/ModelManager.java:162-166 | Returns the roster's first qualifying person, as EduDex does, and changes nothing. |
| Descriptors.MergeLessonFields | src/main/java/seedu/edudex/logic/commands/EditLessonCommand.java:122-125 | Each merged field is the descriptor's when set and the original's otherwise. An empty descriptor changes nothing, and merging twice is the same as merging once. |
| Descriptors.MergeFullEdit | src/main/java/seedu/edudex/logic/commands/EditLessonCommand.java:122-125 | A descriptor that sets all four fields yields the same lesson whatever the original. |
| Descriptors.EditLessonDescriptor.constructor | src/main/java/seedu/edudex/logic/parser/EditLessonDescriptor.java:17 | A new descriptor has no field set. |
| Descriptors.EditLessonDescriptor.Copy | src/main/java/seedu/edudex/logic/parser/EditLessonDescriptor.java:19-24 | The copy is a new descriptor with the same four fields. |
| Descriptors.EditLessonDescriptor.IsAnyFieldEdited | src/main/java/seedu/edudex/logic/parser/EditLessonDescriptor.java:29-31 | True exactly when at least one of the four fields is set. |
| Descriptors.EditLessonDescriptor.SetSubject | src/main/java/seedu/edudex/logic/parser/EditLessonDescriptor.java:33-35 | Only the subject field changes. |
| Descriptors.EditLessonDescriptor.SetDay | src/main/java/seedu/edudex/logic/parser/EditLessonDescriptor.java:36-38 | Only the day field changes. |
| Descriptors.EditLessonDescriptor.SetStartTime | src/main/java/seedu/edudex/logic/parser/EditLessonDescriptor.java:39-41 | Only the start field changes. |
| Descriptors.EditLessonDescriptor.SetEndTime | src/main/java/seedu/edudex/logic/parser/EditLessonDescriptor.java:42-44 | Only the end field changes. |
| Descriptors.EditLessonDescriptor.Equals | src/main/java/seedu/edudex/logic/parser/EditLessonDescriptor.java:59-75 | Two descriptors are equal exactly when all four fields are equal. |
| Descriptors.LessonOnlyIsNotEdited | src/main/java/seedu/edudex/logic/commands/EditCommand.java:274-276 | A person descriptor that holds only a lesson index and a lesson edit counts as editing no field. |
| Descriptors.EditedPersonSpec | src/main/java/seedu/edudex/logic/commands/EditCommand.java:194-207 | The edited person keeps the lessons. It is the same person exactly when no new name is given, or the new name is the old one. An empty edit gives the person back. |
| LessonCommands.Commit | src/main/java/seedu/edudex/logic/commands/EditLessonCommand.java:88-89 | A replacement that setPerson accepts is followed by the show-all filter; a refused one changes nothing. |
| LessonCommands.AddLesson | src/main/java/seedu/edudex/logic/commands/AddLessonCommand.java:61-86 | The add follows the code's order: it checks the index, then that the subject is taught, then replaces the person by a copy with the lesson appended. It keeps the model valid. |
| LessonCommands.WithLessonAdded | src/main/java/seedu/edudex/logic/commands/AddLessonCommand.java:77-79 | The copy is a new object with the same identity and the old lessons followed by the new one. |
| LessonCommands.AddLessonEffect | src/main/java/seedu/edudex/logic/commands/AddLessonCommand.java:61-86 | A failed add changes nothing. A successful one replaces exactly the displayed person's stored entry by the copy with the lesson appended. Names stay distinct; the view and the subjects are untouched. |
| LessonCommands.AddLessonPlainSucceeds | src/main/java/seedu/edudex/logic/commands/AddLessonCommand.java:65-80 | Outside the subject view, a valid index and a taught subject always succeed, and the stored person gains the lesson at the end of its list. |
| LessonCommands.SubjectViewAddNotFound | src/main/java/seedu/edudex/logic/commands/AddLessonCommand.java:77-80 | In the subject view, a displayed trimmed copy that is not itself stored is not found by setPerson; the add fails and changes nothing. |
| LessonCommands.TrimmedCopyNotStored | src/main/java/seedu/edudex/model/ModelManager.java:261-284 | The trimmed copy of a student who also has a lesson of another subject is never a stored value. |
| LessonCommands.TrimmedCopyDiffers | src/main/java/seedu/edudex/model/ModelManager.java:261-284 | The trimmed copy keeps the identity but differs from the person once a lesson of another subject is dropped. |
| LessonCommands.SameIdentityNotStored | src/main/java/seedu/edudex/model/person/Person.java:126-133 | With distinct names, no stored value other than the person itself has its identity. |
| LessonCommands.AddLessonChecked | src/main/java/seedu/edudex/logic/commands/AddLessonCommand.java:61-86 | The corrected add checks the index and the subject, then refuses a clash with the student's own lessons, then a clash with another student's, and otherwise adds as before. It keeps the model valid. |
| LessonCommands.AddLessonCheckedKeepsConflictFree | src/main/java/seedu/edudex/logic/commands/AddLessonCommand.java:75-80 | The corrected add keeps every stored student's lessons free of clashes. |
| LessonCommands.AddLessonAllowsSelfConflict | src/main/java/seedu/edudex/logic/commands/AddLessonCommand.java:75-80 | As written, the add accepts Monday 10:30-11:30 Math beside Monday 10:00-12:00 Math, leaving a clash; the corrected add refuses it with a self-conflict error naming the existing lesson. |
| LessonCommands.EditedPersonWithLessonSpec | src/main/java/seedu/edudex/logic/commands/EditLessonCommand.java:106-163 | The edit succeeds exactly when the lesson index is valid and the merged lesson is taught, starts before it ends, can be rendered by toString (which the Lesson constructor calls), clashes with no other lesson of the student and with no other student. On success the identity and length stay, only lesson i changes, and a clash-free list stays clash-free. |
| LessonCommands.EditSkipsEditedLesson | src/main/java/seedu/edudex/logic/commands/EditLessonCommand.java:137-142 | Saving a lesson unchanged is never reported as a clash with itself. |
| LessonCommands.CreateEditedPersonWithLesson | src/main/java/seedu/edudex/logic/commands/EditLessonCommand.java:106-163 | The method returns the same error as `EditedPersonWithLesson`, or a new person equal to its result. |
| LessonCommands.WithLessonReplaced | src/main/java/seedu/edudex/logic/commands/EditLessonCommand.java:151-162 | The new person has the same identity and the lesson list with only position i replaced. |
| LessonCommands.EditLesson | src/main/java/seedu/edudex/logic/commands/EditLessonCommand.java:70-94 | The lesson edit checks the person index, builds the edited person, replaces it and then shows everyone. It keeps the model valid. |
| LessonCommands.EditLessonEffect | src/main/java/seedu/edudex/logic/commands/EditLessonCommand.java:70-94 | A failed lesson edit changes nothing. A successful one replaces the displayed person's stored entry by the edited person and shows everyone. Names stay distinct and the subjects are untouched. |
| LessonCommands.EditLessonKeepsConflictFree | src/main/java/seedu/edudex/logic/commands/EditLessonCommand.java:137-149 | Lesson edits keep every stored student's lessons free of clashes. |
| LessonCommands.BuildEditedPerson | src/main/java/seedu/edudex/logic/commands/EditCommand.java:107-116 | The method returns the lesson branch's error, or a new person equal to the one the command specifies. |
| LessonCommands.Edit | src/main/java/seedu/edudex/logic/commands/EditCommand.java:95-129 | The edit checks the index, builds the person, refuses a new name held by another student, then replaces the person and shows everyone. It keeps the model valid. |
| LessonCommands.EditLessonBranchAgrees | src/main/java/seedu/edudex/logic/commands/EditCommand.java:107-112 | With both a lesson index and a lesson edit, the edit command gives the same outcome and state as the lesson edit command. |
| LessonCommands.EditFieldsBranch | src/main/java/seedu/edudex/logic/commands/EditCommand.java:113-127 | Without a full lesson part, the edit fails with DuplicatePerson exactly when the new identity is another stored student's. It changes nothing on failure; on success it replaces one entry with the new identity and keeps the lessons. Names stay distinct. |
| LessonCommands.WithLessonRemoved | src/main/java/seedu/edudex/logic/commands/DeleteLessonCommand.java:63-76 | The new person has the same identity and the lessons without the indexed one, in order. |
| LessonCommands.DeleteLesson | src/main/java/seedu/edudex/logic/commands/DeleteLessonCommand.java:53-84 | The delete checks the student index, then the lesson index, then replaces the student and reports the deleted lesson's subject. It keeps the model valid. |
| LessonCommands.DeleteLessonEffect | src/main/java/seedu/edudex/logic/commands/DeleteLessonCommand.java:53-84 | A failed delete changes nothing. A successful one removes exactly one occurrence of the indexed lesson from one stored entry and reports its subject. Names stay distinct; the view and the subjects are untouched. |
| LessonCommands.DeleteKeepsNoSelfConflict | src/main/java/seedu/edudex/logic/commands/DeleteLessonCommand.java:69 | Removing a lesson never creates a clash. |
| LessonCommands.AddLessonShowAll | src/main/java/seedu/edudex/logic/commands/AddLessonCommand.java:61-86 | In the unsorted show-all view, an add lands at the stored position with that index, and names stay distinct. |
| LessonCommands.DeleteLessonShowAll | src/main/java/seedu/edudex/logic/commands/DeleteLessonCommand.java:53-84 | In the unsorted show-all view, a delete removes the lesson from the stored entry at that index. |
| LessonCommands.AddThenDeleteRestores | src/main/java/seedu/edudex/logic/commands/DeleteLessonCommand.java:53-84 | In the unsorted show-all view, deleting the lesson just added gives back the original model and reports the added lesson's subject. |
| LessonCommands.DeleteAppendedShowAll | src/main/java/seedu/edudex/logic/commands/DeleteLessonCommand.java:65-76 | Deleting the last lesson of a student who just gained it restores the model. |
| LessonCommands.AppendKeepsNoSelfConflict | src/main/java/seedu/edudex/model/person/Person.java:109-111 | Appending a lesson that clashes with none of a clash-free list keeps it clash-free. |
| LessonCommands.RemoveAppended | src/main/java/seedu/edudex/model/person/Person.java:109-111 | Removing the lesson just appended gives the person back. |
| SubjectCommands.AddSubject | src/main/java/seedu/edudex/logic/commands/AddSubjectCommand.java:36-45 | A same-named subject is refused before anything changes; otherwise the subject is added. It keeps the model valid. |
| SubjectCommands.AddSubjectEffect | src/main/java/seedu/edudex/logic/commands/AddSubjectCommand.java:36-45 | DuplicateSubject is returned exactly when a same-named subject exists, and then nothing changes. Otherwise exactly that subject is appended. Names stay unique and no person or view setting changes. |
| SubjectCommands.DeleteSubject | src/main/java/seedu/edudex/logic/commands/DeleteSubjectCommand.java:35-46 | An index past the subject list is refused; otherwise the subject at that index is deleted and reported. It keeps the model valid. |
| SubjectCommands.IndexOfUnique | src/main/java/seedu/edudex/model/subject/UniqueSubjectList.java:75-80 | With unique names, the first position holding a stored subject is its own. |
| SubjectCommands.DeleteSubjectEffect | src/main/java/seedu/edudex/logic/commands/DeleteSubjectCommand.java:35-46 | The delete fails exactly when the index is past the list, and then changes nothing. Otherwise it removes and reports the subject at that position, keeps the others in order and leaves no subject of that name. Persons, including their lessons of that subject, are untouched. |
| FindCommands.Execute | src/main/java/seedu/edudex/logic/commands/FindCommand.java:83-109 | The method does what FindSpec describes for each mode. It keeps the model valid. |
| FindCommands.FindEqualsEquivalence | src/main/java/seedu/edudex/logic/commands/FindCommand.java:112-126 | Command equality is reflexive, symmetric and transitive, and never relates commands of different modes. |
| FindCommands.EqualCommandsAgree | src/main/java/seedu/edudex/logic/commands/FindCommand.java:112-126 | Equal name or day commands give the same outcome and state on every model. |
| FindCommands.EqualSubjectCommandsMayDiffer | src/main/java/seedu/edudex/logic/commands/FindCommand.java:92-99 | Example: subject commands compare equal ignoring case, but the subject check is case-sensitive: with only "Math" taught, "math" fails where "Math" succeeds. |
| FindCommands.ShownDependsOnView | src/main/java/seedu/edudex/model/ModelManager.java:189-191 | The displayed list depends only on the stored persons and the view settings. |
| FindCommands.FindNeverAccumulates | src/main/java/seedu/edudex/logic/commands/FindCommand.java:83-109 | A search's outcome, stored persons and displayed list do not depend on the predicate or trimmed view left by earlier commands. Outside name mode they do not depend on the comparator either. |
| FindCommands.FilterAfterSortingLessons | src/main/java/seedu/edudex/model/ModelManager.java:236-244 | Sorting the admitted persons' lessons does not change how many persons the predicate admits. |
| FindCommands.AdmittedHaveSortedLessons | src/main/java/seedu/edudex/model/ModelManager.java:236-244 | After the lesson sort, every person the predicate admits has its lessons sorted by day and start time. |
| FindCommands.FindByDayState | src/main/java/seedu/edudex/logic/commands/FindCommand.java:87-91 | A day search only sorts the lessons of the stored persons with a lesson that day, and displays exactly those persons. The model lists them in comparator order of their re-sorted lessons, an order the Java list does not always show (see "Left out"). |
| FindCommands.FindByDayCount | src/main/java/seedu/edudex/logic/commands/FindCommand.java:106-108 | A day search reports the number of stored persons with a lesson on that day. |
| FindCommands.FindByDayMembers | src/main/java/seedu/edudex/logic/commands/FindCommand.java:87-91 | After a day search, a person is displayed exactly when stored and having a lesson on that day. |
| FindCommands.FindByDayLessonsSorted | src/main/java/seedu/edudex/logic/commands/FindCommand.java:87-91 | After a day search, every displayed person has its lessons sorted by day and start time. |
| FindCommands.FindByDayOrdered | src/main/java/seedu/edudex/logic/commands/FindCommand.java:87-91 | After a day search, the displayed list of the model is in comparator order of the re-sorted lessons. |
| FindCommands.FindBySubjectSpec | src/main/java/seedu/edudex/logic/commands/FindCommand.java:92-99 | An untaught subject fails, and changes nothing, exactly when no stored subject has that name. Otherwise no stored person changes, the count is the list's length, and the list is the trimmed copies, each of whose lessons has exactly that subject name. |
| FindCommands.FindByNameSpec | src/main/java/seedu/edudex/logic/commands/FindCommand.java:100-103 | A name search keeps the stored persons and the comparator. It displays exactly the stored persons some word of whose name equals a keyword ignoring case, and reports their number. |
| ParserUtil.ParseIndex | src/main/java/seedu/edudex/logic/parser/ParserUtil.java:34-40 | An index is accepted exactly when the trimmed text is a non-zero unsigned integer; its value is then one less than the number, below Integer.MAX_VALUE. Every other text gives the invalid-index error. |
| ParserUtil.ParseIndexOfText | src/main/java/seedu/edudex/logic/parser/ParserUtil.java:34-40 | The decimal text of every one-based index, up to Integer.MAX_VALUE, parses back to that index. |
| ParserUtil.ParseIndexRoundTrip | src/main/java/seedu/edudex/logic/parser/ParserUtil.java:34-40 | The decimal text of an index parses back to it whatever whitespace surrounds it. |
| ParserUtil.ParseIndexCanonical | src/main/java/seedu/edudex/logic/parser/ParserUtil.java:34-40 | Every accepted text denotes the same index as that index's own decimal text. |
| ParserUtil.ParseIndexRejectsSigns | src/main/java/seedu/edudex/logic/parser/ParserUtil.java:36-38 | Example: "0", "+1" and "-1" are rejected. |
| ParserUtil.ParseIndexLeadingZeros | src/main/java/seedu/edudex/logic/parser/ParserUtil.java:36-39 | Example: leading zeros are accepted: "007" is the seventh entry. |
| ParserUtil.ParseIndexRejectsOverflow | src/main/java/seedu/edudex/logic/parser/ParserUtil.java:36-38 | A number of eleven or more digits, without a leading zero, is past Integer.MAX_VALUE and is rejected. |
| ParserUtil.ParseIndexTrimInsensitive | src/main/java/seedu/edudex/logic/parser/ParserUtil.java:35 | Surrounding whitespace never changes the result. |
| ParserUtil.ParseName | src/main/java/seedu/edudex/logic/parser/ParserUtil.java:48-55 | A name is accepted exactly when its whitespace-normalised form passes the name validator, and is that form. Otherwise the name constraint error is reported. |
| ParserUtil.ParseNameNormalized | src/main/java/seedu/edudex/logic/parser/ParserUtil.java:50-54 | An accepted name has no leading, trailing or doubled whitespace and parses to itself. |
| ParserUtil.ParseTag | src/main/java/seedu/edudex/logic/parser/ParserUtil.java:108-115 | A tag is accepted exactly when its trimmed text passes the tag validator, and is then trimmed. Otherwise the tag constraint error is reported. |
| ParserUtil.ParsedTags | src/main/java/seedu/edudex/logic/parser/ParserUtil.java:123-125 | Each tag text is parsed on its own, in order. |
| ParserUtil.ParseTags | src/main/java/seedu/edudex/logic/parser/ParserUtil.java:120-127 | The loop builds the set that the first-error-wins fold over the tags describes. |
| ParserUtil.GatherKeepsEach | src/main/java/seedu/edudex/logic/parser/ParserUtil.java:123-125 | When every tag parses, each parsed tag is in the set. |
| ParserUtil.GatherOnlyParsed | src/main/java/seedu/edudex/logic/parser/ParserUtil.java:123-125 | Every tag in the set was parsed from some input. |
| ParserUtil.GatherSize | src/main/java/seedu/edudex/logic/parser/ParserUtil.java:121-126 | The set has no more tags than the input. |
| ParserUtil.GatherRejected | src/main/java/seedu/edudex/logic/parser/ParserUtil.java:123-125 | A failure carries the error of some input tag. |
| ParserUtil.TagsOfRejected | src/main/java/seedu/edudex/logic/parser/ParserUtil.java:120-127 | The tags are refused exactly when one of them is invalid, and then with the tag constraint error. |
| ParserUtil.TagsOfMembers | src/main/java/seedu/edudex/logic/parser/ParserUtil.java:120-127 | An accepted set holds exactly the parsed tags and is no larger than the input. |
| ParserUtil.RepeatedTagCollapses | src/main/java/seedu/edudex/logic/parser/ParserUtil.java:121-126 | Repeating a tag, padded or not, changes neither the set nor the error. |
| ParserUtil.ParseDay | src/main/java/seedu/edudex/logic/parser/ParserUtil.java:134-142 | As written, a day is accepted exactly when its trimmed text passes Day.isValidDay (equalsIgnoreCase with a day name); otherwise the day constraint error is reported. On ASCII text the result is the corrected parse's. |
| ParserUtil.ParseDayCorrected | src/main/java/seedu/edudex/logic/parser/ParserUtil.java:134-142 | With the corrected Day guard, a day is accepted exactly when the trimmed text's toLowerCase is a day name's lower case. The stored name is then one of the seven names, with the same toLowerCase as the input. |
| ParserUtil.DayResult | src/main/java/seedu/edudex/logic/parser/ParserUtil.java:138-141 | A refused day is the day constraint error; an accepted one is returned unchanged. |
| ParserUtil.ParseDayCorrectedCanonical | src/main/java/seedu/edudex/logic/parser/ParserUtil.java:134-142 | For the corrected parse, parsing a parsed day's name gives the same day, and two texts give the same day exactly when their trimmed texts have the same toLowerCase. |
| ParserUtil.ParseDayCanonical | src/main/java/seedu/edudex/logic/parser/ParserUtil.java:134-142 | On ASCII text the parse as written gives one of the seven names, parsing that name again gives the same day, and two texts give the same day exactly when their trimmed lower cases agree. |
| ParserUtil.ParseTime | src/main/java/seedu/edudex/logic/parser/ParserUtil.java:151-158 | A time is accepted exactly when its trimmed text reads as a time, and is that time. Otherwise the time constraint error is reported. |
| ParserUtil.ParseSubjectName | src/main/java/seedu/edudex/logic/parser/ParserUtil.java:166-173 | A subject name is accepted exactly when its whitespace-normalised form is non-empty. Otherwise the subject constraint error is reported. |
| ParserUtil.ParseSubjectNameNormalized | src/main/java/seedu/edudex/logic/parser/ParserUtil.java:166-173 | An accepted subject name is non-empty, has no leading, trailing or doubled whitespace, and parses to the same subject. |
| ParserUtil.BlankSubjectRejected | src/main/java/seedu/edudex/logic/parser/ParserUtil.java:168-171 | A blank name, such as "   ", is always rejected. |
| ParserUtil.ParseLessonAccepts | src/main/java/seedu/edudex/logic/parser/ParserUtil.java:180-192 | A lesson is accepted exactly when the four fields parse, the start is before the end and the Lesson constructor's toString does not throw. The lesson is then valid and built from the parsed fields. |
| ParserUtil.ParseLessonErrorOrder | src/main/java/seedu/edudex/logic/parser/ParserUtil.java:183-191 | The error reported is the first failing field's, in the order subject, day, start, end. Then a start not before the end is reported, and last a name that String.format cannot read. |
| CommandParsers.FindDay | src/main/java/seedu/edudex/logic/parser/FindCommandParser.java:37-43 | As written, the day branch succeeds exactly when the trimmed value passes Day.isValidDay, and then searches for a day. Otherwise the day constraint error is reported. On ASCII values it is the corrected branch. |
| CommandParsers.FindDayCorrected | src/main/java/seedu/edudex/logic/parser/FindCommandParser.java:37-43 | With the corrected Day guard, the day branch succeeds exactly when the trimmed value's toLowerCase is a day name's lower case. The day is then one of the seven names with the value's toLowerCase. |
| CommandParsers.DayBranch | src/main/java/seedu/edudex/logic/parser/FindCommandParser.java:39-42 | An empty value or a refused day is the day constraint error; otherwise the command searches for the day. |
| CommandParsers.EmptyIsNoDay | src/main/java/seedu/edudex/logic/parser/FindCommandParser.java:40 | The empty text passes neither the original nor the corrected day guard, so the emptiness test adds nothing. |
| CommandParsers.FindSubject | src/main/java/seedu/edudex/logic/parser/FindCommandParser.java:46-52 | The subject branch fails with the invalid-format error exactly when the trimmed value is empty. Otherwise it carries the predicate built from the value. |
| CommandParsers.FindBlankRefused | src/main/java/seedu/edudex/logic/parser/FindCommandParser.java:29-34 | Blank input is refused with the invalid-format error, whatever prefixes the tokenizer found. |
| CommandParsers.FindDayPrecedence | src/main/java/seedu/edudex/logic/parser/FindCommandParser.java:37-43 | A day value decides the result even when a subject is also given: a day search, or the day constraint error, as Day.isValidDay decides. For an ASCII value the day is one of the seven names and equals the value ignoring case. |
| CommandParsers.LowerStringEqualsIgnoreCase | src/main/java/seedu/edudex/logic/parser/FindCommandParser.java:40 | Texts with equal character-wise lower case are equal ignoring case. |
| CommandParsers.FindDayIgnoresRest | src/main/java/seedu/edudex/logic/parser/FindCommandParser.java:37-43 | Two inputs with the same day value parse alike, whatever else they hold. |
| CommandParsers.FindNameMode | src/main/java/seedu/edudex/logic/parser/FindCommandParser.java:54-57 | Without day or subject values, the keywords are the trimmed input split on whitespace runs. |
| CommandParsers.FindNameKeywords | src/main/java/seedu/edudex/logic/parser/FindCommandParser.java:55-57 | Name mode always yields at least one keyword, each non-empty and free of whitespace. |
| CommandParsers.PaddedJoinSplits | src/main/java/seedu/edudex/logic/parser/FindCommandParser.java:55 | Words joined by single spaces, however padded, split back into the same words. |
| CommandParsers.FindNameRoundTrip | src/main/java/seedu/edudex/logic/parser/FindCommandParser.java:26-58 | Searching for words joined by spaces, with no prefixes, gives a name search for exactly those words. |
| CommandParsers.IndexPair | src/main/java/seedu/edudex/logic/parser/EditLessonCommandParser.java:34-52 | The index pair's only error is the invalid-format error. |
| CommandParsers.IndexPairSpec | src/main/java/seedu/edudex/logic/parser/DeleteLessonCommandParser.java:15-32 | Surrounding whitespace never matters. A pair is accepted exactly when the text holds two tokens that both parse, giving their values in order. |
| CommandParsers.IndexPairRoundTrip | src/main/java/seedu/edudex/logic/parser/DeleteLessonCommandParser.java:15-32 | The texts of two one-based indices, separated by a space and padded, parse back to those two indices. |
| CommandParsers.IndexPairNeedsTwoTokens | src/main/java/seedu/edudex/logic/parser/DeleteLessonCommandParser.java:19-22 | Blank text, or any number of whitespace-free tokens other than two, however padded, is refused with the invalid-format error. |
| CommandParsers.LessonEditFrom | src/main/java/seedu/edudex/logic/parser/EditLessonParser.java:19-38 | The fields are taken in the order subject, day, start, end. The first one given that fails decides the error. Otherwise the descriptor holds exactly the given fields' values. |
| CommandParsers.LessonEditOfErrors | src/main/java/seedu/edudex/logic/parser/EditLessonParser.java:19-38 | Reading the fields can only fail with the subject, day or time constraint error. |
| CommandParsers.FillSubject | src/main/java/seedu/edudex/logic/parser/EditLessonCommandParser.java:56-59 | A given subject that fails stops with its error; otherwise only the subject field is set, to the parsed value. |
| CommandParsers.FillDay | src/main/java/seedu/edudex/logic/parser/EditLessonCommandParser.java:60-63 | A given day that fails stops with its error; otherwise only the day field is set, to the parsed value. |
| CommandParsers.FillStart | src/main/java/seedu/edudex/logic/parser/EditLessonCommandParser.java:64-67 | A given start time that fails stops with its error; otherwise only the start field is set, to the parsed value. |
| CommandParsers.FillEnd | src/main/java/seedu/edudex/logic/parser/EditLessonCommandParser.java:68-71 | A given end time that fails stops with its error; otherwise only the end field is set, to the parsed value. |
| CommandParsers.FillDescriptor | src/main/java/seedu/edudex/logic/parser/EditLessonCommandParser.java:54-71 | The setter calls fill a new descriptor. They fail exactly when reading the fields fails, with that error, and otherwise leave the descriptor the fields give. |
| CommandParsers.EditLessonFrom | src/main/java/seedu/edudex/logic/parser/EditLessonCommandParser.java:27-78 | A repeated prefix is reported first, then a bad index pair, then a field's error, then an empty edit. Otherwise the command holds the indices and the descriptor. |
| CommandParsers.ParseEditLesson | src/main/java/seedu/edudex/logic/parser/EditLessonCommandParser.java:27-78 | The parser's steps, with the descriptor built through its setters, give exactly the result of `EditLessonParse`: the checks in order, then the request. |
| CommandParsers.EditLessonParseChecks | src/main/java/seedu/edudex/logic/parser/EditLessonCommandParser.java:32-75 | The checks come in a fixed order: a repeated prefix, then a bad index pair with the invalid-format error, and only then a field's constraint error or the not-edited error. |
| CommandParsers.EditLessonParseFields | src/main/java/seedu/edudex/logic/parser/EditLessonCommandParser.java:54-77 | An accepted command carries the preamble's two indices in order and a descriptor with some field set, each given field parsed. |
| CommandParsers.EditLessonParseNotEdited | src/main/java/seedu/edudex/logic/parser/EditLessonCommandParser.java:73-75 | With a valid index pair and no prefix at all, the command is refused as editing nothing. |
| CommandParsers.EditLessonParseIndices | src/main/java/seedu/edudex/logic/parser/EditLessonCommandParser.java:34-52 | A preamble holding two one-based indices never gives the format or duplicate error, and an accepted command carries exactly those indices. |
| CommandParsers.DeleteLessonParseSpec | src/main/java/seedu/edudex/logic/parser/DeleteLessonCommandParser.java:15-32 | Padding never matters and the only error is the invalid-format one. A command is accepted exactly for two tokens that both parse, the first giving the student and the second the lesson. |
| CommandParsers.DeleteLessonParseRoundTrip | src/main/java/seedu/edudex/logic/parser/DeleteLessonCommandParser.java:15-32 | The text of a student index and a lesson index, padded, parses back to that command. |
| JavaText.TrimStart | src/main/java/seedu/edudex/logic/parser/ParserUtil.java:35 | The result is the longest suffix starting with a visible character; everything dropped is a control or space character. |
| JavaText.TrimEnd | src/main/java/seedu/edudex/logic/parser/ParserUtil.java:35 | The result is the longest prefix ending with a visible character; everything dropped is a control or space character. |
| JavaText.TrimIsTrimmed | src/main/java/seedu/edudex/logic/parser/ParserUtil.java:35 | A trimmed text has no trimmable character at either end, and trimming it again changes nothing. |
| JavaText.TrimOfTrimmed | src/main/java/seedu/edudex/logic/parser/ParserUtil.java:35 | Trimming a text without trimmable ends gives it back. |
| JavaText.TrimPadded | src/main/java/seedu/edudex/logic/parser/ParserUtil.java:35 | Padding a text with trimmable characters does not change its trimmed form. |
| JavaText.CollapseShape | src/main/java/seedu/edudex/logic/parser/ParserUtil.java:50 | After replaceAll("\\s+", " ") no two whitespace characters are adjacent. The result is empty only for the empty text and starts with whitespace exactly when the input does. |
| JavaText.NormalizeSpacesShape | src/main/java/seedu/edudex/logic/parser/ParserUtil.java:50 | A normalised text has no trimmable character at either end and no two adjacent whitespace characters. |
| JavaText.NormalizeSpacesIdempotent | src/main/java/seedu/edudex/logic/parser/ParserUtil.java:168 | Normalising twice is normalising once. |
| JavaText.PiecesFirst | src/main/java/seedu/edudex/logic/parser/FindCommandParser.java:55 | The first piece is non-empty exactly when the text starts with a non-whitespace character. |
| JavaText.PiecesInner | src/main/java/seedu/edudex/logic/parser/FindCommandParser.java:55 | The pieces between the first and the last are never empty. |
| JavaText.PiecesLast | src/main/java/seedu/edudex/logic/parser/FindCommandParser.java:55 | The last piece is non-empty exactly when the text ends with a non-whitespace character. |
| JavaText.SplitTrimmed | src/main/java/seedu/edudex/logic/parser/FindCommandParser.java:55 | Splitting a non-empty trimmed text gives only non-empty tokens without whitespace. |
| JavaText.PiecesOfJoin | src/main/java/seedu/edudex/logic/parser/FindCommandParser.java:55 | The pieces of words joined by single spaces are those words. |
| JavaText.SplitOfJoin | src/main/java/seedu/edudex/logic/parser/FindCommandParser.java:55 | split("\\s+") undoes joining a non-empty list of words with single spaces. |
| JavaText.CharsEqualIgnoreCaseAscii | src/main/java/seedu/edudex/model/person/Day.java:32 | Between ASCII characters, the per-character case-insensitive test is equality of lower case. |
| JavaText.AsciiIgnoreCaseLower | src/main/java/seedu/edudex/model/person/Day.java:32 | Between ASCII texts, equalsIgnoreCase means equal lower-case forms. |
| JavaText.EqualsIgnoreCaseReflexive | src/main/java/seedu/edudex/model/person/SubjectMatchesPredicate.java:27-32 | Every text equals itself ignoring case. |
| JavaText.EqualsIgnoreCaseSymmetric | src/main/java/seedu/edudex/model/person/SubjectMatchesPredicate.java:27-32 | Equality ignoring case is symmetric. |
| JavaText.CharsEqualIgnoreCaseFold | src/main/java/seedu/edudex/model/person/Day.java:32 | Two characters are equal ignoring case exactly when they fold to the same character. |
| JavaText.EqualsIgnoreCaseTransitive | src/main/java/seedu/edudex/model/person/SubjectMatchesPredicate.java:27-32 | Equality ignoring case is transitive, so it is an equivalence. |
| JavaText.SameLowerCharIgnoreCase | src/main/java/seedu/edudex/model/person/Day.java:32 | Two characters with the same lower case are equal ignoring case. |
| JavaText.ToLowerCaseWithoutDottedI | src/main/java/seedu/edudex/model/person/Day.java:88 | On a text without U+0130, toLowerCase is the character-by-character lower case. |
| JavaText.ToLowerCaseConcat | src/main/java/seedu/edudex/model/person/Day.java:88 | toLowerCase of a concatenation is the concatenation of the parts' toLowerCase. |
| JavaText.AsciiLowerCase | src/main/java/seedu/edudex/model/person/Day.java:43 | A text whose toLowerCase is all ASCII holds no U+0130, and its toLowerCase is the character-by-character lower case. |
| JavaText.AsciiToLowerCase | src/main/java/seedu/edudex/model/person/Day.java:88 | On ASCII text, toLowerCase is the character-by-character lower case, and it is ASCII too. |
| JavaText.DigitRun | src/main/java/seedu/edudex/model/person/Lesson.java:68 | The length of the run of digits at a position: every character in it is a digit, and the character after it is not. |
| JavaText.Justify | src/main/java/seedu/edudex/model/person/Lesson.java:68 | A justified text is as long as the width, or as the text when that is longer. |
| JavaText.FormatNoArgsPlain | src/main/java/seedu/edudex/model/person/Lesson.java:68-71 | String.format returns a text without '%' unchanged. |
| JavaText.FormatEscapedPercent | src/main/java/seedu/edudex/model/person/Lesson.java:68-71 | Doubling every '%' of a text gives a format string that String.format turns back into the text. |
| JavaText.PercentBeforeSpaceFails | src/main/java/seedu/edudex/model/person/Lesson.java:68-71 | A '%' followed by a space, with no '%' before it, makes String.format throw. |
| JavaText.NatToString | src/main/java/seedu/edudex/model/person/Person.java:88 | The decimal text of a number is non-empty and starts with a digit. |
| JavaText.NatToStringRoundTrip | src/main/java/seedu/edudex/model/person/Person.java:88 | The decimal text of a number consists of digits whose value is the number. |
| Sorting.CompareKeys | src/main/java/seedu/edudex/model/person/SubjectComparator.java:24-27 | The comparison is -1, 0 or 1 exactly as the first key is below, equal to or above the second, comparing the major part first. |
| Sorting.InsertPermutes | src/main/java/seedu/edudex/model/ModelManager.java:238-242 | Inserting adds exactly the element to the multiset. |
| Sorting.InsertSorted | src/main/java/seedu/edudex/model/ModelManager.java:238-242 | Inserting into a sorted list keeps it sorted. |
| Sorting.SortByKey | src/main/java/seedu/edudex/model/ModelManager.java:238-242 | The sorted result is a permutation of the input, ordered by the key. |
| Sorting.SortKeepsLength | src/main/java/seedu/edudex/model/ModelManager.java:238-242 | Sorting keeps the length. |
| Sorting.SortStable | src/main/java/seedu/edudex/model/ModelManager.java:238-242 | Sorting is stable: the elements with any one key keep their relative order. |
| Sorting.SortOfSorted | src/main/java/seedu/edudex/model/ModelManager.java:238-242 | Sorting an already sorted list changes nothing. |

## Left out

- `LocalTime` parsing in `Time.java`: times are minutes of the day, and `ParseTime` takes the reading of a time text as a parameter (`timeOf`). The time format is not modelled. Seconds and fractions of a second are dropped: `Time.java:24` accepts a text such as "10:00:30", `Time.java:46` prints those seconds back, and `isValidStartEndTime` compares them. The model's `TimeText` always prints "HH:mm", and two lessons that differ only in seconds are the same lesson here.
- JSON storage, `LogicManager`, `UserPrefs`, GUI settings and the JavaFX user interface: file I/O and display, outside the timetable logic.
- Message texts and `toString` formatting beyond `Lesson.toString` and `getLessonsAsString`: errors are datatype tags, not strings. `hashCode` is not modelled.
- JavaText.FormatNoArgs: `String.format` is modelled only as far as `Lesson.toString` uses it, with a format string and no arguments. "%n" is taken to be "\n" rather than the platform's line separator. A specifier with an argument index, such as "%1$%", is taken to throw. The exception that `Lesson.toString` raises is the error tag `FormatFailure`; the source lets it escape from `ParserUtil.parseLesson` and `AddLessonCommandParser`, which catch only `ParseException`, while the two edit commands catch it as an `IllegalArgumentException`.
- JavaText.UpperChar, JavaText.LowerChar, JavaText.ToLowerCase, JavaText.EqualsIgnoreCase: only the case mappings that meet ASCII are modelled. These are the ASCII letters, U+0131 and U+017F (upper case 'I' and 'S'), U+0130 (lower case 'i', and "i" followed by U+0307 under `String.toLowerCase`) and U+212A (lower case 'k'). Every other character counts as having no case, so pairs such as 'é' and 'É' that Java matches ignoring case do not match here. This affects the subject search (`SubjectMatchesPredicate`) and the equality of subject searches on non-ASCII names. The day guard and the day search are exact: every character that can pass the day guard, or appear in a stored day, has its Java case mappings modelled. The default locale is taken to be neither Turkish, Azeri nor Lithuanian.
- JavaFX `FilteredList`/`SortedList` plumbing: the displayed list is recomputed on demand from the roster and the view settings. Change notifications are not modelled.
- FindCommands.FindByDayOrdered, FindCommands.FindByDayState, LessonCommands.AddLessonSpec, LessonCommands.EditLessonSpec, LessonCommands.EditSpec, LessonCommands.DeleteLessonSpec: the model's displayed list is always sorted by each person's current first lesson. The Java `SortedList` is re-sorted when its comparator is set. A day search sets it before the lessons are rewritten in place and does not re-sort afterwards, so the Java list can stay in the order of each person's earlier first lesson. Example: A holds [Tue 10:00, Mon 09:00] and B holds [Mon 12:00]. After `find d/monday`, Java shows [B, A], the model shows [A, B]. The index commands pick their person from this list, so after such a search the model and Java can resolve the same index to different students.
- `ArgumentTokenizer`: the tokenized input is a given `ArgumentMultimap` (a preamble and the values recorded per prefix). `getValue` is the last value of a prefix, and a prefix is duplicated when it has more than one value.
- The Name, Phone, School, Address and Tag validators: regular-expression checks, taken as parameters (`isValidName`, `isValidTag`) or left inside the opaque `Identity`.
- `NameContainsKeywordsPredicate` and `StringUtil.containsWordIgnoreCase` are not part of this model. `Views.NameMatches` reads the name search as whole-word matching: a person is admitted when some whitespace-separated word of the name equals some keyword, ignoring case. A keyword that is only part of a word does not match. This is the reading FindCommandTest.java:103-134 shows ("cArL" finds Carl, "Car" finds nobody).
- `StringUtil.isNonZeroUnsignedInteger` is not part of this model. It is modelled as "only ASCII digits, and a value from 1 to Integer.MAX_VALUE", the usual reading of that helper.
- `Person.hasLessonConflict`, `FindCommand`'s `validateExistsIn` and `getSubjectKeyword` are called but not defined in the source:
  - hasLessonConflict (model `Persons.FindConflict`, `Persons.FindConflictSpec`) is the lesson at the lowest index, other than the one excluded, that conflicts with the candidate. Its callers pass three kinds of exclusion: `null` (EduDex.java:201), an `int` position (EditCommand.java:163) and an `Index` (EditLessonCommand.java:138). The model takes all three as one `Option<nat>`: `None` for `null`, and the zero-based position otherwise;
  - validateExistsIn fails unless a subject of that name is taught;
  - getSubjectKeyword is the predicate's trimmed keyword.
- `getCopyOfPerson` is called by `ModelManager` and `AddLessonCommand` but `Person` defines `makeCopyOfPerson`: the model uses the latter.
- The identity fields: `EditCommand` reads a school while `Person` holds an email. The identity fields are kept together as one opaque `Identity` record, and only its name takes part in `isSamePerson`.
- `ListCommand`, `ClearCommand`, `AddCommand` and their parsers, `AddLessonCommandParser`, `AddSubjectCommandParser`, `DeleteSubjectCommandParser`, and `removePerson`: one-line delegations to operations that are modelled, or person creation outside the timetable logic.
- `UniquePersonList` is not part of this model. The roster is a sequence, and `addPerson`/`setPerson` follow its duplicate and not-found checks (`AddPersonValue`, `SetPersonValue`).
- `ModelManager.updateSubjectList`: the subject list is always shown whole.
- The files under `src/main/java/seedu/address/`, the placeholder `model/person/Subject.java` and `SampleDataUtil`: earlier copies or code that does not compile against the modelled `Person`.

## Findings

| source | as written | input that shows it | evidently intended | confidence | as-written member | corrected member |
|---|---|---|---|---|---|---|
| src/main/java/seedu/edudex/model/person/Day.java:22-37 | `isValidDay` compares with `equalsIgnoreCase`, which also folds non-ASCII characters whose upper or lower case is ASCII; the constructor then stores `toLowerCase` of the text with the first character upper-cased. `ParserUtil.parseDay` and the `find d/` branch use this guard and constructor. | `"tueſday"` (with U+017F, long s) passes `isValidDay` and becomes the day `"Tueſday"`. `"frİday"` (with U+0130) passes and becomes `"Fri̇day"`, with a combining dot. Neither is one of the seven names, and `getNumericValue` gives 8 for both. | Every accepted day is one of the seven names and has an ordinal from 1 to 7. | not executed | Days.NewDayAsWritten, Days.LongSAcceptedAsWritten, Days.DottedCapitalIAcceptedAsWritten, ParserUtil.ParseDay, CommandParsers.FindDay | Days.NewDay, Days.NewDayOrdinal, ParserUtil.ParseDayCorrected, CommandParsers.FindDayCorrected |
| src/main/java/seedu/edudex/logic/commands/AddLessonCommand.java:75-80 | The conflict check is commented out: the lesson is appended once the index and the subject pass. | A student with Math on Monday 10:00-12:00 accepts Math on Monday 10:30-11:30. | A lesson clashing with the student's own lesson is refused, as the command's own test (`AddLessonCommandTest.java:138-182`) expects, and likewise a clash with another student. | not executed | LessonCommands.AddLessonAllowsSelfConflict | LessonCommands.AddLessonChecked, LessonCommands.AddLessonCheckedKeepsConflictFree |
