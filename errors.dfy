/**
 * Error tags standing for the exceptions the model layer throws and the
 * error messages the commands and parsers report. Message wording is not
 * modelled; a tag carries only the values a message embeds.
 */
module Errors {
  import opened Lessons

  datatype Error =
    | InvalidPersonIndex          // the displayed person index is out of range
    | InvalidLessonIndex          // the lesson index is out of range
    | InvalidSubjectIndex         // the displayed subject index is out of range
    | NoLessons                   // the student has no lesson to edit
    | SubjectNotTaught            // the lesson's subject is not in the subject list
    | SubjectNotInList            // a find by subject names a subject that is not taught
    | LessonConstraint            // the start time is not before the end time
    | FormatFailure               // Lesson.toString throws: the subject name is no valid format string
    | SelfConflict(lesson: Lesson)      // clashes with another lesson of the same student
    | CrossConflict(student: string)    // clashes with a lesson of the named student
    | DuplicatePerson
    | PersonNotFound
    | DuplicateSubject
    | SubjectNotFound
    | InvalidFormat               // the command's arguments have the wrong shape
    | InvalidIndex                // an index is not a non-zero unsigned integer
    | NameConstraint
    | TagConstraint
    | DayConstraint
    | TimeConstraint
    | SubjectConstraint
    | DuplicatePrefixes           // a single-valued prefix was given more than once
    | NotEdited                   // an edit command names no field to edit
}
