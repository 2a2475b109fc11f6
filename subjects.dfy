/** A taught subject (model/subject/Subject.java): identified by its name alone. */
module Subjects {
  import opened Wrappers

  datatype Subject = Subject(name: string)

  /** isValidSubjectName accepts every string. */
  predicate IsValidSubjectName(name: string) {
    true
  }

  /**
   * The constructor: a null name (None) is rejected; any other name is
   * accepted and stored as given, with no trimming or case change.
   */
  function NewSubject(name: Option<string>): (r: Option<Subject>)
    ensures r.Some? <==> name.Some?
    ensures r.Some? ==> r.value.name == name.value
  {
    match name
    case None => None
    case Some(n) => if IsValidSubjectName(n) then Some(Subject(n)) else None
  }

  /** isSameSubject: the names are exactly equal, case included. */
  predicate IsSameSubject(a: Subject, b: Subject) {
    a.name == b.name
  }

  /** equals coincides with isSameSubject, which is therefore an equivalence relation. */
  lemma SameSubjectIsEquality(a: Subject, b: Subject, c: Subject)
    ensures IsSameSubject(a, b) <==> a == b
    ensures IsSameSubject(a, a)
    ensures IsSameSubject(a, b) ==> IsSameSubject(b, a)
    ensures IsSameSubject(a, b) && IsSameSubject(b, c) ==> IsSameSubject(a, c)
  {
  }

  /** Names differing only in case are different subjects. */
  lemma CaseSensitive()
    ensures !IsSameSubject(Subject("Math"), Subject("math"))
  {
  }
}
