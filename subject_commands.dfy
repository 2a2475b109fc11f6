/**
 * The subject commands (logic/commands/AddSubjectCommand.java and
 * DeleteSubjectCommand.java). Neither touches a stored person: deleting a
 * subject leaves the lessons that name it as they are.
 */
module SubjectCommands {
  import opened Wrappers
  import opened Errors
  import opened Subjects
  import opened SubjectLists
  import opened Models

  /** AddSubjectCommand.execute: hasSubject, then addSubject. */
  method AddSubject(m: ModelManager, toAdd: Subject) returns (r: Outcome<Error>)
    requires m.Valid()
    modifies m.eduDex.subjects
    ensures m.Valid()
    ensures (r, m.State()) == AddSubjectState(old(m.State()), toAdd)
  {
    if m.HasSubject(toAdd) {
      return Fail(DuplicateSubject);
    }
    r := m.AddSubject(toAdd);
  }

  /**
   * A same-named subject already present is refused and nothing changes;
   * otherwise exactly that subject is appended. The names stay unique and
   * no person or view setting is touched.
   */
  lemma AddSubjectEffect(s: ModelState, toAdd: Subject)
    requires NamesUnique(s.subjects)
    ensures var (r, s') := AddSubjectState(s, toAdd);
      NamesUnique(s'.subjects) && s'.roster == s.roster && s'.view == s.view &&
      (r == Fail(DuplicateSubject) <==> HasSame(s.subjects, toAdd)) &&
      (r.Fail? ==> s' == s) &&
      (r.Pass? ==> s'.subjects == s.subjects + [toAdd] && HasSame(s'.subjects, toAdd))
  {
    var (r, s') := AddSubjectState(s, toAdd);
    if r.Pass? {
      assert IsSameSubject(s'.subjects[|s.subjects|], toAdd);
    }
  }

  /** DeleteSubjectCommand.execute: the subject at the index is deleted and reported. */
  function DeleteSubjectSpec(s: ModelState, index: nat): (Result<Subject, Error>, ModelState) {
    if index >= |s.subjects| then (Err(InvalidSubjectIndex), s)
    else
      var target := s.subjects[index];
      var (o, s1) := DeleteSubjectState(s, target);
      if o.Pass? then (Ok(target), s1) else (Err(o.error), s1)
  }

  method DeleteSubject(m: ModelManager, index: nat) returns (r: Result<Subject, Error>)
    requires m.Valid()
    modifies m.eduDex.subjects
    ensures m.Valid()
    ensures (r, m.State()) == DeleteSubjectSpec(old(m.State()), index)
  {
    var lastShown := m.eduDex.Subjects();
    if index >= |lastShown| {
      return Err(InvalidSubjectIndex);
    }
    var subjectToDelete := lastShown[index];
    var o := m.DeleteSubject(subjectToDelete);
    if o.Fail? {
      return Err(o.error);
    }
    return Ok(subjectToDelete);
  }

  /** With unique names, the first position holding a stored subject is its own. */
  lemma IndexOfUnique(ss: seq<Subject>, i: nat)
    requires NamesUnique(ss) && i < |ss|
    ensures IndexOf(ss, ss[i]) == Some(i)
  {
    var k := IndexOf(ss, ss[i]).value;
    if k < i {
      assert IsSameSubject(ss[k], ss[i]);
    }
  }

  /**
   * An index past the list fails and changes nothing; otherwise exactly
   * the subject at that position is removed and reported, the others keep
   * their order, no subject of that name is left, and the persons (with
   * any lessons of that subject) are untouched.
   */
  lemma DeleteSubjectEffect(s: ModelState, index: nat)
    requires NamesUnique(s.subjects)
    ensures var (r, s') := DeleteSubjectSpec(s, index);
      s'.roster == s.roster && s'.view == s.view && NamesUnique(s'.subjects) &&
      (r.Err? <==> index >= |s.subjects|) &&
      (r.Err? ==> r.error == InvalidSubjectIndex && s' == s) &&
      (r.Ok? ==> (r.value == s.subjects[index] &&
        s'.subjects == s.subjects[..index] + s.subjects[index + 1..] &&
        !HasSame(s'.subjects, r.value)))
  {
    if index < |s.subjects| {
      var ss := s.subjects;
      var target := ss[index];
      IndexOfUnique(ss, index);
      RemoveFirstAt(ss, target);
      RemoveAtKeepsUnique(ss, index);
      var rest := ss[..index] + ss[index + 1..];
      forall j | 0 <= j < |rest| ensures !IsSameSubject(rest[j], target) {
        if j < index {
          assert rest[j] == ss[j];
        } else {
          assert rest[j] == ss[j + 1];
        }
      }
    }
  }
}
