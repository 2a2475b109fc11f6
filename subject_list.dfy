/**
 * The list of taught subjects (model/subject/UniqueSubjectList.java): no
 * two elements share a name. Elements are compared by name for both
 * isSameSubject and equals, so list membership is name membership.
 */
module SubjectLists {
  import opened Wrappers
  import opened Errors
  import opened Subjects

  /** The list's invariant: no two subjects share a name. */
  predicate NamesUnique(ss: seq<Subject>) {
    forall i, j :: 0 <= i < j < |ss| ==> !IsSameSubject(ss[i], ss[j])
  }

  /** Some element is the same subject as s. */
  predicate HasSame(ss: seq<Subject>, s: Subject) {
    exists i :: 0 <= i < |ss| && IsSameSubject(ss[i], s)
  }

  /** List.indexOf: the first position holding a subject equal to s. */
  function IndexOf(ss: seq<Subject>, s: Subject): (r: Option<nat>)
    ensures r.Some? ==> r.value < |ss| && ss[r.value] == s && forall j :: 0 <= j < r.value ==> ss[j] != s
    ensures r.None? <==> s !in ss
    decreases |ss|
  {
    if ss == [] then None
    else if ss[0] == s then Some(0)
    else match IndexOf(ss[1..], s)
      case None => None
      case Some(k) => Some(k + 1)
  }

  /** List.remove(Object): drops the first element equal to s. */
  function RemoveFirst(ss: seq<Subject>, s: Subject): seq<Subject>
    decreases |ss|
  {
    if ss == [] then []
    else if ss[0] == s then ss[1..]
    else [ss[0]] + RemoveFirst(ss[1..], s)
  }

  /** Removing a present subject deletes exactly its first position. */
  lemma {:induction false} RemoveFirstAt(ss: seq<Subject>, s: Subject)
    requires s in ss
    ensures IndexOf(ss, s).Some?
    ensures var i := IndexOf(ss, s).value; RemoveFirst(ss, s) == ss[..i] + ss[i + 1..]
    decreases |ss|
  {
    if ss[0] != s {
      RemoveFirstAt(ss[1..], s);
      var k := IndexOf(ss[1..], s).value;
      assert ss[1..][..k] + ss[1..][k + 1..] == ss[1..k + 1] + ss[k + 2..];
      assert [ss[0]] + ss[1..k + 1] == ss[..k + 1];
    }
  }

  /** Deleting a position keeps the names unique. */
  lemma RemoveAtKeepsUnique(ss: seq<Subject>, i: nat)
    requires NamesUnique(ss) && i < |ss|
    ensures NamesUnique(ss[..i] + ss[i + 1..])
  {
    var r := ss[..i] + ss[i + 1..];
    forall p, q | 0 <= p < q < |r| ensures !IsSameSubject(r[p], r[q]) {
      var p', q' := if p < i then p else p + 1, if q < i then q else q + 1;
      assert r[p] == ss[p'] && r[q] == ss[q'];
    }
  }

  /**
   * subjectsAreUnique: compares every pair (i, j) with i < j, returning
   * false at the first same-named pair.
   */
  method SubjectsAreUnique(ss: seq<Subject>) returns (b: bool)
    ensures b <==> NamesUnique(ss)
  {
    var i := 0;
    while i < |ss| - 1
      invariant 0 <= i <= |ss|
      invariant forall p, q :: 0 <= p < i && p < q < |ss| ==> !IsSameSubject(ss[p], ss[q])
    {
      var j := i + 1;
      while j < |ss|
        invariant i + 1 <= j <= |ss|
        invariant forall q :: i < q < j ==> !IsSameSubject(ss[i], ss[q])
      {
        if IsSameSubject(ss[i], ss[j]) {
          return false;
        }
        j := j + 1;
      }
      i := i + 1;
    }
    return true;
  }

  class UniqueSubjectList {
    var items: seq<Subject>

    ghost predicate Valid()
      reads this
    {
      NamesUnique(items)
    }

    constructor ()
      ensures Valid() && items == []
    {
      items := [];
    }

    /** contains: anyMatch(isSameSubject), which is membership since subjects are their names. */
    function Contains(s: Subject): (r: bool)
      reads this
      ensures r <==> HasSame(items, s)
    {
      assert forall i :: 0 <= i < |items| ==> (IsSameSubject(items[i], s) <==> items[i] == s);
      s in items
    }

    /** add: a subject already present throws DuplicateSubjectException; otherwise it is appended. */
    method Add(s: Subject) returns (r: Outcome<Error>)
      requires Valid()
      modifies this
      ensures Valid()
      ensures r == (if old(Contains(s)) then Fail(DuplicateSubject) else Pass)
      ensures items == (if r.Pass? then old(items) + [s] else old(items))
    {
      if Contains(s) {
        return Fail(DuplicateSubject);
      }
      items := items + [s];
      r := Pass;
    }

    /**
     * setSubject: the target must be present (SubjectNotFoundException); a
     * renamed subject must not clash with another (DuplicateSubjectException);
     * then only the target's position is replaced.
     */
    method SetSubject(target: Subject, edited: Subject) returns (r: Outcome<Error>)
      requires Valid()
      modifies this
      ensures Valid()
      ensures var idx := IndexOf(old(items), target);
        if idx.None? then r == Fail(SubjectNotFound) && items == old(items)
        else if !IsSameSubject(target, edited) && old(Contains(edited)) then
          r == Fail(DuplicateSubject) && items == old(items)
        else r == Pass && items == old(items)[idx.value := edited]
    {
      var idx := IndexOf(items, target);
      if idx.None? {
        return Fail(SubjectNotFound);
      }
      if !IsSameSubject(target, edited) && Contains(edited) {
        return Fail(DuplicateSubject);
      }
      items := items[idx.value := edited];
      r := Pass;
    }

    /** remove: deletes the element equal to s, or throws SubjectNotFoundException. */
    method Remove(s: Subject) returns (r: Outcome<Error>)
      requires Valid()
      modifies this
      ensures Valid()
      ensures r == (if s in old(items) then Pass else Fail(SubjectNotFound))
      ensures r.Pass? ==> var i := IndexOf(old(items), s).value; items == old(items)[..i] + old(items)[i + 1..]
      ensures r.Fail? ==> items == old(items)
    {
      if s !in items {
        return Fail(SubjectNotFound);
      }
      RemoveFirstAt(items, s);
      RemoveAtKeepsUnique(items, IndexOf(items, s).value);
      items := RemoveFirst(items, s);
      r := Pass;
    }

    /** setSubjects(UniqueSubjectList): copies the other list's contents. */
    method SetSubjectsFrom(other: UniqueSubjectList)
      requires Valid() && other.Valid()
      modifies this
      ensures Valid() && items == other.items
    {
      items := other.items;
    }

    /**
     * setSubjects(List): a list with two same-named subjects throws
     * DuplicateSubjectException and changes nothing; otherwise the contents
     * become exactly that list, in order.
     */
    method SetSubjects(ss: seq<Subject>) returns (r: Outcome<Error>)
      requires Valid()
      modifies this
      ensures Valid()
      ensures r == (if NamesUnique(ss) then Pass else Fail(DuplicateSubject))
      ensures items == (if r.Pass? then ss else old(items))
    {
      var unique := SubjectsAreUnique(ss);
      if !unique {
        return Fail(DuplicateSubject);
      }
      items := ss;
      r := Pass;
    }
  }
}
