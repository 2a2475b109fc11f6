/**
 * ParserUtil (logic/parser/ParserUtil.java): the string-normalising
 * parsers for indices, names, tags, days, times, subject names and
 * lessons. Every failure is the error tag of the message the parser throws.
 *
 * The regular-expression validators of names and tags are not part of this
 * model and are parameters; so is the time parser, standing for
 * Time.isValidTime and the Time constructor on the trimmed text.
 */
module ParserUtil {
  import opened Wrappers
  import opened JavaText
  import opened Errors
  import opened Subjects
  import opened Days
  import opened Lessons

  // ------------------------------------------------------------- indices

  /** Integer.MAX_VALUE. */
  const MaxInt: int := 0x7fff_ffff

  predicate AllDigits(s: string) {
    forall k :: 0 <= k < |s| ==> IsDigit(s[k])
  }

  /**
   * StringUtil.isNonZeroUnsignedInteger: Integer.parseInt succeeds, the
   * value is positive and there is no leading '+'. That is a non-empty run
   * of decimal digits, leading zeros allowed, whose value fits in an int.
   */
  predicate IsNonZeroUnsignedInteger(s: string) {
    s != [] && AllDigits(s) && 0 < DigitsValue(s) <= MaxInt
  }

  /**
   * parseIndex: the trimmed text must be a non-zero unsigned integer; the
   * one-based value becomes a zero-based index (Index.fromOneBased).
   */
  function ParseIndex(s: string): (r: Result<nat, Error>)
    ensures r.Ok? <==> IsNonZeroUnsignedInteger(Trim(s))
    ensures r.Err? ==> r.error == InvalidIndex
    ensures r.Ok? ==> r.value < MaxInt
  {
    var t := Trim(s);
    if IsNonZeroUnsignedInteger(t) then Ok(DigitsValue(t) - 1) else Err(InvalidIndex)
  }

  /** Decimal digits are visible characters, so a rendered number is trimmed. */
  lemma NatToStringTrimmed(n: nat)
    ensures IsTrimmed(NatToString(n)) && NoRegexSpace(NatToString(n)) && NatToString(n) != ""
  {
    NatToStringRoundTrip(n);
  }

  /** The one-based decimal text of a zero-based index parses back to it. */
  lemma ParseIndexOfText(n: nat)
    requires n < MaxInt
    ensures ParseIndex(NatToString(n + 1)) == Ok(n)
  {
    var t := NatToString(n + 1);
    NatToStringTrimmed(n + 1);
    TrimOfTrimmed(t);
    NatToStringRoundTrip(n + 1);
  }

  /**
   * Every zero-based index survives the round trip through its one-based
   * decimal text, whatever whitespace surrounds it.
   */
  lemma ParseIndexRoundTrip(p: string, n: nat, q: string)
    requires IsBlank(p) && IsBlank(q) && n < MaxInt
    ensures ParseIndex(p + NatToString(n + 1) + q) == Ok(n)
  {
    ParseIndexTrimInsensitive(p, NatToString(n + 1), q);
    ParseIndexOfText(n);
  }

  /** An accepted index text always denotes the index whose canonical text it is. */
  lemma ParseIndexCanonical(s: string)
    requires ParseIndex(s).Ok?
    ensures ParseIndex(NatToString(ParseIndex(s).value + 1)) == ParseIndex(s)
  {
    ParseIndexOfText(ParseIndex(s).value);
  }

  /** Zero, a leading '+' and a sign are rejected. */
  lemma ParseIndexRejectsSigns()
    ensures ParseIndex("0") == Err(InvalidIndex)
    ensures ParseIndex("+1") == Err(InvalidIndex)
    ensures ParseIndex("-1") == Err(InvalidIndex)
  {
    assert Trim("0") == "0" by { TrimOfTrimmed("0"); }
    assert Trim("+1") == "+1" by { TrimOfTrimmed("+1"); }
    assert !IsDigit("+1"[0]);
    assert Trim("-1") == "-1" by { TrimOfTrimmed("-1"); }
    assert !IsDigit("-1"[0]);
  }

  /** Leading zeros are accepted: "007" is the seventh item. */
  lemma ParseIndexLeadingZeros()
    ensures ParseIndex("007") == Ok(6)
  {
    var t := "007";
    assert DigitsValue(t) == 7 by {
      assert t[..2] == "00" && "00"[..1] == "0" && "0"[..0] == "";
    }
    TrimOfTrimmed(t);
  }

  function Pow10(n: nat): nat {
    if n == 0 then 1 else 10 * Pow10(n - 1)
  }

  /** A digit string without leading zero is at least the power of ten of its length. */
  lemma {:induction false} DigitsValueAtLeast(s: string)
    requires s != [] && AllDigits(s) && s[0] != '0'
    ensures DigitsValue(s) >= Pow10(|s| - 1)
    decreases |s|
  {
    if |s| > 1 {
      var init := s[..|s| - 1];
      assert init[0] == s[0];
      DigitsValueAtLeast(init);
    }
  }

  /** A value past Integer.MAX_VALUE is rejected: every eleven-digit text without leading zero is. */
  lemma ParseIndexRejectsOverflow(s: string)
    requires IsTrimmed(s) && |s| >= 11 && AllDigits(s) && s[0] != '0'
    ensures ParseIndex(s) == Err(InvalidIndex)
  {
    TrimOfTrimmed(s);
    DigitsValueAtLeast(s);
    Pow10Monotone(10, |s| - 1);
  }

  lemma {:induction false} Pow10Monotone(m: nat, n: nat)
    requires m <= n
    ensures Pow10(m) <= Pow10(n)
    decreases n
  {
    if m < n {
      Pow10Monotone(m, n - 1);
    }
  }

  /** Surrounding whitespace never matters. */
  lemma ParseIndexTrimInsensitive(p: string, s: string, q: string)
    requires IsBlank(p) && IsBlank(q)
    ensures ParseIndex(p + s + q) == ParseIndex(s)
  {
    TrimPadded(p, s, q);
  }

  // --------------------------------------------------------------- names

  /**
   * parseName: whitespace runs collapse to one space and the result is
   * trimmed before the name validator (Name.isValidName) sees it.
   */
  function ParseName(isValidName: string -> bool, s: string): (r: Result<string, Error>)
    ensures r.Ok? <==> isValidName(NormalizeSpaces(s))
    ensures r.Err? ==> r.error == NameConstraint
  {
    var t := NormalizeSpaces(s);
    if isValidName(t) then Ok(t) else Err(NameConstraint)
  }

  /**
   * An accepted name has no leading, trailing or doubled whitespace, and
   * parsing it again gives it back unchanged.
   */
  lemma ParseNameNormalized(isValidName: string -> bool, s: string)
    requires ParseName(isValidName, s).Ok?
    ensures var v := ParseName(isValidName, s).value;
      v == NormalizeSpaces(s) && IsTrimmed(v) && SingleSpaced(v) && ParseName(isValidName, v) == Ok(v)
  {
    NormalizeSpacesShape(s);
    NormalizeSpacesIdempotent(s);
  }

  // ---------------------------------------------------------------- tags

  /** parseTag: the trimmed text must satisfy the tag validator (Tag.isValidTagName). */
  function ParseTag(isValidTag: string -> bool, s: string): (r: Result<string, Error>)
    ensures r.Ok? <==> isValidTag(Trim(s))
    ensures r.Ok? ==> IsTrimmed(r.value)
    ensures r.Err? ==> r.error == TagConstraint
  {
    TrimIsTrimmed(s);
    var t := Trim(s);
    if isValidTag(t) then Ok(t) else Err(TagConstraint)
  }

  /** parseTag applied to each tag, in order. */
  function ParsedTags(isValidTag: string -> bool, tags: seq<string>): (rs: seq<Result<string, Error>>)
    ensures |rs| == |tags| && forall k :: 0 <= k < |tags| ==> rs[k] == ParseTag(isValidTag, tags[k])
  {
    seq(|tags|, k requires 0 <= k < |tags| => ParseTag(isValidTag, tags[k]))
  }

  /**
   * The results of parsing tag by tag gathered into a set: the first
   * failure, or the set of all parsed values.
   */
  function Gather(rs: seq<Result<string, Error>>): Result<set<string>, Error>
    decreases |rs|
  {
    if rs == [] then Ok({})
    else
      match Gather(rs[..|rs| - 1])
      case Err(e) => Err(e)
      case Ok(so) =>
        match rs[|rs| - 1]
        case Err(e) => Err(e)
        case Ok(t) => Ok(so + {t})
  }

  /** The result parseTags promises. */
  function TagsOf(isValidTag: string -> bool, tags: seq<string>): Result<set<string>, Error> {
    Gather(ParsedTags(isValidTag, tags))
  }

  /** Once a prefix of the results holds a failure, so does the whole. */
  lemma {:induction false} GatherRejectedPrefix(rs: seq<Result<string, Error>>, i: nat)
    requires i <= |rs| && Gather(rs[..i]).Err?
    ensures Gather(rs).Err? && Gather(rs).error == Gather(rs[..i]).error
    decreases |rs| - i
  {
    if i == |rs| {
      assert rs[..i] == rs;
    } else {
      assert rs[..i + 1][..i] == rs[..i];
      GatherRejectedPrefix(rs, i + 1);
    }
  }

  /** One step of parseTags: the next tag either aborts the whole list or joins the set. */
  lemma GatherStep(rs: seq<Result<string, Error>>, i: nat, so: set<string>)
    requires i < |rs| && Gather(rs[..i]) == Ok(so)
    ensures rs[i].Err? ==> Gather(rs) == Err(rs[i].error)
    ensures rs[i].Ok? ==> Gather(rs[..i + 1]) == Ok(so + {rs[i].value})
  {
    assert rs[..i + 1][..i] == rs[..i];
    if rs[i].Err? {
      GatherRejectedPrefix(rs, i + 1);
    }
  }

  /** parseTags: each tag is parsed in turn into a growing set; the first invalid one aborts. */
  method ParseTags(isValidTag: string -> bool, tags: seq<string>) returns (r: Result<set<string>, Error>)
    ensures r == TagsOf(isValidTag, tags)
  {
    ghost var rs := ParsedTags(isValidTag, tags);
    var tagSet: set<string> := {};
    for i := 0 to |tags|
      invariant Gather(rs[..i]) == Ok(tagSet)
    {
      var t := ParseTag(isValidTag, tags[i]);
      GatherStep(rs, i, tagSet);
      if t.Err? {
        return Err(t.error);
      }
      tagSet := tagSet + {t.value};
    }
    assert rs[..|tags|] == rs;
    return Ok(tagSet);
  }

  /** Every value of an accepted list is in the set. */
  lemma {:induction false} GatherKeepsEach(rs: seq<Result<string, Error>>, k: nat)
    requires k < |rs| && Gather(rs).Ok?
    ensures rs[k].Ok? && rs[k].value in Gather(rs).value
    decreases |rs|
  {
    var n := |rs| - 1;
    if k < n {
      assert rs[..n][k] == rs[k];
      GatherKeepsEach(rs[..n], k);
    }
  }

  /** Every member of the set is some parsed value. */
  lemma {:induction false} GatherOnlyParsed(rs: seq<Result<string, Error>>, t: string)
    requires Gather(rs).Ok? && t in Gather(rs).value
    ensures exists k :: 0 <= k < |rs| && rs[k] == Ok(t)
    decreases |rs|
  {
    var n := |rs| - 1;
    if rs[n] != Ok(t) {
      GatherOnlyParsed(rs[..n], t);
      var k :| 0 <= k < n && rs[..n][k] == Ok(t);
      assert rs[k] == Ok(t);
    }
  }

  /** The set never holds more values than there are results. */
  lemma {:induction false} GatherSize(rs: seq<Result<string, Error>>)
    requires Gather(rs).Ok?
    ensures |Gather(rs).value| <= |rs|
    decreases |rs|
  {
    if rs != [] {
      GatherSize(rs[..|rs| - 1]);
    }
  }

  /** A failed gathering reports one of the failures. */
  lemma {:induction false} GatherRejected(rs: seq<Result<string, Error>>)
    requires Gather(rs).Err?
    ensures exists k :: 0 <= k < |rs| && rs[k] == Err(Gather(rs).error)
    decreases |rs|
  {
    var n := |rs| - 1;
    if Gather(rs[..n]).Err? {
      GatherRejected(rs[..n]);
      var k :| 0 <= k < n && rs[..n][k] == Err(Gather(rs[..n]).error);
      assert rs[k] == rs[..n][k];
    }
  }

  /** parseTags fails exactly when some tag is rejected by parseTag, and always with the tag constraint. */
  lemma TagsOfRejected(isValidTag: string -> bool, tags: seq<string>)
    ensures TagsOf(isValidTag, tags).Err? <==> exists k :: 0 <= k < |tags| && ParseTag(isValidTag, tags[k]).Err?
    ensures TagsOf(isValidTag, tags).Err? ==> TagsOf(isValidTag, tags).error == TagConstraint
  {
    var rs := ParsedTags(isValidTag, tags);
    if Gather(rs).Err? {
      GatherRejected(rs);
      var k :| 0 <= k < |rs| && rs[k] == Err(Gather(rs).error);
      assert ParseTag(isValidTag, tags[k]).Err?;
    } else {
      forall k | 0 <= k < |tags| ensures ParseTag(isValidTag, tags[k]).Ok? {
        GatherKeepsEach(rs, k);
      }
    }
  }

  /**
   * An accepted list gives exactly the set of the parsed tags, duplicates
   * collapsed, so it is never larger than the input.
   */
  lemma TagsOfMembers(isValidTag: string -> bool, tags: seq<string>)
    requires TagsOf(isValidTag, tags).Ok?
    ensures forall t :: t in TagsOf(isValidTag, tags).value <==> exists k :: 0 <= k < |tags| && ParseTag(isValidTag, tags[k]) == Ok(t)
    ensures |TagsOf(isValidTag, tags).value| <= |tags|
  {
    var rs := ParsedTags(isValidTag, tags);
    var r := Gather(rs).value;
    GatherSize(rs);
    forall t ensures t in r <==> exists k :: 0 <= k < |tags| && ParseTag(isValidTag, tags[k]) == Ok(t) {
      if t in r {
        GatherOnlyParsed(rs, t);
        var k :| 0 <= k < |rs| && rs[k] == Ok(t);
        assert ParseTag(isValidTag, tags[k]) == Ok(t);
      }
      if exists k :: 0 <= k < |tags| && ParseTag(isValidTag, tags[k]) == Ok(t) {
        var k :| 0 <= k < |tags| && ParseTag(isValidTag, tags[k]) == Ok(t);
        assert rs[k] == Ok(t);
        GatherKeepsEach(rs, k);
      }
    }
  }

  /** Gathering a result that is already there again changes nothing. */
  lemma GatherRepeat(rs: seq<Result<string, Error>>, k: nat)
    requires k < |rs|
    ensures Gather(rs + [rs[k]]) == Gather(rs)
  {
    var ext := rs + [rs[k]];
    assert ext[..|ext| - 1] == rs;
    assert ext[|ext| - 1] == rs[k];
    if Gather(rs).Ok? {
      GatherKeepsEach(rs, k);
      var so := Gather(rs).value;
      assert so + {rs[k].value} == so;
      assert Gather(ext) == Ok(so + {rs[k].value});
    }
  }

  lemma ParsedTagsAppend(isValidTag: string -> bool, tags: seq<string>, x: string)
    ensures ParsedTags(isValidTag, tags + [x]) == ParsedTags(isValidTag, tags) + [ParseTag(isValidTag, x)]
  {
    var a, b := ParsedTags(isValidTag, tags + [x]), ParsedTags(isValidTag, tags) + [ParseTag(isValidTag, x)];
    forall k | 0 <= k < |a| ensures a[k] == b[k] {
      if k < |tags| {
        assert (tags + [x])[k] == tags[k];
      }
    }
  }

  /** A repeated tag, with extra padding or not, adds nothing. */
  lemma RepeatedTagCollapses(isValidTag: string -> bool, tags: seq<string>, k: nat, pad: string)
    requires k < |tags| && IsBlank(pad)
    ensures TagsOf(isValidTag, tags + [pad + tags[k]]) == TagsOf(isValidTag, tags)
  {
    var rs := ParsedTags(isValidTag, tags);
    assert ParseTag(isValidTag, pad + tags[k]) == rs[k] by {
      TrimPadded(pad, tags[k], "");
      assert pad + tags[k] + "" == pad + tags[k];
    }
    ParsedTagsAppend(isValidTag, tags, pad + tags[k]);
    GatherRepeat(rs, k);
  }

  // ---------------------------------------------------------------- days

  /**
   * parseDay as written: the trimmed text must pass Day.isValidDay; the Day
   * constructor normalises it. On ASCII text it is the corrected parse.
   */
  function ParseDay(s: string): (r: Result<Day, Error>)
    ensures r.Ok? <==> IsValidDayAsWritten(Trim(s))
    ensures r.Err? ==> r.error == DayConstraint
    ensures IsAscii(Trim(s)) ==> r == ParseDayCorrected(s)
  {
    if IsAscii(Trim(s)) then CorrectedAgreesOnAscii(Trim(s)); DayResult(NewDayAsWritten(Trim(s)))
    else DayResult(NewDayAsWritten(Trim(s)))
  }

  /** parseDay with the corrected guard of the Day constructor. */
  function ParseDayCorrected(s: string): (r: Result<Day, Error>)
    ensures r.Ok? <==> IsValidDay(Trim(s))
    ensures r.Ok? ==> r.value.name in ValidDays && ToLowerCase(r.value.name) == ToLowerCase(Trim(s))
    ensures r.Err? ==> r.error == DayConstraint
  {
    DayResult(NewDay(Trim(s)))
  }

  /** A refused day is reported with the day constraint message. */
  function DayResult(d: Option<Day>): (r: Result<Day, Error>)
    ensures r.Ok? <==> d.Some?
    ensures r.Ok? ==> r.value == d.value
    ensures r.Err? ==> r.error == DayConstraint
  {
    match d
    case Some(v) => Ok(v)
    case None => Err(DayConstraint)
  }

  /**
   * A day parsed by the corrected parse is one of the seven canonical
   * names: parsing its name again gives the same day, and two texts give
   * the same day exactly when their trimmed forms have the same toLowerCase.
   */
  lemma ParseDayCorrectedCanonical(a: string, b: string)
    requires ParseDayCorrected(a).Ok? && ParseDayCorrected(b).Ok?
    ensures ParseDayCorrected(ParseDayCorrected(a).value.name) == ParseDayCorrected(a)
    ensures ParseDayCorrected(a) == ParseDayCorrected(b) <==> ToLowerCase(Trim(a)) == ToLowerCase(Trim(b))
  {
    var d := ParseDayCorrected(a).value;
    NormalizeIdempotent(Trim(a));
    DayNameTrimmed(d);
    TrimOfTrimmed(d.name);
    NewDayEqualIff(Trim(a), Trim(b));
  }

  /**
   * On ASCII text the parse as written is canonical too: its result
   * re-parses to itself, and two texts give the same day exactly when
   * their trimmed forms agree ignoring case.
   */
  lemma ParseDayCanonical(a: string, b: string)
    requires ParseDay(a).Ok? && ParseDay(b).Ok? && IsAscii(Trim(a)) && IsAscii(Trim(b))
    ensures ParseDay(a).value.name in ValidDays
    ensures ParseDay(ParseDay(a).value.name) == ParseDay(a)
    ensures ParseDay(a) == ParseDay(b) <==> LowerString(Trim(a)) == LowerString(Trim(b))
  {
    var d := ParseDay(a).value;
    ParseDayCorrectedCanonical(a, b);
    DayNameTrimmed(d);
    TrimOfTrimmed(d.name);
    DayNameAscii(d.name);
    AsciiToLowerCase(Trim(a));
    AsciiToLowerCase(Trim(b));
  }

  lemma DayNameTrimmed(d: Day)
    requires d.name in ValidDays
    ensures IsTrimmed(d.name)
  {
  }

  // --------------------------------------------------------------- times

  /**
   * parseTime: the trimmed text goes to the time parser, which stands for
   * Time.isValidTime and the Time constructor.
   */
  function ParseTime(timeOf: string -> Option<Time>, s: string): (r: Result<Time, Error>)
    ensures r.Ok? <==> timeOf(Trim(s)).Some?
    ensures r.Ok? ==> r.value == timeOf(Trim(s)).value
    ensures r.Err? ==> r.error == TimeConstraint
  {
    match timeOf(Trim(s))
    case Some(t) => Ok(t)
    case None => Err(TimeConstraint)
  }

  // ------------------------------------------------------------ subjects

  /**
   * parseSubjectName: whitespace runs collapse to one space and the result
   * is trimmed; an empty result is rejected.
   */
  function ParseSubjectName(s: string): (r: Result<Subject, Error>)
    ensures r.Ok? <==> NormalizeSpaces(s) != []
    ensures r.Err? ==> r.error == SubjectConstraint
  {
    var t := NormalizeSpaces(s);
    if t == [] || !IsValidSubjectName(t) then Err(SubjectConstraint) else Ok(Subject(t))
  }

  /**
   * An accepted subject name is its input normalised: non-empty, with no
   * leading, trailing or doubled whitespace; parsing it again changes nothing.
   */
  lemma ParseSubjectNameNormalized(s: string)
    requires ParseSubjectName(s).Ok?
    ensures var n := ParseSubjectName(s).value.name;
      n == NormalizeSpaces(s) && n != [] && IsTrimmed(n) && SingleSpaced(n) &&
      ParseSubjectName(n) == ParseSubjectName(s)
  {
    NormalizeSpacesShape(s);
    NormalizeSpacesIdempotent(s);
  }

  /** Blank input, such as "   ", is always rejected. */
  lemma BlankSubjectRejected(s: string)
    requires IsBlank(s)
    ensures ParseSubjectName(s) == Err(SubjectConstraint)
  {
    BlankCollapse(s);
    AllBlankTrimEnd(Collapse(s));
  }

  lemma {:induction false} BlankCollapse(s: string)
    requires IsBlank(s)
    ensures IsBlank(Collapse(s))
    decreases |s|
  {
    if s != [] {
      if IsRegexSpace(s[0]) {
        var d := DropSpaces(s);
        assert forall k :: 0 <= k < |d| ==> d[k] == s[|s| - |d| + k];
        BlankCollapse(d);
      } else {
        assert forall k :: 0 <= k < |s[1..]| ==> s[1..][k] == s[k + 1];
        BlankCollapse(s[1..]);
      }
    }
  }

  // ------------------------------------------------------------- lessons

  /**
   * parseLesson: the subject, the day, the start and the end are parsed in
   * that order, the first failure being reported; then a start that is not
   * before the end is rejected, and last the lesson constructor's toString
   * throws on a subject or day name that is no valid format string.
   */
  function ParseLesson(timeOf: string -> Option<Time>, subject: string, day: string, start: string, end: string)
    : Result<Lesson, Error>
  {
    var s := ParseSubjectName(subject);
    var d := ParseDay(day);
    var st := ParseTime(timeOf, start);
    var en := ParseTime(timeOf, end);
    if s.Err? then Err(s.error)
    else if d.Err? then Err(d.error)
    else if st.Err? then Err(st.error)
    else if en.Err? then Err(en.error)
    else if !IsValidStartEndTime(st.value, en.value) then Err(LessonConstraint)
    else if !Formattable(Lesson(s.value, d.value, st.value, en.value)) then Err(FormatFailure)
    else Ok(Lesson(s.value, d.value, st.value, en.value))
  }

  /**
   * A lesson is accepted exactly when every field parses, the start is
   * before the end and the lesson can be rendered; it is then valid and
   * built from the four parsed fields.
   */
  lemma ParseLessonAccepts(timeOf: string -> Option<Time>, subject: string, day: string, start: string, end: string)
    ensures var r := ParseLesson(timeOf, subject, day, start, end);
      var s, d := ParseSubjectName(subject), ParseDay(day);
      var st, en := ParseTime(timeOf, start), ParseTime(timeOf, end);
      (r.Ok? <==> (s.Ok? && d.Ok? && st.Ok? && en.Ok? && st.value < en.value
                   && Formattable(Lesson(s.value, d.value, st.value, en.value)))) &&
      (r.Ok? ==> IsValidLesson(r.value) && r.value == Lesson(s.value, d.value, st.value, en.value))
  {
    var s, d := ParseSubjectName(subject), ParseDay(day);
    var st, en := ParseTime(timeOf, start), ParseTime(timeOf, end);
    var r := ParseLesson(timeOf, subject, day, start, end);
    if s.Ok? && d.Ok? && st.Ok? && en.Ok? {
      if st.value < en.value {
        var l := Lesson(s.value, d.value, st.value, en.value);
        if Formattable(l) {
          assert r == Ok(l);
        } else {
          assert r == Err(FormatFailure);
        }
      } else {
        assert r == Err(LessonConstraint);
      }
    } else {
      assert r.Err?;
    }
  }

  /**
   * The error is the first failing field's, in the order subject, day,
   * start, end; then the time order, and last the rendering.
   */
  lemma ParseLessonErrorOrder(timeOf: string -> Option<Time>, subject: string, day: string, start: string, end: string)
    ensures var r := ParseLesson(timeOf, subject, day, start, end);
      var s, d := ParseSubjectName(subject), ParseDay(day);
      var st, en := ParseTime(timeOf, start), ParseTime(timeOf, end);
      (s.Err? ==> r == Err(SubjectConstraint)) &&
      (s.Ok? && d.Err? ==> r == Err(DayConstraint)) &&
      (s.Ok? && d.Ok? && (st.Err? || en.Err?) ==> r == Err(TimeConstraint)) &&
      (s.Ok? && d.Ok? && st.Ok? && en.Ok? && st.value >= en.value ==> r == Err(LessonConstraint)) &&
      ((s.Ok? && d.Ok? && st.Ok? && en.Ok? && st.value < en.value
        && !Formattable(Lesson(s.value, d.value, st.value, en.value))) ==> r == Err(FormatFailure))
  {
  }
}
