/**
 * The command parsers for find, editLesson and deleteLesson
 * (logic/parser/FindCommandParser.java, EditLessonCommandParser.java and
 * DeleteLessonCommandParser.java).
 *
 * ArgumentTokenizer and ArgumentMultimap are not part of this model: the
 * tokenizer's result is taken as given, a preamble and, for each prefix,
 * the values given for it in input order.
 */
module CommandParsers {
  import opened Wrappers
  import opened JavaText
  import opened Errors
  import opened Subjects
  import opened Days
  import opened Lessons
  import opened Views
  import opened Descriptors
  import opened FindCommands
  import opened ParserUtil

  // ------------------------------------------------------ tokenized input

  /** The prefixes these parsers look for: s/, d/, the start time and the end time. */
  datatype Prefix = SubjectPrefix | DayPrefix | StartPrefix | EndPrefix

  /** What ArgumentTokenizer.tokenize returns. */
  datatype ArgumentMultimap = ArgumentMultimap(preamble: string, values: map<Prefix, seq<string>>)

  /** getAllValues: the values given for the prefix, none if it was absent. */
  function AllValues(a: ArgumentMultimap, p: Prefix): seq<string> {
    if p in a.values then a.values[p] else []
  }

  /** getValue: the last value given for the prefix. */
  function GetValue(a: ArgumentMultimap, p: Prefix): Option<string> {
    var vs := AllValues(a, p);
    if vs == [] then None else Some(vs[|vs| - 1])
  }

  /** verifyNoDuplicatePrefixesFor: no listed prefix was given more than once. */
  function VerifyNoDuplicatePrefixesFor(a: ArgumentMultimap, ps: seq<Prefix>): Outcome<Error> {
    if exists k :: 0 <= k < |ps| && |AllValues(a, ps[k])| > 1 then Fail(DuplicatePrefixes) else Pass
  }

  // ------------------------------------------------------------------ find

  /**
   * The day branch as written: the trimmed value must be non-empty and pass
   * Day.isValidDay; the Day constructor normalises it. On ASCII values it is
   * the corrected branch.
   */
  function FindDay(v: string): (r: Result<FindCommand, Error>)
    ensures r.Ok? <==> IsValidDayAsWritten(Trim(v))
    ensures r.Err? ==> r.error == DayConstraint
    ensures r.Ok? ==> r.value.FindByDay?
    ensures IsAscii(Trim(v)) ==> r == FindDayCorrected(v)
  {
    EmptyIsNoDay();
    var dayValue := Trim(v);
    if IsAscii(dayValue) then
      CorrectedAgreesOnAscii(dayValue);
      DayBranch(dayValue, NewDayAsWritten(dayValue))
    else DayBranch(dayValue, NewDayAsWritten(dayValue))
  }

  /** The day branch with the corrected guard of the Day constructor. */
  function FindDayCorrected(v: string): (r: Result<FindCommand, Error>)
    ensures r.Ok? <==> IsValidDay(Trim(v))
    ensures r.Err? ==> r.error == DayConstraint
    ensures r.Ok? ==> (r.value.FindByDay? && r.value.day.name in ValidDays &&
      ToLowerCase(r.value.day.name) == ToLowerCase(Trim(v)))
  {
    EmptyIsNoDay();
    DayBranch(Trim(v), NewDay(Trim(v)))
  }

  /** An empty value or a refused day is reported with the day constraint message. */
  function DayBranch(dayValue: string, d: Option<Day>): (r: Result<FindCommand, Error>)
    ensures r.Ok? <==> dayValue != [] && d.Some?
    ensures r.Err? ==> r.error == DayConstraint
    ensures r.Ok? ==> r.value == FindByDay(d.value)
  {
    if dayValue == [] || d.None? then Err(DayConstraint)
    else Ok(FindByDay(d.value))
  }

  /**
   * The subject branch: the value is trimmed; an empty one is refused with
   * the invalid-format error, otherwise the command holds exactly the
   * predicate SubjectMatchesPredicate builds from the value.
   */
  function FindSubject(v: string): (r: Result<FindCommand, Error>)
    ensures r.Err? <==> Trim(v) == []
    ensures r.Err? ==> r.error == InvalidFormat
    ensures r.Ok? ==> r.value.FindBySubject? && r.value.keyword != [] && FilterOf(r.value) == NewSubjectFilter(v)
  {
    var subjectName := Trim(v);
    if subjectName == [] then Err(InvalidFormat)
    else Ok(FindBySubject(subjectName))
  }

  /**
   * FindCommandParser.parse: blank input is refused; a day value wins over
   * a subject value, which wins over name keywords.
   */
  function ParseFind(args: string, a: ArgumentMultimap): Result<FindCommand, Error> {
    var trimmedArgs := Trim(args);
    if trimmedArgs == [] then Err(InvalidFormat)
    else if GetValue(a, DayPrefix).Some? then FindDay(GetValue(a, DayPrefix).value)
    else if GetValue(a, SubjectPrefix).Some? then FindSubject(GetValue(a, SubjectPrefix).value)
    else Ok(FindByName(Split(trimmedArgs)))
  }

  /** The empty string is no day, for either guard. */
  lemma EmptyIsNoDay()
    ensures !IsValidDayAsWritten("") && !IsValidDay("")
  {
    forall k | 0 <= k < |ValidDays| ensures LowerString(ValidDays[k]) != ToLowerCase("") {
      assert |LowerString(ValidDays[k])| == |ValidDays[k]| > 0;
    }
  }

  /** Blank input, even with prefixes present, is refused with the invalid-format error. */
  lemma FindBlankRefused(args: string, a: ArgumentMultimap)
    requires IsBlank(args)
    ensures ParseFind(args, a) == Err(InvalidFormat)
  {
    AllBlankTrimEnd(args);
  }

  /**
   * A day value decides the result, whether or not a subject is given: it
   * is trimmed, and the day it names is searched for, or Day's constraint
   * error is reported. On an ASCII value the day found is one of the seven
   * names and matches the value ignoring case.
   */
  lemma FindDayPrecedence(args: string, a: ArgumentMultimap)
    requires Trim(args) != [] && GetValue(a, DayPrefix).Some?
    ensures var v := Trim(GetValue(a, DayPrefix).value);
      var r := ParseFind(args, a);
      (r.Ok? <==> IsValidDayAsWritten(v)) &&
      (r.Err? ==> r.error == DayConstraint) &&
      (r.Ok? ==> r.value.FindByDay?) &&
      (r.Ok? && IsAscii(v) ==> (r.value.day.name in ValidDays && EqualsIgnoreCase(r.value.day.name, v)))
  {
    var v := Trim(GetValue(a, DayPrefix).value);
    var r := ParseFind(args, a);
    if r.Ok? && IsAscii(v) {
      var n := r.value.day.name;
      DayNameAscii(n);
      AsciiToLowerCase(n);
      AsciiToLowerCase(v);
      LowerStringEqualsIgnoreCase(n, v);
    }
  }

  /** Equal lower cases mean equal ignoring case. */
  lemma LowerStringEqualsIgnoreCase(a: string, b: string)
    requires LowerString(a) == LowerString(b)
    ensures EqualsIgnoreCase(a, b)
  {
    assert |a| == |LowerString(a)| && |b| == |LowerString(b)|;
    forall k | 0 <= k < |a| ensures CharsEqualIgnoreCase(a[k], b[k]) {
      assert LowerChar(a[k]) == LowerString(a)[k] && LowerChar(b[k]) == LowerString(b)[k];
      SameLowerCharIgnoreCase(a[k], b[k]);
    }
  }

  /** Two inputs with the same day value parse alike, whatever else they hold. */
  lemma FindDayIgnoresRest(args1: string, a1: ArgumentMultimap, args2: string, a2: ArgumentMultimap)
    requires Trim(args1) != [] && Trim(args2) != []
    requires GetValue(a1, DayPrefix).Some? && GetValue(a1, DayPrefix) == GetValue(a2, DayPrefix)
    ensures ParseFind(args1, a1) == ParseFind(args2, a2)
  {
  }

  /**
   * Without day or subject values, the keywords are the trimmed input split
   * on whitespace runs.
   */
  lemma FindNameMode(args: string, a: ArgumentMultimap)
    requires Trim(args) != [] && GetValue(a, DayPrefix).None? && GetValue(a, SubjectPrefix).None?
    ensures ParseFind(args, a) == Ok(FindByName(Split(Trim(args))))
  {
  }

  /** Every name search the parser builds has at least one keyword, none empty and none holding whitespace. */
  lemma FindNameKeywords(args: string, a: ArgumentMultimap, keywords: seq<string>)
    requires ParseFind(args, a) == Ok(FindByName(keywords))
    ensures |keywords| >= 1 && IsWordList(keywords)
  {
    var t := Trim(args);
    assert keywords == Split(t);
    TrimIsTrimmed(args);
    SplitWords(t);
  }

  /** A trimmed non-blank text splits into at least one word, none empty and none holding whitespace. */
  lemma SplitWords(t: string)
    requires IsTrimmed(t) && t != []
    ensures |Split(t)| >= 1 && IsWordList(Split(t))
  {
    SplitTrimmed(t);
  }

  /** First and last characters of words joined by spaces. */
  lemma {:induction false} JoinSpacedEnds(ws: seq<string>)
    requires |ws| >= 1 && IsWordList(ws)
    ensures var j := JoinSpaced(ws);
      j != [] && j[0] == ws[0][0] && j[|j| - 1] == ws[|ws| - 1][|ws[|ws| - 1]| - 1]
    decreases |ws|
  {
    if |ws| > 1 {
      JoinSpacedEnds(ws[1..]);
    }
  }

  /** Words are visible at both ends. */
  predicate IsVisibleWordList(ws: seq<string>) {
    IsWordList(ws) && forall k :: 0 <= k < |ws| ==> IsTrimmed(ws[k])
  }

  /** Visible words joined by single spaces and padded with blanks trim back to the join, and split back into the words. */
  lemma PaddedJoinSplits(p: string, ws: seq<string>, q: string)
    requires IsBlank(p) && IsBlank(q) && |ws| >= 1 && IsVisibleWordList(ws)
    ensures Trim(p + JoinSpaced(ws) + q) == JoinSpaced(ws) != []
    ensures Split(Trim(p + JoinSpaced(ws) + q)) == ws
  {
    var j := JoinSpaced(ws);
    JoinSpacedEnds(ws);
    assert IsTrimmed(ws[0]) && IsTrimmed(ws[|ws| - 1]);
    assert IsTrimmed(j);
    TrimPadded(p, j, q);
    TrimOfTrimmed(j);
    SplitOfJoin(ws);
  }

  /** Name keywords typed with single spaces, however padded, come back as typed. */
  lemma FindNameRoundTrip(p: string, ws: seq<string>, q: string, a: ArgumentMultimap)
    requires IsBlank(p) && IsBlank(q) && |ws| >= 1 && IsVisibleWordList(ws)
    requires GetValue(a, DayPrefix).None? && GetValue(a, SubjectPrefix).None?
    ensures ParseFind(p + JoinSpaced(ws) + q, a) == Ok(FindByName(ws))
  {
    PaddedJoinSplits(p, ws, q);
  }

  // ---------------------------------------------------------- index pairs

  /**
   * The two leading indices shared by the editLesson and deleteLesson
   * parsers: the text is trimmed and split on whitespace runs; anything but
   * two tokens, or a token that is not a non-zero unsigned integer, is the
   * invalid-format error. The indices come back zero-based, in order.
   */
  function IndexPair(text: string): (r: Result<(nat, nat), Error>)
    ensures r.Err? ==> r.error == InvalidFormat
  {
    var parts := Split(Trim(text));
    if |parts| != 2 then Err(InvalidFormat)
    else
      var first, second := ParseIndex(parts[0]), ParseIndex(parts[1]);
      if first.Err? || second.Err? then Err(InvalidFormat)
      else Ok((first.value, second.value))
  }

  /**
   * Surrounding whitespace never matters, and a pair is accepted exactly
   * when the text holds two tokens that both parse, giving their values in
   * order.
   */
  lemma IndexPairSpec(p: string, text: string, q: string)
    requires IsBlank(p) && IsBlank(q)
    ensures IndexPair(p + text + q) == IndexPair(text)
    ensures var parts := Split(Trim(text));
      var r := IndexPair(text);
      (r.Ok? <==> |parts| == 2 && ParseIndex(parts[0]).Ok? && ParseIndex(parts[1]).Ok?) &&
      (r.Ok? ==> Ok(r.value.0) == ParseIndex(parts[0]) && Ok(r.value.1) == ParseIndex(parts[1]))
  {
    TrimPadded(p, text, q);
  }

  /** Two visible words joined by one space, however padded, split back into the two words. */
  lemma PairSplits(p: string, x: string, y: string, q: string)
    requires IsBlank(p) && IsBlank(q) && IsWordList([x, y]) && IsTrimmed(x) && IsTrimmed(y)
    ensures Split(Trim(p + x + " " + y + q)) == [x, y]
  {
    var ws := [x, y];
    assert JoinSpaced(ws) == x + " " + y by {
      assert ws[1..] == [y];
    }
    assert IsVisibleWordList(ws);
    PaddedJoinSplits(p, ws, q);
    Regroup(p, x, y, q);
  }

  lemma Regroup(p: string, x: string, y: string, q: string)
    ensures p + x + " " + y + q == p + (x + " " + y) + q
  {
  }

  /** Every pair of indices survives the round trip through its one-based text. */
  lemma IndexPairRoundTrip(p: string, n: nat, m: nat, q: string)
    requires IsBlank(p) && IsBlank(q) && n < MaxInt && m < MaxInt
    ensures IndexPair(p + NatToString(n + 1) + " " + NatToString(m + 1) + q) == Ok((n, m))
  {
    var x, y := NatToString(n + 1), NatToString(m + 1);
    NatToStringTrimmed(n + 1);
    NatToStringTrimmed(m + 1);
    PairSplits(p, x, y, q);
    ParseIndexOfText(n);
    ParseIndexOfText(m);
    IndexPairOfTokens(p + x + " " + y + q, x, y);
  }

  /** A text that splits into two index tokens gives their two values. */
  lemma IndexPairOfTokens(text: string, x: string, y: string)
    requires Split(Trim(text)) == [x, y] && ParseIndex(x).Ok? && ParseIndex(y).Ok?
    ensures IndexPair(text) == Ok((ParseIndex(x).value, ParseIndex(y).value))
  {
    var parts := Split(Trim(text));
    assert parts[0] == x && parts[1] == y;
  }

  /**
   * Any number of tokens other than two is refused, whatever the padding:
   * blank text, one token, three or more.
   */
  lemma IndexPairNeedsTwoTokens(p: string, ws: seq<string>, q: string)
    requires IsBlank(p) && IsBlank(q) && IsVisibleWordList(ws) && |ws| != 2
    ensures IndexPair(p + JoinSpaced(ws) + q) == Err(InvalidFormat)
  {
    if |ws| == 0 {
      TrimPadded(p, "", q);
      assert p + JoinSpaced(ws) + q == p + "" + q;
    } else {
      PaddedJoinSplits(p, ws, q);
    }
  }

  // ------------------------------------------------------------ editLesson

  /** The parsed editLesson command: both indices zero-based, and the fields to change. */
  datatype EditLessonRequest = EditLessonRequest(personIndex: nat, lessonIndex: nat, edit: LessonEdit)

  const EditLessonPrefixes: seq<Prefix> := [SubjectPrefix, DayPrefix, StartPrefix, EndPrefix]

  /** A field's parse: none when its prefix is absent, else the result of parsing the value. */
  function ParsedSubject(a: ArgumentMultimap): Option<Result<Subject, Error>> {
    match GetValue(a, SubjectPrefix)
    case None => None
    case Some(v) => Some(ParseSubjectName(v))
  }

  function ParsedDay(a: ArgumentMultimap): Option<Result<Day, Error>> {
    match GetValue(a, DayPrefix)
    case None => None
    case Some(v) => Some(ParseDay(v))
  }

  function ParsedTime(timeOf: string -> Option<Time>, a: ArgumentMultimap, p: Prefix): Option<Result<Time, Error>> {
    match GetValue(a, p)
    case None => None
    case Some(v) => Some(ParseTime(timeOf, v))
  }

  /** A field parse that failed. */
  predicate Failed<T>(v: Option<Result<T, Error>>) {
    v.Some? && v.value.Err?
  }

  /** A descriptor field set exactly when its prefix was given, to the parsed value. */
  predicate Fills<T(==)>(v: Option<Result<T, Error>>, f: Option<T>) {
    (v.None? ==> f.None?) && (v.Some? ==> f.Some? && v.value == Ok(f.value))
  }

  /**
   * The descriptor the setters fill, in the order subject, day, start,
   * end: the first field that failed gives the error, and otherwise every
   * field holds its parsed value, or nothing where no value was given.
   */
  function LessonEditFrom(s: Option<Result<Subject, Error>>, d: Option<Result<Day, Error>>,
                          st: Option<Result<Time, Error>>, en: Option<Result<Time, Error>>): (r: Result<LessonEdit, Error>)
    ensures r.Ok? <==> !Failed(s) && !Failed(d) && !Failed(st) && !Failed(en)
    ensures Failed(s) ==> r == Err(s.value.error)
    ensures !Failed(s) && Failed(d) ==> r == Err(d.value.error)
    ensures !Failed(s) && !Failed(d) && Failed(st) ==> r == Err(st.value.error)
    ensures !Failed(s) && !Failed(d) && !Failed(st) && Failed(en) ==> r == Err(en.value.error)
    ensures r.Ok? ==> Fills(s, r.value.subject) && Fills(d, r.value.day) && Fills(st, r.value.start) && Fills(en, r.value.end)
  {
    if Failed(s) then Err(s.value.error)
    else if Failed(d) then Err(d.value.error)
    else if Failed(st) then Err(st.value.error)
    else if Failed(en) then Err(en.value.error)
    else
      Ok(LessonEdit(Chosen(s, None), Chosen(d, None), Chosen(st, None), Chosen(en, None)))
  }

  function LessonEditOf(timeOf: string -> Option<Time>, a: ArgumentMultimap): Result<LessonEdit, Error> {
    LessonEditFrom(ParsedSubject(a), ParsedDay(a), ParsedTime(timeOf, a, StartPrefix), ParsedTime(timeOf, a, EndPrefix))
  }

  /** The fields contribute only their own errors: the subject, day and time constraints. */
  lemma LessonEditOfErrors(timeOf: string -> Option<Time>, a: ArgumentMultimap)
    ensures LessonEditOf(timeOf, a).Err? ==> LessonEditOf(timeOf, a).error in {SubjectConstraint, DayConstraint, TimeConstraint}
  {
    var s, d := ParsedSubject(a), ParsedDay(a);
    var st, en := ParsedTime(timeOf, a, StartPrefix), ParsedTime(timeOf, a, EndPrefix);
    assert Failed(s) ==> s.value.error == SubjectConstraint;
    assert Failed(d) ==> d.value.error == DayConstraint;
    assert Failed(st) ==> st.value.error == TimeConstraint;
    assert Failed(en) ==> en.value.error == TimeConstraint;
  }

  /** Some editLesson prefix was given more than once. */
  predicate HasRepeatedPrefix(a: ArgumentMultimap) {
    VerifyNoDuplicatePrefixesFor(a, EditLessonPrefixes).Fail?
  }

  /**
   * The order of EditLessonCommandParser.parse's checks: repeated
   * prefixes, then the two indices of the preamble, then the fields, and
   * finally a descriptor with no field set is refused.
   */
  function EditLessonFrom(repeated: bool, indices: Result<(nat, nat), Error>, edit: Result<LessonEdit, Error>): (r: Result<EditLessonRequest, Error>)
    ensures repeated ==> r == Err(DuplicatePrefixes)
    ensures !repeated && indices.Err? ==> r == Err(indices.error)
    ensures !repeated && indices.Ok? && edit.Err? ==> r == Err(edit.error)
    ensures !repeated && indices.Ok? && edit == Ok(NoLessonEdit) ==> r == Err(NotEdited)
    ensures r.Ok? <==> !repeated && indices.Ok? && edit.Ok? && edit.value != NoLessonEdit
    ensures r.Ok? ==> r.value == EditLessonRequest(indices.value.0, indices.value.1, edit.value)
  {
    if repeated then Err(DuplicatePrefixes)
    else
      match indices
      case Err(e) => Err(e)
      case Ok((personIndex, lessonIndex)) =>
        match edit
        case Err(e) => Err(e)
        case Ok(e) => if e == NoLessonEdit then Err(NotEdited) else Ok(EditLessonRequest(personIndex, lessonIndex, e))
  }

  /** EditLessonCommandParser.parse on the tokenized input. */
  function EditLessonParse(timeOf: string -> Option<Time>, a: ArgumentMultimap): Result<EditLessonRequest, Error> {
    EditLessonFrom(HasRepeatedPrefix(a), IndexPair(a.preamble), LessonEditOf(timeOf, a))
  }

  /** A field's new value: the parsed one when the prefix was given, else the old one. */
  function Chosen<T>(v: Option<Result<T, Error>>, old_: Option<T>): Option<T>
    requires !Failed(v)
  {
    if v.Some? then Some(v.value.value) else old_
  }

  /** One setter call: when the subject prefix was given its value is parsed and set. */
  method FillSubject(descriptor: EditLessonDescriptor, a: ArgumentMultimap) returns (r: Outcome<Error>)
    modifies descriptor
    ensures r.Fail? <==> Failed(ParsedSubject(a))
    ensures r.Fail? ==> r.error == ParsedSubject(a).value.error
    ensures r.Pass? ==> descriptor.Value() == old(descriptor.Value()).(subject := Chosen(ParsedSubject(a), old(descriptor.Value()).subject))
  {
    var subject := GetValue(a, SubjectPrefix);
    if subject.Some? {
      var s := ParseSubjectName(subject.value);
      if s.Err? {
        return Fail(s.error);
      }
      descriptor.SetSubject(Some(s.value));
    }
    r := Pass;
  }

  method FillDay(descriptor: EditLessonDescriptor, a: ArgumentMultimap) returns (r: Outcome<Error>)
    modifies descriptor
    ensures r.Fail? <==> Failed(ParsedDay(a))
    ensures r.Fail? ==> r.error == ParsedDay(a).value.error
    ensures r.Pass? ==> descriptor.Value() == old(descriptor.Value()).(day := Chosen(ParsedDay(a), old(descriptor.Value()).day))
  {
    var day := GetValue(a, DayPrefix);
    if day.Some? {
      var d := ParseDay(day.value);
      if d.Err? {
        return Fail(d.error);
      }
      descriptor.SetDay(Some(d.value));
    }
    r := Pass;
  }

  method FillStart(timeOf: string -> Option<Time>, descriptor: EditLessonDescriptor, a: ArgumentMultimap) returns (r: Outcome<Error>)
    modifies descriptor
    ensures r.Fail? <==> Failed(ParsedTime(timeOf, a, StartPrefix))
    ensures r.Fail? ==> r.error == ParsedTime(timeOf, a, StartPrefix).value.error
    ensures r.Pass? ==> descriptor.Value() == old(descriptor.Value()).(start := Chosen(ParsedTime(timeOf, a, StartPrefix), old(descriptor.Value()).start))
  {
    var start := GetValue(a, StartPrefix);
    if start.Some? {
      var t := ParseTime(timeOf, start.value);
      if t.Err? {
        return Fail(t.error);
      }
      descriptor.SetStartTime(Some(t.value));
    }
    r := Pass;
  }

  method FillEnd(timeOf: string -> Option<Time>, descriptor: EditLessonDescriptor, a: ArgumentMultimap) returns (r: Outcome<Error>)
    modifies descriptor
    ensures r.Fail? <==> Failed(ParsedTime(timeOf, a, EndPrefix))
    ensures r.Fail? ==> r.error == ParsedTime(timeOf, a, EndPrefix).value.error
    ensures r.Pass? ==> descriptor.Value() == old(descriptor.Value()).(end := Chosen(ParsedTime(timeOf, a, EndPrefix), old(descriptor.Value()).end))
  {
    var end := GetValue(a, EndPrefix);
    if end.Some? {
      var t := ParseTime(timeOf, end.value);
      if t.Err? {
        return Fail(t.error);
      }
      descriptor.SetEndTime(Some(t.value));
    }
    r := Pass;
  }

  /** The setter calls: a fresh descriptor gets each given field, or the first field's parse error. */
  method FillDescriptor(timeOf: string -> Option<Time>, a: ArgumentMultimap) returns (r: Outcome<Error>, descriptor: EditLessonDescriptor)
    ensures fresh(descriptor)
    ensures r.Pass? <==> LessonEditOf(timeOf, a).Ok?
    ensures r.Fail? ==> r.error == LessonEditOf(timeOf, a).error
    ensures r.Pass? ==> descriptor.Value() == LessonEditOf(timeOf, a).value
  {
    descriptor := new EditLessonDescriptor();
    r := FillSubject(descriptor, a);
    if r.Fail? {
      return;
    }
    r := FillDay(descriptor, a);
    if r.Fail? {
      return;
    }
    r := FillStart(timeOf, descriptor, a);
    if r.Fail? {
      return;
    }
    r := FillEnd(timeOf, descriptor, a);
  }

  /** The parser as written: the checks, then the descriptor built through its setters. */
  method ParseEditLesson(timeOf: string -> Option<Time>, a: ArgumentMultimap) returns (r: Result<EditLessonRequest, Error>)
    ensures r == EditLessonParse(timeOf, a)
  {
    var dup := VerifyNoDuplicatePrefixesFor(a, EditLessonPrefixes);
    if dup.Fail? {
      return Err(dup.error);
    }
    var indices := IndexPair(a.preamble);
    if indices.Err? {
      return Err(indices.error);
    }
    var filled, descriptor := FillDescriptor(timeOf, a);
    if filled.Fail? {
      return Err(filled.error);
    }
    if !descriptor.IsAnyFieldEdited() {
      return Err(NotEdited);
    }
    return Ok(EditLessonRequest(indices.value.0, indices.value.1, descriptor.Value()));
  }

  /**
   * The checks come in a fixed order: a repeated prefix first, then a bad
   * index pair with the invalid-format error, then a field's own
   * constraint error, and last the not-edited error.
   */
  lemma EditLessonParseChecks(timeOf: string -> Option<Time>, a: ArgumentMultimap)
    ensures var r := EditLessonParse(timeOf, a);
      var repeated := exists k :: 0 <= k < |EditLessonPrefixes| && |AllValues(a, EditLessonPrefixes[k])| > 1;
      (repeated ==> r == Err(DuplicatePrefixes)) &&
      (!repeated && IndexPair(a.preamble).Err? ==> r == Err(InvalidFormat)) &&
      (!repeated && IndexPair(a.preamble).Ok? && r.Err? ==>
        r.error in {SubjectConstraint, DayConstraint, TimeConstraint, NotEdited})
  {
    LessonEditOfErrors(timeOf, a);
    var repeated, indices, edit := HasRepeatedPrefix(a), IndexPair(a.preamble), LessonEditOf(timeOf, a);
    var r := EditLessonFrom(repeated, indices, edit);
    assert r == EditLessonParse(timeOf, a);
    assert repeated <==> exists k :: 0 <= k < |EditLessonPrefixes| && |AllValues(a, EditLessonPrefixes[k])| > 1;
  }

  /**
   * An accepted command carries the preamble's two indices, in order, and
   * the descriptor the fields give, with some field set.
   */
  lemma EditLessonParseFields(timeOf: string -> Option<Time>, a: ArgumentMultimap)
    requires EditLessonParse(timeOf, a).Ok?
    ensures var q := EditLessonParse(timeOf, a).value;
      IndexPair(a.preamble) == Ok((q.personIndex, q.lessonIndex)) &&
      q.edit != NoLessonEdit &&
      Fills(ParsedSubject(a), q.edit.subject) && Fills(ParsedDay(a), q.edit.day) &&
      Fills(ParsedTime(timeOf, a, StartPrefix), q.edit.start) && Fills(ParsedTime(timeOf, a, EndPrefix), q.edit.end)
  {
  }

  /** With a valid index pair and no prefix at all, the command is refused as editing nothing. */
  lemma EditLessonParseNotEdited(timeOf: string -> Option<Time>, a: ArgumentMultimap)
    requires forall p :: AllValues(a, p) == []
    requires IndexPair(a.preamble).Ok?
    ensures EditLessonParse(timeOf, a) == Err(NotEdited)
  {
    assert AllValues(a, SubjectPrefix) == [] && AllValues(a, DayPrefix) == [];
    assert AllValues(a, StartPrefix) == [] && AllValues(a, EndPrefix) == [];
    NothingGiven(timeOf, a);
    assert !HasRepeatedPrefix(a);
  }

  /** No field given: the descriptor is the empty one. */
  lemma NothingGiven(timeOf: string -> Option<Time>, a: ArgumentMultimap)
    requires GetValue(a, SubjectPrefix).None? && GetValue(a, DayPrefix).None?
    requires GetValue(a, StartPrefix).None? && GetValue(a, EndPrefix).None?
    ensures LessonEditOf(timeOf, a) == Ok(NoLessonEdit)
  {
    assert ParsedSubject(a) == None && ParsedDay(a) == None;
    assert ParsedTime(timeOf, a, StartPrefix) == None && ParsedTime(timeOf, a, EndPrefix) == None;
  }

  /** A preamble holding two one-based indices gives exactly those indices, once no prefix repeats. */
  lemma EditLessonParseIndices(timeOf: string -> Option<Time>, a: ArgumentMultimap, p: string, n: nat, m: nat, q: string)
    requires IsBlank(p) && IsBlank(q) && n < MaxInt && m < MaxInt
    requires a.preamble == p + NatToString(n + 1) + " " + NatToString(m + 1) + q
    requires VerifyNoDuplicatePrefixesFor(a, EditLessonPrefixes).Pass?
    ensures var r := EditLessonParse(timeOf, a);
      r != Err(InvalidFormat) && r != Err(DuplicatePrefixes) &&
      (r.Ok? ==> r.value.personIndex == n && r.value.lessonIndex == m)
  {
    IndexPairRoundTrip(p, n, m, q);
    LessonEditOfErrors(timeOf, a);
  }

  // ---------------------------------------------------------- deleteLesson

  /** The parsed deleteLesson command: the student index, then the lesson index, zero-based. */
  datatype DeleteLessonRequest = DeleteLessonRequest(studentIndex: nat, lessonIndex: nat)

  /** DeleteLessonCommandParser.parse: the whole argument text is the index pair. */
  function DeleteLessonParse(args: string): Result<DeleteLessonRequest, Error> {
    match IndexPair(args)
    case Err(e) => Err(e)
    case Ok((studentIndex, lessonIndex)) => Ok(DeleteLessonRequest(studentIndex, lessonIndex))
  }

  /**
   * Surrounding whitespace never matters; the only error is the
   * invalid-format one; an accepted command has exactly two tokens, the
   * first giving the student index and the second the lesson index; and
   * every pair of indices survives the round trip through its text.
   */
  lemma DeleteLessonParseSpec(p: string, args: string, q: string)
    requires IsBlank(p) && IsBlank(q)
    ensures DeleteLessonParse(p + args + q) == DeleteLessonParse(args)
    ensures DeleteLessonParse(args).Err? ==> DeleteLessonParse(args).error == InvalidFormat
    ensures var parts := Split(Trim(args));
      var r := DeleteLessonParse(args);
      (r.Ok? <==> |parts| == 2 && ParseIndex(parts[0]).Ok? && ParseIndex(parts[1]).Ok?) &&
      (r.Ok? ==> Ok(r.value.studentIndex) == ParseIndex(parts[0]) && Ok(r.value.lessonIndex) == ParseIndex(parts[1]))
  {
    IndexPairSpec(p, args, q);
  }

  lemma DeleteLessonParseRoundTrip(p: string, n: nat, m: nat, q: string)
    requires IsBlank(p) && IsBlank(q) && n < MaxInt && m < MaxInt
    ensures DeleteLessonParse(p + NatToString(n + 1) + " " + NatToString(m + 1) + q) == Ok(DeleteLessonRequest(n, m))
  {
    IndexPairRoundTrip(p, n, m, q);
  }
}
