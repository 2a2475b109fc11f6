/**
 * Day of the week (model/person/Day.java): one of seven English names,
 * stored normalised to a capital first letter and lower-case rest, with an
 * ordinal used for sorting.
 */
module Days {
  import opened Wrappers
  import opened JavaText

  /** A day holds the normalised name it was built from. */
  datatype Day = Day(name: string)

  const ValidDays: seq<string> :=
    ["Monday", "Tuesday", "Wednesday", "Thursday", "Friday", "Saturday", "Sunday"]

  /** capitalize: first character upper case, the rest lower case. */
  function Capitalize(s: string): string
    requires |s| >= 1
  {
    UpperString(s[..1]) + ToLowerCase(s[1..])
  }

  /** normalizeDayString. */
  function NormalizeDayString(s: string): string
    requires |s| >= 1
  {
    Capitalize(ToLowerCase(s))
  }

  /** getNumericValue: Monday to Sunday are 1 to 7, anything else 8. */
  function NumericValue(d: Day): int {
    Ordinal(ToLowerCase(d.name))
  }

  /** The switch inside getNumericValue, on the lower-cased name. */
  function Ordinal(l: string): int {
    if l == "monday" then 1
    else if l == "tuesday" then 2
    else if l == "wednesday" then 3
    else if l == "thursday" then 4
    else if l == "friday" then 5
    else if l == "saturday" then 6
    else if l == "sunday" then 7
    else 8
  }

  // ------------------------------------------------------------ as written

  /** isValidDay as written: some day name equalsIgnoreCase the input. */
  predicate IsValidDayAsWritten(s: string) {
    exists k :: 0 <= k < |ValidDays| && EqualsIgnoreCase(ValidDays[k], s)
  }

  /** The constructor as written: the isValidDay guard, then normalisation. */
  function NewDayAsWritten(s: string): (r: Option<Day>)
    ensures r.Some? <==> IsValidDayAsWritten(s)
  {
    if IsValidDayAsWritten(s) then
      GuardNonEmpty(s);
      Some(Day(NormalizeDayString(s)))
    else None
  }

  lemma GuardNonEmpty(s: string)
    requires IsValidDayAsWritten(s)
    ensures |s| >= 1
  {
    var k :| 0 <= k < |ValidDays| && EqualsIgnoreCase(ValidDays[k], s);
  }

  /**
   * equalsIgnoreCase upper-cases U+017F (long s) to 'S', so "tueſday" passes
   * the guard; normalisation lower-cases it and keeps the long s, so the
   * stored day is no day name and its ordinal is the fallback 8.
   */
  lemma LongSAcceptedAsWritten(s: string, t: string)
    requires s == "tue\U{017F}day" && t == "Tue\U{017F}day"
    ensures NewDayAsWritten(s) == Some(Day(t))
    ensures t !in ValidDays
    ensures NumericValue(Day(t)) == 8
  {
    LongSGuard(s);
    LongSNormalized(s, t);
  }

  lemma LongSGuard(s: string)
    requires s == "tue\U{017F}day"
    ensures IsValidDayAsWritten(s)
  {
    assert EqualsIgnoreCase(ValidDays[1], s);
  }

  lemma LongSNormalized(s: string, t: string)
    requires s == "tue\U{017F}day" && t == "Tue\U{017F}day"
    ensures NormalizeDayString(s) == t && NumericValue(Day(t)) == 8
  {
    assert '\U{0130}' !in s && LowerString(s) == s;
    NormalizeOfLowerCase(s);
    assert UpperString(s[..1]) + s[1..] == t;
    assert '\U{0130}' !in t && LowerString(t) == s;
    NumericValueOfLowerCase(t, s);
  }

  /** A text already in lower case is normalised by upper-casing its first character. */
  lemma NormalizeOfLowerCase(s: string)
    requires |s| >= 1 && '\U{0130}' !in s && LowerString(s) == s
    ensures NormalizeDayString(s) == UpperString(s[..1]) + s[1..]
  {
    ToLowerCaseWithoutDottedI(s);
    assert LowerString(s[1..]) == s[1..];
    CapitalizeOfLowerCase(s);
  }

  /** Capitalizing a text whose tail is in lower case upper-cases its first character only. */
  lemma CapitalizeOfLowerCase(l: string)
    requires |l| >= 1 && '\U{0130}' !in l[1..] && LowerString(l[1..]) == l[1..]
    ensures Capitalize(l) == UpperString(l[..1]) + l[1..]
  {
    ToLowerCaseWithoutDottedI(l[1..]);
  }

  /** The ordinal of a name without U+0130 is read off its character-wise lower case. */
  lemma NumericValueOfLowerCase(t: string, l: string)
    requires '\U{0130}' !in t && LowerString(t) == l
    ensures NumericValue(Day(t)) == Ordinal(l)
  {
    ToLowerCaseWithoutDottedI(t);
  }

  /**
   * equalsIgnoreCase lower-cases U+0130 (capital I with dot above) to 'i',
   * so "fr\U{0130}day" passes the guard; toLowerCase turns it into 'i' and a
   * combining dot, so the stored day is seven characters long, no day
   * name, and its ordinal is the fallback 8.
   */
  lemma DottedCapitalIAcceptedAsWritten(s: string, t: string)
    requires s == "fr\U{0130}day" && t == "Fri\U{0307}day"
    ensures NewDayAsWritten(s) == Some(Day(t))
    ensures t !in ValidDays
    ensures NumericValue(Day(t)) == 8
  {
    DottedCapitalIGuard(s);
    DottedCapitalINormalized(s, "fri\U{0307}day", t);
    DottedCapitalIOrdinal("fri\U{0307}day", t);
  }

  lemma DottedCapitalIGuard(s: string)
    requires s == "fr\U{0130}day"
    ensures IsValidDayAsWritten(s)
  {
    assert EqualsIgnoreCase(ValidDays[4], s);
  }

  lemma DottedCapitalINormalized(s: string, l: string, t: string)
    requires s == "fr\U{0130}day" && l == "fri\U{0307}day" && t == "Fri\U{0307}day"
    ensures NormalizeDayString(s) == t
  {
    DottedCapitalILowerCase(s, l);
    NormalizeThroughLowerCase(s, l);
    DottedCapitalICapitalized(l, t);
  }

  /** Normalisation only sees the input through its toLowerCase. */
  lemma NormalizeThroughLowerCase(s: string, l: string)
    requires |s| >= 1 && ToLowerCase(s) == l
    ensures |l| >= 1 && NormalizeDayString(s) == Capitalize(l)
  {
  }

  lemma DottedCapitalICapitalized(l: string, t: string)
    requires l == "fri\U{0307}day" && t == "Fri\U{0307}day"
    ensures Capitalize(l) == t
  {
    DottedCapitalITail(l);
    CapitalizeOfLowerCase(l);
    assert UpperString(l[..1]) + l[1..] == t;
  }

  lemma DottedCapitalITail(l: string)
    requires l == "fri\U{0307}day"
    ensures |l| >= 1 && '\U{0130}' !in l[1..] && LowerString(l[1..]) == l[1..]
  {
  }

  lemma DottedCapitalIOrdinal(l: string, t: string)
    requires l == "fri\U{0307}day" && t == "Fri\U{0307}day"
    ensures NumericValue(Day(t)) == 8
  {
    assert '\U{0130}' !in t && LowerString(t) == l;
    NumericValueOfLowerCase(t, l);
  }

  lemma DottedCapitalILowerCase(s: string, l: string)
    requires s == "fr\U{0130}day" && l == "fri\U{0307}day"
    ensures ToLowerCase(s) == l
  {
    var a, c := s[..2], s[3..];
    assert s == a + "\U{0130}" + c;
    LowerCaseAroundDottedI(a, c);
    assert LowerString(a) + "i\U{0307}" + LowerString(c) == l;
  }

  /** toLowerCase of a text with one U+0130 in it: the character-wise lower case around "i\U{0307}". */
  lemma LowerCaseAroundDottedI(a: string, c: string)
    requires '\U{0130}' !in a && '\U{0130}' !in c
    ensures ToLowerCase(a + "\U{0130}" + c) == LowerString(a) + "i\U{0307}" + LowerString(c)
  {
    ToLowerCaseConcat(a + "\U{0130}", c);
    ToLowerCaseConcat(a, "\U{0130}");
    ToLowerCaseWithoutDottedI(a);
    ToLowerCaseWithoutDottedI(c);
    assert ToLowerCase("\U{0130}") == "i\U{0307}";
  }

  // ------------------------------------------------------------- corrected

  /**
   * isValidDay, corrected: the input's toLowerCase is the lower case of one
   * of the seven names. This is the ignore-case match that normalisation
   * can undo.
   */
  predicate IsValidDay(s: string) {
    exists k :: 0 <= k < |ValidDays| && LowerString(ValidDays[k]) == ToLowerCase(s)
  }

  /** The Day constructor with the corrected guard. */
  function NewDay(s: string): (r: Option<Day>)
    ensures r.Some? <==> IsValidDay(s)
    ensures r.Some? ==> r.value.name in ValidDays && ToLowerCase(r.value.name) == ToLowerCase(s)
  {
    if IsValidDay(s) then
      NormalizeValid(s);
      Some(Day(NormalizeDayString(s)))
    else None
  }

  /** Normalising an input the corrected guard accepts gives the day name it matched. */
  lemma NormalizeValid(s: string)
    requires IsValidDay(s)
    ensures |s| >= 1 && NormalizeDayString(s) in ValidDays
    ensures ToLowerCase(NormalizeDayString(s)) == ToLowerCase(s)
  {
    var v := MatchedDayName(s);
    DayNameLowerCase(v);
  }

  /** The day name the corrected guard matched, and the input's normal form. */
  lemma MatchedDayName(s: string) returns (v: string)
    requires IsValidDay(s)
    ensures v in ValidDays && LowerString(v) == ToLowerCase(s)
    ensures |s| >= 1 && NormalizeDayString(s) == v
  {
    var k :| 0 <= k < |ValidDays| && LowerString(ValidDays[k]) == ToLowerCase(s);
    v := ValidDays[k];
    NormalizeCanonical(s, v);
  }

  lemma NormalizeCanonical(s: string, v: string)
    requires v in ValidDays && LowerString(v) == ToLowerCase(s)
    ensures |s| >= 1 && NormalizeDayString(s) == v
  {
    DayNamesCapitalized(v);
    NormalizeOfCapitalized(s, v);
  }

  /** An input whose toLowerCase is the lower case of a capitalized word normalises to that word. */
  lemma NormalizeOfCapitalized(s: string, v: string)
    requires IsCapitalizedWord(v) && LowerString(v) == ToLowerCase(s)
    ensures |s| >= 1 && NormalizeDayString(s) == v
  {
    assert s != [] by {
      assert s == [] ==> ToLowerCase(s) == [];
    }
    CapitalizeOfLower(v);
  }

  lemma LowerStringAscii(v: string)
    requires v in ValidDays
    ensures IsAscii(LowerString(v))
  {
    DayNameAscii(v);
  }

  /** A day name has no U+0130, so its toLowerCase is the character-wise lower case. */
  lemma DayNameLowerCase(v: string)
    requires v in ValidDays
    ensures ToLowerCase(v) == LowerString(v) && IsAscii(LowerString(v))
  {
    DayNameAscii(v);
    AsciiToLowerCase(v);
  }

  /** A capital ASCII letter followed by small ASCII letters, as every day name is. */
  predicate IsCapitalizedWord(v: string) {
    |v| >= 1 && 'A' <= v[0] <= 'Z' && forall i :: 1 <= i < |v| ==> 'a' <= v[i] <= 'z'
  }

  lemma DayNamesCapitalized(v: string)
    requires v in ValidDays
    ensures IsCapitalizedWord(v)
  {
  }

  /** Capitalizing the lower case of a capitalized word gives the word back. */
  lemma CapitalizeOfLower(v: string)
    requires IsCapitalizedWord(v)
    ensures Capitalize(LowerString(v)) == v
  {
    var l := LowerString(v);
    var c := Capitalize(l);
    var u := UpperString(l[..1]);
    var w := LowerString(l[1..]);
    assert IsAscii(l[1..]) by {
      forall i | 0 <= i < |l[1..]| ensures l[1..][i] < '\U{0080}' {
        assert l[1..][i] == LowerChar(v[i + 1]);
      }
    }
    AsciiToLowerCase(l[1..]);
    assert c == u + w;
    assert u == v[..1];
    forall i | 0 <= i < |w| ensures w[i] == v[i + 1] {
      assert w[i] == LowerChar(l[i + 1]);
    }
    assert w == v[1..];
    assert v == v[..1] + v[1..];
  }

  /** The ordinal of each day name is its position in the week, counted from 1. */
  lemma NumericValueOfValid(k: nat)
    requires k < |ValidDays|
    ensures NumericValue(Day(ValidDays[k])) == k + 1
  {
    DayNameLowerCase(ValidDays[k]);
    OrdinalOfLowerName(k);
  }

  lemma OrdinalOfLowerName(k: nat)
    requires k < |ValidDays|
    ensures Ordinal(LowerString(ValidDays[k])) == k + 1
  {
    var l := LowerString(ValidDays[k]);
    if k == 0 { assert l == "monday"; }
    else if k == 1 { assert l == "tuesday"; }
    else if k == 2 { assert l == "wednesday"; }
    else if k == 3 { assert l == "thursday"; }
    else if k == 4 { assert l == "friday"; }
    else if k == 5 { assert l == "saturday"; }
    else { assert l == "sunday"; }
  }

  /** Every constructed day has an ordinal from 1 to 7: the fallback 8 is unreachable. */
  lemma NewDayOrdinal(s: string)
    requires NewDay(s).Some?
    ensures 1 <= NumericValue(NewDay(s).value) <= 7
  {
    var k :| 0 <= k < |ValidDays| && NewDay(s).value.name == ValidDays[k];
    NumericValueOfValid(k);
  }

  /** "mOnDaY" is accepted and stored as "Monday". */
  lemma MixedCaseMonday()
    ensures NewDay("mOnDaY") == Some(Day("Monday"))
  {
    assert '\U{0130}' !in "mOnDaY";
    ToLowerCaseWithoutDottedI("mOnDaY");
    assert LowerString(ValidDays[0]) == ToLowerCase("mOnDaY");
    NormalizeCanonical("mOnDaY", ValidDays[0]);
  }

  /** A string that is no day name in any case, such as "mondayy", is rejected. */
  lemma MisspeltDayRejected()
    ensures NewDay("mondayy") == None
  {
    assert '\U{0130}' !in "mondayy";
    ToLowerCaseWithoutDottedI("mondayy");
    forall k | 0 <= k < |ValidDays|
      ensures LowerString(ValidDays[k]) != ToLowerCase("mondayy")
    {
      assert |LowerString(ValidDays[k])| != 7 || LowerString(ValidDays[k])[0] != 'm';
    }
  }

  /** A stored day name is a valid input that normalises to itself. */
  lemma NormalizeIdempotent(s: string)
    requires NewDay(s).Some?
    ensures NewDay(NewDay(s).value.name) == NewDay(s)
  {
    var d := NewDay(s).value;
    var k :| 0 <= k < |ValidDays| && d.name == ValidDays[k];
    DayNameLowerCase(d.name);
    NormalizeCanonical(d.name, ValidDays[k]);
  }

  /** Two inputs give the same day exactly when they have the same toLowerCase. */
  lemma NewDayEqualIff(a: string, b: string)
    requires NewDay(a).Some? && NewDay(b).Some?
    ensures NewDay(a) == NewDay(b) <==> ToLowerCase(a) == ToLowerCase(b)
  {
    var da, db := NewDay(a).value, NewDay(b).value;
    if ToLowerCase(a) == ToLowerCase(b) {
      var k :| 0 <= k < |ValidDays| && LowerString(ValidDays[k]) == ToLowerCase(a);
      NormalizeCanonical(a, ValidDays[k]);
      NormalizeCanonical(b, ValidDays[k]);
    }
  }

  /** No two day names are equal ignoring case; they differ in length or first letter. */
  lemma DayNamesDistinct(j: nat, k: nat)
    requires j < |ValidDays| && k < |ValidDays| && j != k
    ensures LowerString(ValidDays[j]) != LowerString(ValidDays[k])
    ensures !EqualsIgnoreCase(ValidDays[j], ValidDays[k])
  {
    var a, b := ValidDays[j], ValidDays[k];
    assert |a| != |b| || !CharsEqualIgnoreCase(a[0], b[0]);
    assert |a| != |b| || LowerChar(a[0]) != LowerChar(b[0]);
  }

  /** On valid days the ordinal is injective: equal ordinals mean equal days. */
  lemma NumericValueInjective(a: Day, b: Day)
    requires a.name in ValidDays && b.name in ValidDays
    ensures NumericValue(a) == NumericValue(b) <==> a == b
  {
    var j :| 0 <= j < |ValidDays| && a.name == ValidDays[j];
    var k :| 0 <= k < |ValidDays| && b.name == ValidDays[k];
    NumericValueOfValid(j);
    NumericValueOfValid(k);
  }

  /** Between stored day names, equalsIgnoreCase is plain equality. */
  lemma ValidNamesIgnoreCase(a: Day, b: Day)
    requires a.name in ValidDays && b.name in ValidDays
    ensures EqualsIgnoreCase(a.name, b.name) <==> a == b
  {
    var j :| 0 <= j < |ValidDays| && a.name == ValidDays[j];
    var k :| 0 <= k < |ValidDays| && b.name == ValidDays[k];
    if j != k {
      DayNamesDistinct(j, k);
    }
  }

  /** The corrected guard accepts nothing the original one rejects. */
  lemma CorrectedGuardNarrower(s: string)
    ensures IsValidDay(s) ==> IsValidDayAsWritten(s)
  {
    if IsValidDay(s) {
      var k :| 0 <= k < |ValidDays| && LowerString(ValidDays[k]) == ToLowerCase(s);
      var v := ValidDays[k];
      LowerStringAscii(v);
      AsciiLowerCase(s);
      assert |v| == |s|;
      forall i | 0 <= i < |v| ensures CharsEqualIgnoreCase(v[i], s[i]) {
        assert LowerChar(v[i]) == LowerString(v)[i] == LowerString(s)[i] == LowerChar(s[i]);
        SameLowerCharIgnoreCase(v[i], s[i]);
      }
    }
  }

  lemma DayNameAscii(v: string)
    requires v in ValidDays
    ensures IsAscii(v)
  {
    DayNamesCapitalized(v);
  }

  /** On ASCII input the original guard accepts nothing the corrected one rejects. */
  lemma AsciiGuardWider(s: string)
    requires IsAscii(s)
    ensures IsValidDayAsWritten(s) ==> IsValidDay(s)
  {
    if IsValidDayAsWritten(s) {
      var k :| 0 <= k < |ValidDays| && EqualsIgnoreCase(ValidDays[k], s);
      DayNameAscii(ValidDays[k]);
      AsciiIgnoreCaseLower(ValidDays[k], s);
      AsciiToLowerCase(s);
    }
  }

  /** On ASCII input the corrected constructor and the original one agree. */
  lemma CorrectedAgreesOnAscii(s: string)
    requires IsAscii(s)
    ensures NewDay(s) == NewDayAsWritten(s)
  {
    CorrectedGuardNarrower(s);
    AsciiGuardWider(s);
  }
}
