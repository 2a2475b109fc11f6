/**
 * The few java.lang.String operations the application relies on:
 * trim, whitespace collapsing (replaceAll("\\s+", " ")), splitting on
 * whitespace runs (split("\\s+")), case mapping, equalsIgnoreCase, and
 * decimal rendering of a natural number, and String.format called
 * without arguments.
 */
module JavaText {
  import opened Wrappers

  /** Characters String.trim strips: every code point up to U+0020. */
  predicate IsTrimmable(c: char) { c <= ' ' }

  /** The characters matched by the regular-expression class \s. */
  predicate IsRegexSpace(c: char) {
    c == ' ' || c == '\t' || c == '\n' || c == '\U{000B}' || c == '\U{000C}' || c == '\r'
  }

  lemma RegexSpaceIsTrimmable(c: char)
    ensures IsRegexSpace(c) ==> IsTrimmable(c)
  {
  }

  predicate NoRegexSpace(s: string) {
    forall k :: 0 <= k < |s| ==> !IsRegexSpace(s[k])
  }

  // ---------------------------------------------------------------- trim

  /** Drops leading trimmable characters: the result is the longest suffix that starts with a visible character. */
  function TrimStart(s: string): (r: string)
    ensures |r| <= |s| && r == s[|s| - |r|..]
    ensures forall k :: 0 <= k < |s| - |r| ==> IsTrimmable(s[k])
    ensures r == [] || !IsTrimmable(r[0])
    decreases |s|
  {
    if |s| > 0 && IsTrimmable(s[0]) then TrimStart(s[1..]) else s
  }

  /** Drops trailing trimmable characters. */
  function TrimEnd(s: string): (r: string)
    ensures |r| <= |s| && r == s[..|r|]
    ensures forall k :: |r| <= k < |s| ==> IsTrimmable(s[k])
    ensures r == [] || !IsTrimmable(r[|r| - 1])
    decreases |s|
  {
    if |s| > 0 && IsTrimmable(s[|s| - 1]) then TrimEnd(s[..|s| - 1]) else s
  }

  /** String.trim. */
  function Trim(s: string): string {
    TrimStart(TrimEnd(s))
  }

  /** A trimmed string neither starts nor ends with a trimmable character. */
  predicate IsTrimmed(s: string) {
    s == [] || (!IsTrimmable(s[0]) && !IsTrimmable(s[|s| - 1]))
  }

  /** Only trimmable characters. */
  predicate IsBlank(s: string) {
    forall k :: 0 <= k < |s| ==> IsTrimmable(s[k])
  }

  lemma TrimStartOfVisible(s: string)
    requires s == [] || !IsTrimmable(s[0])
    ensures TrimStart(s) == s
  {
  }

  lemma TrimEndOfVisible(s: string)
    requires s == [] || !IsTrimmable(s[|s| - 1])
    ensures TrimEnd(s) == s
  {
  }

  /** The result of trim is trimmed, and trimming it again changes nothing. */
  lemma TrimIsTrimmed(s: string)
    ensures IsTrimmed(Trim(s))
    ensures Trim(Trim(s)) == Trim(s)
  {
    var e := TrimEnd(s);
    var t := TrimStart(e);
    if t != [] {
      assert t == e[|e| - |t|..];
      assert t[|t| - 1] == e[|e| - 1];
    }
    TrimEndOfVisible(t);
    TrimStartOfVisible(t);
  }

  /** A trimmed string is its own trim. */
  lemma TrimOfTrimmed(s: string)
    requires IsTrimmed(s)
    ensures Trim(s) == s
  {
    TrimEndOfVisible(s);
    TrimStartOfVisible(s);
  }

  lemma {:induction false} TrimStartPadded(p: string, s: string)
    requires IsBlank(p)
    ensures TrimStart(p + s) == TrimStart(s)
    decreases |p|
  {
    if p == [] {
      assert p + s == s;
    } else {
      assert (p + s)[0] == p[0];
      assert (p + s)[1..] == p[1..] + s;
      TrimStartPadded(p[1..], s);
    }
  }

  lemma {:induction false} TrimEndPadded(s: string, q: string)
    requires IsBlank(q)
    ensures TrimEnd(s + q) == TrimEnd(s)
    decreases |q|
  {
    if q == [] {
      assert s + q == s;
    } else {
      assert (s + q)[|s + q| - 1] == q[|q| - 1];
      assert (s + q)[..|s + q| - 1] == s + q[..|q| - 1];
      TrimEndPadded(s, q[..|q| - 1]);
    }
  }

  /** Trimmable padding on either side never changes the result of trim. */
  lemma TrimPadded(p: string, s: string, q: string)
    requires IsBlank(p) && IsBlank(q)
    ensures Trim(p + s + q) == Trim(s)
  {
    TrimEndPadded(p + s, q);
    var e := TrimEnd(s);
    if e == [] {
      // s is blank, so p + s is blank as well
      assert IsBlank(p + s);
      AllBlankTrimEnd(p + s);
    } else {
      assert TrimEnd(p + s) == p + e by {
        assert p + s == (p + e) + s[|e|..];
        TrimEndPadded(p + e, s[|e|..]);
        TrimEndOfVisible(p + e);
      }
      TrimStartPadded(p, e);
    }
  }

  lemma AllBlankTrimEnd(s: string)
    requires IsBlank(s)
    ensures TrimEnd(s) == []
  {
  }

  // ---------------------------------------------------- whitespace runs

  /** Drops a leading run of \s characters: the longest suffix that does not start with one. */
  function DropSpaces(s: string): (r: string)
    ensures |r| <= |s| && r == s[|s| - |r|..]
    ensures forall k :: 0 <= k < |s| - |r| ==> IsRegexSpace(s[k])
    ensures r == [] || !IsRegexSpace(r[0])
    decreases |s|
  {
    if |s| > 0 && IsRegexSpace(s[0]) then DropSpaces(s[1..]) else s
  }

  /** replaceAll("\\s+", " "): every maximal run of \s characters becomes one space. */
  function Collapse(s: string): string
    decreases |s|
  {
    if s == [] then []
    else if IsRegexSpace(s[0]) then " " + Collapse(DropSpaces(s))
    else [s[0]] + Collapse(s[1..])
  }

  /** No two adjacent \s characters, and every \s character is a plain space. */
  predicate SingleSpaced(s: string) {
    (forall k :: 0 <= k < |s| ==> IsRegexSpace(s[k]) ==> s[k] == ' ')
    && (forall k :: 0 <= k < |s| - 1 ==> !(IsRegexSpace(s[k]) && IsRegexSpace(s[k + 1])))
  }

  lemma {:induction false} CollapseShape(s: string)
    ensures SingleSpaced(Collapse(s))
    ensures Collapse(s) == [] <==> s == []
    ensures s != [] ==> (IsRegexSpace(Collapse(s)[0]) <==> IsRegexSpace(s[0]))
    decreases |s|
  {
    if s == [] {
    } else if IsRegexSpace(s[0]) {
      var d := DropSpaces(s);
      CollapseShape(d);
      var c := Collapse(d);
      assert Collapse(s) == " " + c;
      assert c != [] ==> !IsRegexSpace(c[0]);
    } else {
      CollapseShape(s[1..]);
    }
  }

  lemma SingleSpacedSlice(s: string, i: nat, j: nat)
    requires i <= j <= |s| && SingleSpaced(s)
    ensures SingleSpaced(s[i..j])
  {
    var t := s[i..j];
    forall k | 0 <= k < |t| - 1
      ensures !(IsRegexSpace(t[k]) && IsRegexSpace(t[k + 1]))
    {
      assert t[k] == s[i + k] && t[k + 1] == s[i + k + 1];
    }
  }

  /** Collapsing then trimming, as done to names and subject names. */
  function NormalizeSpaces(s: string): string {
    Trim(Collapse(s))
  }

  /**
   * A normalised string has no leading or trailing whitespace and no
   * doubled whitespace.
   */
  lemma NormalizeSpacesShape(s: string)
    ensures IsTrimmed(NormalizeSpaces(s)) && SingleSpaced(NormalizeSpaces(s))
  {
    CollapseShape(s);
    TrimIsTrimmed(Collapse(s));
    SingleSpacedTrim(Collapse(s));
  }

  lemma SingleSpacedTrimEnd(c: string)
    requires SingleSpaced(c)
    ensures SingleSpaced(TrimEnd(c))
  {
    var e := TrimEnd(c);
    SingleSpacedSlice(c, 0, |e|);
    assert c[0..|e|] == e;
  }

  lemma SingleSpacedTrimStart(e: string)
    requires SingleSpaced(e)
    ensures SingleSpaced(TrimStart(e))
  {
    var t := TrimStart(e);
    SingleSpacedSlice(e, |e| - |t|, |e|);
    assert e[|e| - |t|..|e|] == t;
  }

  lemma SingleSpacedTrim(c: string)
    requires SingleSpaced(c)
    ensures SingleSpaced(Trim(c))
  {
    SingleSpacedTrimEnd(c);
    SingleSpacedTrimStart(TrimEnd(c));
  }

  lemma {:induction false} CollapseOfSingleSpaced(s: string)
    requires SingleSpaced(s)
    ensures Collapse(s) == s
    decreases |s|
  {
    if s != [] {
      SingleSpacedSlice(s, 1, |s|);
      CollapseOfSingleSpaced(s[1..]);
      if IsRegexSpace(s[0]) {
        SingleSpaceDropped(s);
      }
    }
  }

  /** In a single-spaced string a leading \s character is a lone space. */
  lemma SingleSpaceDropped(s: string)
    requires SingleSpaced(s) && s != [] && IsRegexSpace(s[0])
    ensures s[0] == ' ' && DropSpaces(s) == s[1..]
  {
    assert |s| > 1 ==> !IsRegexSpace(s[1]);
  }

  lemma NormalizeSpacesIdempotent(s: string)
    ensures NormalizeSpaces(NormalizeSpaces(s)) == NormalizeSpaces(s)
  {
    var r := NormalizeSpaces(s);
    NormalizeSpacesShape(s);
    CollapseOfSingleSpaced(r);
    TrimOfTrimmed(r);
  }

  // ------------------------------------------------------------ splitting

  /**
   * The pieces between maximal runs of \s characters, empty pieces at the
   * two ends included; split("\\s+") is this with trailing empty pieces dropped.
   */
  function Pieces(s: string): (r: seq<string>)
    ensures |r| >= 1
    decreases |s|
  {
    if s == [] then [""]
    else if IsRegexSpace(s[0]) then [""] + Pieces(DropSpaces(s))
    else
      var rest := Pieces(s[1..]);
      [[s[0]] + rest[0]] + rest[1..]
  }

  function DropTrailingEmpty(r: seq<string>): seq<string>
    decreases |r|
  {
    if r != [] && r[|r| - 1] == "" then DropTrailingEmpty(r[..|r| - 1]) else r
  }

  /** String.split("\\s+"). An empty input gives one empty token. */
  function Split(s: string): seq<string> {
    if s == [] then [""] else DropTrailingEmpty(Pieces(s))
  }

  lemma {:induction false} PiecesNoSpace(s: string)
    ensures forall k :: 0 <= k < |Pieces(s)| ==> NoRegexSpace(Pieces(s)[k])
    decreases |s|
  {
    if s == [] {
    } else if IsRegexSpace(s[0]) {
      PiecesNoSpace(DropSpaces(s));
    } else {
      var rest := Pieces(s[1..]);
      PiecesNoSpace(s[1..]);
      var r := Pieces(s);
      forall k | 0 <= k < |r| ensures NoRegexSpace(r[k]) {
        if k == 0 {
          assert NoRegexSpace(rest[0]);
        } else {
          assert r[k] == rest[k];
        }
      }
    }
  }

  lemma PiecesFirst(s: string)
    ensures Pieces(s)[0] != "" <==> (s != [] && !IsRegexSpace(s[0]))
  {
  }

  lemma {:induction false} PiecesInner(s: string)
    ensures forall k :: 0 < k < |Pieces(s)| - 1 ==> Pieces(s)[k] != ""
    decreases |s|
  {
    if s == [] {
    } else if IsRegexSpace(s[0]) {
      var d := DropSpaces(s);
      PiecesInner(d);
      PiecesFirst(d);
    } else {
      PiecesInner(s[1..]);
    }
  }

  lemma {:induction false} PiecesLast(s: string)
    ensures Pieces(s)[|Pieces(s)| - 1] != "" <==> (s != [] && !IsRegexSpace(s[|s| - 1]))
    decreases |s|
  {
    if s == [] {
    } else if IsRegexSpace(s[0]) {
      PiecesLast(DropSpaces(s));
      PiecesLastSpace(s);
    } else {
      PiecesLast(s[1..]);
      PiecesLastWord(s);
    }
  }

  /** After a leading run of \s the last piece is the last piece of the rest. */
  lemma PiecesLastSpace(s: string)
    requires s != [] && IsRegexSpace(s[0])
    requires var d := DropSpaces(s);
      Pieces(d)[|Pieces(d)| - 1] != "" <==> (d != [] && !IsRegexSpace(d[|d| - 1]))
    ensures Pieces(s)[|Pieces(s)| - 1] != "" <==> !IsRegexSpace(s[|s| - 1])
  {
    var d := DropSpaces(s);
    assert Pieces(s) == [""] + Pieces(d);
    if d != [] {
      assert d[|d| - 1] == s[|s| - 1];
    }
  }

  /** A leading visible character joins the first piece of the rest. */
  lemma PiecesLastWord(s: string)
    requires s != [] && !IsRegexSpace(s[0])
    requires var t := s[1..];
      Pieces(t)[|Pieces(t)| - 1] != "" <==> (t != [] && !IsRegexSpace(t[|t| - 1]))
    ensures Pieces(s)[|Pieces(s)| - 1] != "" <==> !IsRegexSpace(s[|s| - 1])
  {
    var t := s[1..];
    var rest := Pieces(t);
    var r := [[s[0]] + rest[0]] + rest[1..];
    assert Pieces(s) == r;
    assert r[|r| - 1] == if |rest| == 1 then [s[0]] + rest[0] else rest[|rest| - 1];
    if t != [] {
      assert s[|s| - 1] == t[|t| - 1];
      if |rest| == 1 {
        PiecesSingle(t);
      }
    }
  }

  lemma {:induction false} PiecesSingle(s: string)
    requires |Pieces(s)| == 1
    ensures Pieces(s)[0] == s
    decreases |s|
  {
    if s != [] {
      assert !IsRegexSpace(s[0]);
      PiecesSingle(s[1..]);
    }
  }

  lemma DropTrailingOfNonEmptyLast(r: seq<string>)
    requires r != [] && r[|r| - 1] != ""
    ensures DropTrailingEmpty(r) == r
  {
  }

  /**
   * Splitting a non-empty trimmed string on whitespace runs gives only
   * non-empty tokens without whitespace in them.
   */
  lemma SplitTrimmed(s: string)
    requires IsTrimmed(s) && s != []
    ensures Split(s) == Pieces(s)
    ensures forall k :: 0 <= k < |Split(s)| ==> Split(s)[k] != "" && NoRegexSpace(Split(s)[k])
  {
    RegexSpaceIsTrimmable(s[0]);
    RegexSpaceIsTrimmable(s[|s| - 1]);
    PiecesNoSpace(s);
    PiecesInner(s);
    PiecesFirst(s);
    PiecesLast(s);
    DropTrailingOfNonEmptyLast(Pieces(s));
  }

  /** Words joined by single spaces, as String.join(" ", words). */
  function JoinSpaced(ws: seq<string>): string
    decreases |ws|
  {
    if |ws| == 0 then "" else if |ws| == 1 then ws[0] else ws[0] + " " + JoinSpaced(ws[1..])
  }

  /** Words that split can produce: non-empty and free of \s. */
  predicate IsWordList(ws: seq<string>) {
    forall k :: 0 <= k < |ws| ==> ws[k] != "" && NoRegexSpace(ws[k])
  }

  /** A whitespace-free prefix joins the first piece of what follows it. */
  lemma {:induction false} PiecesOfWordPrefix(x: string, t: string)
    requires NoRegexSpace(x) && (t == [] || IsRegexSpace(t[0]))
    ensures Pieces(x + t) == [x + Pieces(t)[0]] + Pieces(t)[1..]
    decreases |x|
  {
    if x == [] {
      assert x + t == t;
      assert Pieces(t) == [Pieces(t)[0]] + Pieces(t)[1..];
    } else {
      var s := x + t;
      assert s[0] == x[0] && !IsRegexSpace(s[0]);
      assert s[1..] == x[1..] + t;
      PiecesOfWordPrefix(x[1..], t);
      assert [x[0]] + (x[1..] + Pieces(t)[0]) == x + Pieces(t)[0];
    }
  }

  /** Splitting words joined by single spaces gives the words back. */
  lemma {:induction false} PiecesOfJoin(ws: seq<string>)
    requires |ws| >= 1 && IsWordList(ws)
    ensures Pieces(JoinSpaced(ws)) == ws
    decreases |ws|
  {
    if |ws| == 1 {
      PiecesOfWordPrefix(ws[0], "");
      assert ws[0] + "" == ws[0];
    } else {
      PiecesOfJoin(ws[1..]);
      PiecesOfJoinStep(ws);
    }
  }

  /** One more word joined in front adds one piece in front. */
  lemma PiecesOfJoinStep(ws: seq<string>)
    requires |ws| >= 2 && IsWordList(ws)
    requires Pieces(JoinSpaced(ws[1..])) == ws[1..]
    ensures Pieces(JoinSpaced(ws)) == ws
  {
    var rest := JoinSpaced(ws[1..]);
    assert rest != [] && !IsRegexSpace(rest[0]) by {
      assert Pieces(rest)[0] == ws[1];
      PiecesFirst(rest);
    }
    var t := " " + rest;
    SpaceThenPieces(rest);
    PiecesOfWordPrefix(ws[0], t);
    assert JoinSpaced(ws) == ws[0] + t;
    assert ws[0] + "" == ws[0];
    assert [ws[0]] + ws[1..] == ws;
  }

  lemma SpaceThenPieces(rest: string)
    requires rest != [] && !IsRegexSpace(rest[0])
    ensures Pieces(" " + rest) == [""] + Pieces(rest)
  {
    assert DropSpaces(" " + rest) == rest;
  }

  /** split("\\s+") undoes String.join(" ", …) on a non-empty list of words. */
  lemma SplitOfJoin(ws: seq<string>)
    requires |ws| >= 1 && IsWordList(ws)
    ensures Split(JoinSpaced(ws)) == ws
  {
    PiecesOfJoin(ws);
    DropTrailingOfNonEmptyLast(ws);
  }

  // ---------------------------------------------------------- case mapping

  /**
   * Character.toUpperCase on the characters whose case mapping meets ASCII:
   * the ASCII letters, and U+0131 (dotless i) and U+017F (long s), whose
   * upper cases are 'I' and 'S'. Letters of other scripts and accented
   * letters are treated as having no case.
   */
  function UpperChar(c: char): char {
    if 'a' <= c <= 'z' then (c as int - 32) as char
    else if c == '\U{0131}' then 'I'
    else if c == '\U{017F}' then 'S'
    else c
  }

  /**
   * Character.toLowerCase on the same characters: the ASCII letters, and
   * U+0130 (capital I with dot above) and U+212A (Kelvin sign), whose
   * lower cases are 'i' and 'k'.
   */
  function LowerChar(c: char): char {
    if 'A' <= c <= 'Z' then (c as int + 32) as char
    else if c == '\U{0130}' then 'i'
    else if c == '\U{212A}' then 'k'
    else c
  }

  function UpperString(s: string): (r: string)
    ensures |r| == |s| && forall k :: 0 <= k < |s| ==> r[k] == UpperChar(s[k])
  {
    seq(|s|, k requires 0 <= k < |s| => UpperChar(s[k]))
  }

  function LowerString(s: string): (r: string)
    ensures |r| == |s| && forall k :: 0 <= k < |s| ==> r[k] == LowerChar(s[k])
  {
    seq(|s|, k requires 0 <= k < |s| => LowerChar(s[k]))
  }

  /**
   * String.toLowerCase in the default locale, taken to be neither Turkish,
   * Azeri nor Lithuanian: each character's lower case, except that U+0130
   * becomes two characters, 'i' and U+0307 (combining dot above).
   */
  function ToLowerCase(s: string): (r: string)
    ensures |r| >= |s|
    decreases |s|
  {
    if s == [] then [] else LowerCaseOf(s[0]) + ToLowerCase(s[1..])
  }

  /** Without U+0130, toLowerCase is the character-wise lower case. */
  lemma {:induction false} ToLowerCaseWithoutDottedI(s: string)
    requires '\U{0130}' !in s
    ensures ToLowerCase(s) == LowerString(s)
    decreases |s|
  {
    if s != [] {
      ToLowerCaseWithoutDottedI(s[1..]);
      assert LowerString(s) == [LowerChar(s[0])] + LowerString(s[1..]);
    }
  }

  /** The lower case of one character, as toLowerCase writes it. */
  function LowerCaseOf(c: char): string {
    if c == '\U{0130}' then "i\U{0307}" else [LowerChar(c)]
  }

  /** toLowerCase distributes over concatenation. */
  lemma {:induction false} ToLowerCaseConcat(a: string, b: string)
    ensures ToLowerCase(a + b) == ToLowerCase(a) + ToLowerCase(b)
    decreases |a|
  {
    if a == [] {
      assert a + b == b;
    } else {
      assert (a + b)[1..] == a[1..] + b;
      ToLowerCaseConcat(a[1..], b);
    }
  }

  /** A lower case that is all ASCII comes from a string without U+0130, character by character. */
  lemma {:induction false} AsciiLowerCase(s: string)
    requires IsAscii(ToLowerCase(s))
    ensures '\U{0130}' !in s && ToLowerCase(s) == LowerString(s)
    decreases |s|
  {
    if s != [] {
      var t := ToLowerCase(s);
      var h := LowerCaseOf(s[0]);
      assert t[|h| - 1] == h[|h| - 1];
      assert ToLowerCase(s[1..]) == t[|h|..];
      AsciiLowerCase(s[1..]);
      assert s == [s[0]] + s[1..];
      ToLowerCaseWithoutDottedI(s);
    }
  }

  /** On ASCII strings toLowerCase and the character-wise lower case agree, and stay ASCII. */
  lemma AsciiToLowerCase(s: string)
    requires IsAscii(s)
    ensures ToLowerCase(s) == LowerString(s) && IsAscii(LowerString(s))
  {
    assert forall k :: 0 <= k < |s| ==> s[k] != '\U{0130}';
    ToLowerCaseWithoutDottedI(s);
  }

  /** The per-character test of String.equalsIgnoreCase. */
  predicate CharsEqualIgnoreCase(a: char, b: char) {
    a == b || UpperChar(a) == UpperChar(b) || LowerChar(UpperChar(a)) == LowerChar(UpperChar(b))
  }

  /** String.equalsIgnoreCase: same length, and every position equal ignoring case. */
  predicate EqualsIgnoreCase(a: string, b: string) {
    |a| == |b| && forall k :: 0 <= k < |a| ==> CharsEqualIgnoreCase(a[k], b[k])
  }

  predicate IsAscii(s: string) {
    forall k :: 0 <= k < |s| ==> s[k] < '\U{0080}'
  }

  /** On ASCII characters, ignoring case means having the same lower case. */
  lemma CharsEqualIgnoreCaseAscii(a: char, b: char)
    requires a < '\U{0080}' && b < '\U{0080}'
    ensures CharsEqualIgnoreCase(a, b) <==> LowerChar(a) == LowerChar(b)
  {
  }

  /** Characters with the same lower case are equal ignoring case. */
  lemma SameLowerCharIgnoreCase(a: char, b: char)
    requires LowerChar(a) == LowerChar(b)
    ensures CharsEqualIgnoreCase(a, b)
  {
  }

  /** Between ASCII strings, equalsIgnoreCase means equal lower case. */
  lemma AsciiIgnoreCaseLower(a: string, b: string)
    requires IsAscii(a) && IsAscii(b) && EqualsIgnoreCase(a, b)
    ensures LowerString(a) == LowerString(b)
  {
    forall i | 0 <= i < |a| ensures LowerChar(a[i]) == LowerChar(b[i]) {
      CharsEqualIgnoreCaseAscii(a[i], b[i]);
    }
  }

  lemma EqualsIgnoreCaseReflexive(a: string)
    ensures EqualsIgnoreCase(a, a)
  {
  }

  lemma EqualsIgnoreCaseSymmetric(a: string, b: string)
    ensures EqualsIgnoreCase(a, b) <==> EqualsIgnoreCase(b, a)
  {
  }

  /** The character equalsIgnoreCase applies its three tests to reach. */
  function Fold(c: char): char {
    LowerChar(UpperChar(c))
  }

  /** Each of the three tests implies the last, so ignoring case means folding alike. */
  lemma CharsEqualIgnoreCaseFold(a: char, b: char)
    ensures CharsEqualIgnoreCase(a, b) <==> Fold(a) == Fold(b)
  {
  }

  /** equalsIgnoreCase is transitive, hence an equivalence relation. */
  lemma EqualsIgnoreCaseTransitive(a: string, b: string, c: string)
    requires EqualsIgnoreCase(a, b) && EqualsIgnoreCase(b, c)
    ensures EqualsIgnoreCase(a, c)
  {
    forall k | 0 <= k < |a| ensures CharsEqualIgnoreCase(a[k], c[k]) {
      CharsEqualIgnoreCaseFold(a[k], b[k]);
      CharsEqualIgnoreCaseFold(b[k], c[k]);
      CharsEqualIgnoreCaseFold(a[k], c[k]);
    }
  }

  // ------------------------------------------------------- decimal digits

  function DigitChar(d: nat): char
    requires d < 10
  {
    ('0' as int + d) as char
  }

  /** Integer.toString on a natural number: its decimal digits, most significant first. */
  function NatToString(n: nat): (r: string)
    ensures |r| >= 1 && '0' <= r[0] <= '9'
    decreases n
  {
    if n < 10 then [DigitChar(n)] else NatToString(n / 10) + [DigitChar(n % 10)]
  }

  predicate IsDigit(c: char) { '0' <= c <= '9' }

  /** The value of a string of ASCII digits. */
  function DigitsValue(s: string): int
    requires forall k :: 0 <= k < |s| ==> IsDigit(s[k])
    decreases |s|
  {
    if s == [] then 0 else DigitsValue(s[..|s| - 1]) * 10 + (s[|s| - 1] as int - '0' as int)
  }

  /** Rendering a number and reading its digits back gives the number. */
  lemma {:induction false} NatToStringRoundTrip(n: nat)
    ensures forall k :: 0 <= k < |NatToString(n)| ==> IsDigit(NatToString(n)[k])
    ensures DigitsValue(NatToString(n)) == n
    decreases n
  {
    if n >= 10 {
      NatToStringRoundTrip(n / 10);
      var s := NatToString(n);
      assert s[..|s| - 1] == NatToString(n / 10);
    }
  }

  // ------------------------------------------- String.format, no arguments

  /** The number of consecutive ASCII digits in s from position i. */
  function DigitRun(s: string, i: nat): (n: nat)
    requires i <= |s|
    ensures i + n <= |s| && forall k :: i <= k < i + n ==> IsDigit(s[k])
    ensures i + n < |s| ==> !IsDigit(s[i + n])
    decreases |s| - i
  {
    if i < |s| && IsDigit(s[i]) then 1 + DigitRun(s, i + 1) else 0
  }

  /** Formatter's justification: text narrower than the width is padded with spaces. */
  function Justify(t: string, width: int, left: bool): (r: string)
    ensures |r| == if width <= |t| then |t| else width
  {
    if width <= |t| then t
    else if left then t + seq(width - |t|, _ => ' ')
    else seq(width - |t|, _ => ' ') + t
  }

  function Prefixed(p: string, o: Option<string>): Option<string> {
    match o
    case Some(t) => Some(p + t)
    case None => None
  }

  /**
   * String.format with no arguments, as java.util.Formatter reads its
   * format string. Text outside format specifiers is copied. "%%" is a
   * percent sign and "%n" the line separator, taken to be "\n". A '%'
   * followed by a width that does not start with 0, optionally after the
   * flag '-', and a closing '%' is a percent sign justified to that width.
   * Every other '%' makes the formatter throw, which is None: "%" at the
   * end, an unknown conversion, a conversion that needs an argument, any
   * other flag, a precision, or a width beyond Integer.MAX_VALUE.
   */
  function FormatNoArgs(s: string): Option<string>
    decreases |s|
  {
    if s == [] then Some([])
    else if s[0] != '%' then Prefixed([s[0]], FormatNoArgs(s[1..]))
    else if |s| >= 2 && s[1] == '%' then Prefixed("%", FormatNoArgs(s[2..]))
    else if |s| >= 2 && s[1] == 'n' then Prefixed("\n", FormatNoArgs(s[2..]))
    else
      var left := |s| >= 2 && s[1] == '-';
      var w := if left then 2 else 1;
      var n := DigitRun(s, w);
      if n == 0 || s[w] == '0' || w + n == |s| || s[w + n] != '%' then None
      else
        var width := DigitsValue(s[w..w + n]);
        if width > 0x7FFF_FFFF then None
        else Prefixed(Justify("%", width, left), FormatNoArgs(s[w + n + 1..]))
  }

  /** A text without '%' is its own formatting. */
  lemma {:induction false} FormatNoArgsPlain(s: string)
    requires '%' !in s
    ensures FormatNoArgs(s) == Some(s)
    decreases |s|
  {
    if s != [] {
      FormatNoArgsPlain(s[1..]);
      assert s == [s[0]] + s[1..];
    }
  }

  /** Every '%' doubled: the text a format string must hold to print t verbatim. */
  function EscapePercent(t: string): string
    decreases |t|
  {
    if t == [] then []
    else (if t[0] == '%' then "%%" else [t[0]]) + EscapePercent(t[1..])
  }

  /** Formatting the escaped text gives the text back. */
  lemma {:induction false} FormatEscapedPercent(t: string)
    ensures FormatNoArgs(EscapePercent(t)) == Some(t)
    decreases |t|
  {
    if t != [] {
      var e := EscapePercent(t);
      FormatEscapedPercent(t[1..]);
      if t[0] == '%' {
        assert e[..2] == "%%" && e[2..] == EscapePercent(t[1..]);
      } else {
        assert e[1..] == EscapePercent(t[1..]);
      }
      assert t == [t[0]] + t[1..];
    }
  }

  /** A lone '%' before a space, as in "100% sure", makes the formatter throw. */
  lemma PercentBeforeSpaceFails(p: string, q: string)
    requires '%' !in p
    ensures FormatNoArgs(p + "% " + q) == None
    decreases |p|
  {
    if p == [] {
      assert (p + "% " + q)[..2] == "% ";
    } else {
      PercentBeforeSpaceFails(p[1..], q);
      assert (p + "% " + q)[1..] == p[1..] + "% " + q;
    }
  }
}
