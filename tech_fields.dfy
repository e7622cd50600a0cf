/**
 * Field extraction of the tech pipeline: the candidate's name, e-mail
 * address, phone number and education, each read from the resume text.
 */
module TechFields {
  import opened Base
  import opened PyStr
  import opened Regex

  // ---------------------------------------------------------------------
  // extract_name
  // ---------------------------------------------------------------------

  /** `^(resume|curriculum vitae|cv)[\s:]*`, matched ignoring case. */
  const LabelRe: Re :=
    Cat(Alt(Lit("resume"), Alt(Lit("curriculum vitae"), Lit("cv"))), Repeat(Union(Space, AnyOf(":")), 0, None))

  /** `re.sub('^' + r, '', line)`: the first match of `r` at the start of
      the line, if there is one, is removed. */
  function DropMatch(line: string, r: Re, ci: bool): (rest: string)
    ensures |rest| <= |line| && rest == line[|line| - |rest|..]
  {
    var es := Ends(line, 0, r, ci);
    if es == [] then line else assert es[0] in es; line[es[0]..]
  }

  /** When the pattern ends in a greedy `cls*`, what is left after a
      removed match does not start with a class character. */
  lemma DropMatchStar(line: string, a: Re, cls: CharClass, ci: bool)
    ensures var rest := DropMatch(line, Cat(a, Repeat(cls, 0, None)), ci);
      |rest| < |line| && rest != [] ==> !ClassHas(cls, rest[0], ci)
  {
    CatStarStops(line, 0, a, cls, ci);
    var es := Ends(line, 0, Cat(a, Repeat(cls, 0, None)), ci);
    var rest := DropMatch(line, Cat(a, Repeat(cls, 0, None)), ci);
    if es != [] && es[0] < |line| {
      assert rest == line[es[0]..];
      assert !ClassHas(cls, line[es[0]], ci);
      assert rest[0] == line[es[0]];
    } else if es != [] {
      assert es[0] in es;
      assert rest == [];
    }
  }

  /** `resume|curriculum vitae|cv` */
  const Labels: Re := Alt(Lit("resume"), Alt(Lit("curriculum vitae"), Lit("cv")))

  /** `[\s:]` */
  const LabelTrail: CharClass := Union(Space, AnyOf(":"))

  /** The substitution applied to the first line: when the line starts with
      a label, the label and the white space and colons after it go. */
  function DropLabel(line: string): (r: string)
    ensures |r| <= |line| && r == line[|line| - |r|..]
  {
    DropMatch(line, LabelRe, true)
  }

  /** What is left after a dropped label never starts with white space
      or a colon. */
  lemma DropLabelRest(line: string)
    ensures |DropLabel(line)| < |line| && DropLabel(line) != [] ==>
      !IsSpace(DropLabel(line)[0]) && DropLabel(line)[0] != ':'
  {
    assert LabelRe == Cat(Labels, Repeat(LabelTrail, 0, None));
    DropMatchStar(line, Labels, LabelTrail, true);
  }

  /** A line that starts with "cv", in any case, loses at least those two
      characters, even when they begin a longer word. */
  lemma DropLabelCv(line: string)
    requires LitAt(line, 0, "cv", true)
    ensures |DropLabel(line)| <= |line| - 2
  {
    assert LabelRe == Cat(Labels, Repeat(LabelTrail, 0, None));
    CatStarFirst(line, 0, Labels, LabelTrail, true);
    var e1 := Ends(line, 0, Lit("resume"), true);
    var e2 := Ends(line, 0, Lit("curriculum vitae"), true);
    var e3 := Ends(line, 0, Lit("cv"), true);
    assert Ends(line, 0, Labels, true) == e1 + (e2 + e3);
    assert e3 == [2];
    assert forall e :: e in e1 + (e2 + e3) ==> e >= 2;
  }

  /** The name test: two to four white-space separated words, each made of
      letters once its dots are removed. */
  predicate LooksLikeName(line: string) {
    var words := SplitWs(line);
    2 <= |words| <= 4 && forall w :: w in words ==> IsAlpha(RemoveChar(w, '.'))
  }

  /** `extract_name`: the first non-blank line without its label, if it
      looks like a name; else the second non-blank line, if that does;
      else the first 50 characters of the former. */
  function ExtractName(text: string): (name: string)
    ensures |name| > 50 ==> LooksLikeName(name)
  {
    var lines := StrippedLines(text);
    if lines == [] then []
    else
      var first := DropLabel(lines[0]);
      if LooksLikeName(first) then first
      else if |lines| > 1 && LooksLikeName(lines[1]) then lines[1]
      else first[..Min(50, |first|)]
  }

  /** A blank text has no name. */
  lemma ExtractNameBlank(text: string)
    ensures IsBlank(text) ==> ExtractName(text) == []
  {
    StrippedLinesSpec(text);
  }

  /** The name is a piece of the text. */
  lemma ExtractNameInText(text: string)
    ensures IsSubstring(ExtractName(text), text)
  {
    var lines := StrippedLines(text);
    if lines == [] {
      assert OccursAt([], text, 0);
    } else {
      StrippedLineAt(text, 0);
      var first := DropLabel(lines[0]);
      SuffixSubstring(lines[0], first);
      SubstringTrans(first, lines[0], text);
      if LooksLikeName(first) {
      } else if |lines| > 1 && LooksLikeName(lines[1]) {
        StrippedLineAt(text, 1);
      } else {
        PrefixSubstring(first, Min(50, |first|));
        SubstringTrans(first[..Min(50, |first|)], first, text);
      }
    }
  }

  /** The name never starts with white space. */
  lemma ExtractNameStart(text: string)
    ensures ExtractName(text) != [] ==> !IsSpace(ExtractName(text)[0])
  {
    var lines := StrippedLines(text);
    if lines != [] {
      StrippedLineAt(text, 0);
      var first := DropLabel(lines[0]);
      DropLabelRest(lines[0]);
      if first != [] && |first| == |lines[0]| {
        assert first == lines[0];
      }
      if LooksLikeName(first) {
      } else if |lines| > 1 && LooksLikeName(lines[1]) {
        StrippedLineAt(text, 1);
      } else if first != [] {
        assert first[..Min(50, |first|)][0] == first[0];
      }
    }
  }

  // ---------------------------------------------------------------------
  // extract_email
  // ---------------------------------------------------------------------

  /** `[A-Za-z0-9._%+-]+` */
  const LocalPart: Re := Repeat(Union(Letter, Union(Digit, AnyOf("._%+-"))), 1, None)

  /** `[A-Za-z0-9.-]+` */
  const DomainPart: Re := Repeat(Union(Letter, Union(Digit, AnyOf(".-"))), 1, None)

  /** `[A-Z|a-z]{2,}`: the class also admits a literal `|`. */
  const TopLevelPart: Re := Repeat(Union(Letter, AnyOf("|")), 2, None)

  /** The parts of `\b[A-Za-z0-9._%+-]+@[A-Za-z0-9.-]+\.[A-Z|a-z]{2,}\b`. */
  const EmailParts: seq<Re> := [Boundary, LocalPart, Lit("@"), DomainPart, Lit("."), TopLevelPart, Boundary]

  const EmailRe: Re := Seq(EmailParts)

  /** `extract_email`: the first match of the pattern, or "". */
  function ExtractEmail(text: string): (email: string) {
    FirstMatch(text, EmailRe, false)
  }

  /** Every piece the pattern accepts holds an `@`. */
  lemma EmailHasAt(text: string, i: nat, j: nat)
    requires Accepts(text, i, j, EmailRe, false)
    ensures '@' in text[i..j]
  {
    var ks := AcceptsSeqElim(text, i, j, EmailParts, false);
    assert Accepts(text, ks[2], ks[3], Lit("@"), false);
    assert ks[1] <= ks[2] && ks[3] <= ks[6];
    assert text[i..j][ks[2] - i] == text[ks[2]] == '@';
  }

  /** The address is "" exactly when no piece of the text matches the
      pattern; otherwise it is a matching piece that starts as far left as
      any can, and it holds an `@`. */
  lemma ExtractEmailSpec(text: string)
    ensures ExtractEmail(text) == [] <==>
      forall i, j :: 0 <= i <= j <= |text| ==> !Accepts(text, i, j, EmailRe, false)
    ensures ExtractEmail(text) != [] ==> '@' in ExtractEmail(text)
    ensures ExtractEmail(text) != [] ==>
      exists i: nat :: OccursAt(ExtractEmail(text), text, i) &&
        Accepts(text, i, i + |ExtractEmail(text)|, EmailRe, false) &&
        forall i', j' :: 0 <= i' < i && i' <= j' <= |text| ==> !Accepts(text, i', j', EmailRe, false)
  {
    SearchSpec(text, EmailRe, false);
    if Found(text, EmailRe, false) {
      var i, j := FirstMatchSpec(text, EmailRe, false);
      EmailHasAt(text, i, j);
      assert OccursAt(ExtractEmail(text), text, i);
    }
  }

  /** The pieces of "x@y.c|m" before the last word, part by part. */
  lemma EmailBarHead(t: string)
    requires t == "x@y.c|m"
    ensures Accepts(t, 0, 0, Boundary, false) && Accepts(t, 0, 1, LocalPart, false)
    ensures Accepts(t, 1, 2, Lit("@"), false) && Accepts(t, 2, 3, DomainPart, false)
  {
    assert ClassHas(Union(Letter, Union(Digit, AnyOf("._%+-"))), t[0], false);
    assert t[1..2] == "@";
    assert ClassHas(Union(Letter, Union(Digit, AnyOf(".-"))), t[2], false);
  }

  /** The pieces of "x@y.c|m" from the dot on: `|` passes as a letter. */
  lemma EmailBarTail(t: string)
    requires t == "x@y.c|m"
    ensures Accepts(t, 3, 4, Lit("."), false) && Accepts(t, 4, 7, TopLevelPart, false)
    ensures Accepts(t, 7, 7, Boundary, false)
  {
    assert t[3..4] == ".";
    assert ClassHas(Union(Letter, AnyOf("|")), t[4], false);
    assert ClassHas(Union(Letter, AnyOf("|")), t[5], false);
    assert ClassHas(Union(Letter, AnyOf("|")), t[6], false);
  }

  /** A `|` in the last word is accepted: "x@y.c|m" is taken as an address. */
  lemma EmailAdmitsBar(t: string)
    requires t == "x@y.c|m"
    ensures Accepts(t, 0, |t|, EmailRe, false)
  {
    EmailBarHead(t);
    EmailBarTail(t);
    var ks: seq<nat> := [0, 0, 1, 2, 3, 4, 7, 7];
    assert forall m :: 0 <= m < |EmailParts| ==> Accepts(t, ks[m], ks[m + 1], EmailParts[m], false);
    AcceptsSeqIntro(t, ks, EmailParts, false);
  }

  // ---------------------------------------------------------------------
  // extract_phone
  // ---------------------------------------------------------------------

  /** `c?` for a one-character class. */
  function Maybe(cls: CharClass): Re {
    Repeat(cls, 0, Some(1))
  }

  /** `\d{lo,hi}` */
  function Digits(lo: nat, hi: nat): Re {
    Repeat(Digit, lo, Some(hi))
  }

  /** `[-.\s]` */
  const PhoneSep: CharClass := Union(AnyOf("-."), Space)

  /** `\+?\d{1,3}[-.\s]?\(?\d{3,5}\)?[-.\s]?\d{3,5}[-.\s]?\d{4}` */
  const Phone1Parts: seq<Re> :=
    [Maybe(AnyOf("+")), Digits(1, 3), Maybe(PhoneSep), Maybe(AnyOf("(")), Digits(3, 5),
     Maybe(AnyOf(")")), Maybe(PhoneSep), Digits(3, 5), Maybe(PhoneSep), Digits(4, 4)]

  /** `\(?\d{3}\)?[-.\s]?\d{3}[-.\s]?\d{4}` */
  const Phone2Parts: seq<Re> :=
    [Maybe(AnyOf("(")), Digits(3, 3), Maybe(AnyOf(")")), Maybe(PhoneSep), Digits(3, 3),
     Maybe(PhoneSep), Digits(4, 4)]

  /** `\+?\d{10,12}` */
  const Phone3Parts: seq<Re> := [Maybe(AnyOf("+")), Digits(10, 12)]

  /** `\d{3}[-.\s]\d{3}[-.\s]\d{4}` */
  const Phone4Parts: seq<Re> :=
    [Digits(3, 3), Repeat(PhoneSep, 1, Some(1)), Digits(3, 3), Repeat(PhoneSep, 1, Some(1)), Digits(4, 4)]

  /** The phone patterns, in the order they are tried. */
  const PhonePatterns: seq<Re> := [Seq(Phone1Parts), Seq(Phone2Parts), Seq(Phone3Parts), Seq(Phone4Parts)]

  /** The first match of the first pattern that matches anywhere, or "". */
  function FirstPatternMatch(text: string, ps: seq<Re>): string {
    if ps == [] then ""
    else if Found(text, ps[0], false) then FirstMatch(text, ps[0], false)
    else FirstPatternMatch(text, ps[1..])
  }

  /** `extract_phone`: the patterns are tried in turn and the first one
      that matches gives the result. */
  method ExtractPhone(text: string) returns (phone: string)
    ensures phone == FirstPatternMatch(text, PhonePatterns)
  {
    var ps := PhonePatterns;
    for k := 0 to |ps|
      invariant FirstPatternMatch(text, ps[k..]) == FirstPatternMatch(text, ps)
    {
      assert ps[k..][1..] == ps[k + 1..];
      var m := Search(text, ps[k], false);
      if m.Some? {
        return text[m.value.start..m.value.end];
      }
    }
    return "";
  }

  /** Ten digits in a row are a match of the second pattern. */
  lemma TenDigitsPhone2(t: string, a: nat)
    requires a + 10 <= |t| && forall k :: a <= k < a + 10 ==> IsDigit(t[k])
    ensures Accepts(t, a, a + 10, Seq(Phone2Parts), false)
  {
    var ks: seq<nat> := [a, a, a + 3, a + 3, a + 3, a + 6, a + 6, a + 10];
    assert forall m :: 0 <= m < |Phone2Parts| ==> Accepts(t, ks[m], ks[m + 1], Phone2Parts[m], false);
    AcceptsSeqIntro(t, ks, Phone2Parts, false);
  }

  /** Whatever the third pattern matches, the second matches somewhere. */
  lemma Phone3Phone2(t: string, i: nat, j: nat)
    requires Accepts(t, i, j, Seq(Phone3Parts), false)
    ensures Found(t, Seq(Phone2Parts), false)
  {
    var ks := AcceptsSeqElim(t, i, j, Phone3Parts, false);
    assert Accepts(t, ks[1], ks[2], Digits(10, 12), false);
    TenDigitsPhone2(t, ks[1]);
    AcceptedFound(t, ks[1], ks[1] + 10, Seq(Phone2Parts), false);
  }

  /** Whatever the fourth pattern matches, the second matches too. */
  lemma Phone4Phone2(t: string, i: nat, j: nat)
    requires Accepts(t, i, j, Seq(Phone4Parts), false)
    ensures Accepts(t, i, j, Seq(Phone2Parts), false)
  {
    var ks := AcceptsSeqElim(t, i, j, Phone4Parts, false);
    var ks2: seq<nat> := [ks[0], ks[0], ks[1], ks[1], ks[2], ks[3], ks[4], ks[5]];
    assert forall m :: 0 <= m < |Phone2Parts| ==> Accepts(t, ks2[m], ks2[m + 1], Phone2Parts[m], false);
    AcceptsSeqIntro(t, ks2, Phone2Parts, false);
  }

  /** The last two patterns never decide: the phone number is the first
      match of the first pattern, else of the second, else "". */
  lemma PhoneFromFirstTwo(text: string)
    ensures FirstPatternMatch(text, PhonePatterns) ==
      if Found(text, Seq(Phone1Parts), false) then FirstMatch(text, Seq(Phone1Parts), false)
      else if Found(text, Seq(Phone2Parts), false) then FirstMatch(text, Seq(Phone2Parts), false)
      else ""
  {
    var ps := PhonePatterns;
    assert ps[1..] == [ps[1], ps[2], ps[3]] && ps[2..] == [ps[2], ps[3]] && ps[3..] == [ps[3]];
    assert ps[1..][1..] == ps[2..] && ps[2..][1..] == ps[3..] && ps[3..][1..] == [];
    if !Found(text, Seq(Phone2Parts), false) {
      SearchSpec(text, Seq(Phone3Parts), false);
      SearchSpec(text, Seq(Phone4Parts), false);
      if Found(text, Seq(Phone3Parts), false) {
        var i, j :| 0 <= i <= j <= |text| && Accepts(text, i, j, Seq(Phone3Parts), false);
        Phone3Phone2(text, i, j);
      }
      if Found(text, Seq(Phone4Parts), false) {
        var i, j :| 0 <= i <= j <= |text| && Accepts(text, i, j, Seq(Phone4Parts), false);
        Phone4Phone2(text, i, j);
        AcceptedFound(text, i, j, Seq(Phone2Parts), false);
      }
      assert FirstPatternMatch(text, ps[3..]) == "";
      assert FirstPatternMatch(text, ps[2..]) == "";
    }
  }

  /** The number of decimal digits in a string. */
  function DigitCount(s: string): nat {
    if s == [] then 0 else (if IsDigit(s[0]) then 1 else 0) + DigitCount(s[1..])
  }

  lemma {:induction false} DigitCountConcat(a: string, b: string)
    ensures DigitCount(a + b) == DigitCount(a) + DigitCount(b)
    decreases |a|
  {
    if a != [] {
      assert (a + b)[0] == a[0] && (a + b)[1..] == a[1..] + b;
      DigitCountConcat(a[1..], b);
    } else {
      assert a + b == b;
    }
  }

  /** Counting over two adjacent pieces adds up. */
  lemma DigitCountSplit(t: string, a: nat, b: nat, c: nat)
    requires a <= b <= c <= |t|
    ensures DigitCount(t[a..c]) == DigitCount(t[a..b]) + DigitCount(t[b..c])
  {
    assert t[a..c] == t[a..b] + t[b..c];
    DigitCountConcat(t[a..b], t[b..c]);
  }

  /** A piece holds at least the digits of any piece inside it. */
  lemma DigitCountCover(t: string, a: nat, b: nat, c: nat, d: nat)
    requires a <= b <= c <= d <= |t|
    ensures DigitCount(t[a..d]) >= DigitCount(t[b..c])
  {
    DigitCountSplit(t, a, b, d);
    DigitCountSplit(t, b, c, d);
  }

  /** A piece matched by `\d{lo,hi}` holds at least lo digits. */
  lemma {:induction false} DigitsCount(t: string, a: nat, b: nat, lo: nat, hi: nat)
    requires Accepts(t, a, b, Digits(lo, hi), false)
    ensures DigitCount(t[a..b]) >= lo
    decreases b - a
  {
    if a < b {
      assert t[a..b][1..] == t[a + 1..b];
      assert Accepts(t, a + 1, b, Digits(if lo == 0 then 0 else lo - 1, hi), false);
      DigitsCount(t, a + 1, b, if lo == 0 then 0 else lo - 1, hi);
    }
  }

  /** A match of the first pattern holds at least eleven digits. */
  lemma Phone1Digits(t: string, i: nat, j: nat)
    requires Accepts(t, i, j, Seq(Phone1Parts), false)
    ensures DigitCount(t[i..j]) >= 11
  {
    var k := AcceptsSeqElim(t, i, j, Phone1Parts, false);
    DigitsCount(t, k[1], k[2], 1, 3);
    DigitsCount(t, k[4], k[5], 3, 5);
    DigitsCount(t, k[7], k[8], 3, 5);
    DigitsCount(t, k[9], k[10], 4, 4);
    DigitCountSplit(t, k[0], k[3], k[10]);
    DigitCountCover(t, k[0], k[1], k[2], k[3]);
    DigitCountSplit(t, k[3], k[6], k[10]);
    DigitCountCover(t, k[3], k[4], k[5], k[6]);
    DigitCountSplit(t, k[6], k[9], k[10]);
    DigitCountCover(t, k[6], k[7], k[8], k[9]);
  }

  /** A match of the second pattern holds at least ten digits. */
  lemma Phone2Digits(t: string, i: nat, j: nat)
    requires Accepts(t, i, j, Seq(Phone2Parts), false)
    ensures DigitCount(t[i..j]) >= 10
  {
    var k := AcceptsSeqElim(t, i, j, Phone2Parts, false);
    DigitsCount(t, k[1], k[2], 3, 3);
    DigitsCount(t, k[4], k[5], 3, 3);
    DigitsCount(t, k[6], k[7], 4, 4);
    DigitCountSplit(t, k[0], k[4], k[7]);
    DigitCountCover(t, k[0], k[1], k[2], k[4]);
    DigitCountSplit(t, k[4], k[5], k[7]);
    DigitCountCover(t, k[5], k[6], k[7], k[7]);
  }

  /** A phone number, when one is found, is a piece of the text with at
      least ten digits. */
  lemma PhoneSpec(text: string)
    ensures FirstPatternMatch(text, PhonePatterns) != [] ==>
      IsSubstring(FirstPatternMatch(text, PhonePatterns), text) &&
      DigitCount(FirstPatternMatch(text, PhonePatterns)) >= 10
  {
    PhoneFromFirstTwo(text);
    if Found(text, Seq(Phone1Parts), false) {
      var i, j := FirstMatchSpec(text, Seq(Phone1Parts), false);
      Phone1Digits(text, i, j);
      SliceSubstring(text, i, j);
    } else if Found(text, Seq(Phone2Parts), false) {
      var i, j := FirstMatchSpec(text, Seq(Phone2Parts), false);
      Phone2Digits(text, i, j);
      SliceSubstring(text, i, j);
    }
  }

  // ---------------------------------------------------------------------
  // extract_education
  // ---------------------------------------------------------------------

  /** The section headers, in priority order. */
  const HeaderWords: seq<string> := ["education", "academic", "qualification"]

  /** `w` occurs in `t` as a whole word. */
  ghost predicate OccursAsWord(t: string, w: string) {
    exists i :: 0 <= i <= |t| && WholeWordAt(t, w, i, false)
  }

  /** Where the education section starts: the leftmost whole-word
      occurrence of the first header in `ws` that occurs at all, or -1. */
  function HeaderStart(lower: string, ws: seq<string>): (start: int)
    ensures -1 <= start <= |lower|
  {
    if ws == [] then -1
    else
      match Search(lower, WordRe(ws[0]), false)
      case Some(m) => m.start
      case None => HeaderStart(lower, ws[1..])
  }

  /** The header chosen is `ws[k]`, found at `start`: it occurs there as a
      whole word, not earlier, and no header before it occurs anywhere. */
  ghost predicate ChosenHeader(lower: string, ws: seq<string>, k: nat, start: nat)
    requires k < |ws| && start <= |lower|
  {
    WholeWordAt(lower, ws[k], start, false) &&
    (forall i :: 0 <= i < start ==> !WholeWordAt(lower, ws[k], i, false)) &&
    forall k' :: 0 <= k' < k ==> !OccursAsWord(lower, ws[k'])
  }

  /** The start is -1 exactly when no header occurs as a whole word, and
      otherwise it is where the first header of the list (not the first in
      the text) occurs first. */
  lemma {:induction false} HeaderStartSpec(lower: string, ws: seq<string>)
    ensures HeaderStart(lower, ws) == -1 <==> forall k :: 0 <= k < |ws| ==> !OccursAsWord(lower, ws[k])
    ensures HeaderStart(lower, ws) >= 0 ==>
      exists k: nat :: k < |ws| && ChosenHeader(lower, ws, k, HeaderStart(lower, ws))
    decreases |ws|
  {
    if ws != [] {
      SearchWord(lower, ws[0], false);
      var m := Search(lower, WordRe(ws[0]), false);
      if m.Some? {
        assert ChosenHeader(lower, ws, 0, m.value.start);
        assert OccursAsWord(lower, ws[0]);
      } else {
        HeaderStartSpec(lower, ws[1..]);
        assert !OccursAsWord(lower, ws[0]);
        assert forall k :: 1 <= k < |ws| ==> ws[k] == ws[1..][k - 1];
        if HeaderStart(lower, ws) >= 0 {
          var start := HeaderStart(lower, ws);
          var k: nat :| k < |ws[1..]| && ChosenHeader(lower, ws[1..], k, start);
          assert ChosenHeader(lower, ws, k + 1, start);
        }
      }
    }
  }

  /** The degree names looked for inside the education section. */
  const DegreeNames: seq<string> :=
    ["Bachelor", "Master", "PhD", "B.Tech", "M.Tech", "B.E", "M.E", "BSc", "MSc", "BCA", "MCA"]

  /** `(Bachelor[^,\n]*|Master[^,\n]*|...|MCA[^,\n]*)`, matched ignoring case:
      a degree name and the rest of its line up to a comma. */
  const DegreeRe: Re := WordsToStop(DegreeNames, ",\n")

  /** The degree names looked for when there is no section header. */
  const BareDegreeNames: seq<string> :=
    ["bachelor", "master", "phd", "b.tech", "m.tech", "b.e", "m.e", "bsc", "msc", "bca", "mca", "diploma"]

  /** `bachelor|master|...|diploma` */
  const BareDegreeAlts: Re := Alts(LitsOf(BareDegreeNames))

  /** `\b(bachelor|master|...|diploma)\b` */
  const BareDegreeRe: Re := Seq([Boundary, BareDegreeAlts, Boundary])

  /** `BareDegreeNames[k]` occurs at i as a whole word, and no degree name
      occurs as a whole word anywhere before i. */
  ghost predicate FirstBareDegreeAt(lower: string, k: nat, i: nat) {
    k < |BareDegreeNames| && i <= |lower| && WholeWordAt(lower, BareDegreeNames[k], i, false) &&
    forall k', i' :: 0 <= k' < |BareDegreeNames| && 0 <= i' < i ==> !WholeWordAt(lower, BareDegreeNames[k'], i', false)
  }

  /** Without a header: the first degree name of the lower-cased text,
      upper-cased, or "". */
  function BareDegree(lower: string): string {
    if Found(lower, BareDegreeRe, false) then Upper(FirstMatch(lower, BareDegreeRe, false)) else ""
  }

  /** With a header, from the window of text after it: the first degree
      and the rest of its line up to a comma, trimmed; else the second
      non-blank line; else the first; else "". */
  function WindowEducation(window: string): string {
    if Found(window, DegreeRe, true) then Strip(FirstMatch(window, DegreeRe, true))
    else
      var lines := StrippedLines(window);
      if |lines| > 1 then lines[1] else if lines != [] then lines[0] else ""
  }

  /** The 500 characters from the header on (fewer at the end of the text). */
  function Window(text: string, start: nat): string
    requires start <= |text|
  {
    text[start..Min(start + 500, |text|)]
  }

  /** What `extract_education` returns. */
  function Education(text: string): string {
    var lower := Lower(text);
    var start := HeaderStart(lower, HeaderWords);
    if start == -1 then BareDegree(lower) else WindowEducation(Window(text, start))
  }

  /** `extract_education`: the headers are searched in priority order until
      one is found; then the answer comes from the window after it, or from
      a bare degree name when no header is found. */
  method ExtractEducation(text: string) returns (education: string)
    ensures education == Education(text)
  {
    var textLower := Lower(text);
    var keywords := HeaderWords;
    var start := -1;
    var k := 0;
    while k < |keywords|
      invariant 0 <= k <= |keywords| && start == -1
      invariant HeaderStart(textLower, keywords[k..]) == HeaderStart(textLower, keywords)
    {
      assert keywords[k..][1..] == keywords[k + 1..];
      var m := Search(textLower, WordRe(keywords[k]), false);
      if m.Some? {
        start := m.value.start;
        break;
      }
      k := k + 1;
    }
    if start == -1 {
      var found := Search(textLower, BareDegreeRe, false);
      if found.Some? {
        return Upper(textLower[found.value.start..found.value.end]);
      }
      return "";
    }
    var educationText := text[start..Min(start + 500, |text|)];
    var degree := Search(educationText, DegreeRe, true);
    if degree.Some? {
      return Strip(educationText[degree.value.start..degree.value.end]);
    }
    var lines := StrippedLines(educationText);
    education := if |lines| > 1 then lines[1] else if lines != [] then lines[0] else "";
  }

  /** A piece accepted by the bare-degree pattern is a degree name that
      occurs there as a whole word. */
  lemma BareDegreeAccepts(lower: string, i: nat, j: nat) returns (k: nat)
    requires Accepts(lower, i, j, BareDegreeRe, false)
    ensures k < |BareDegreeNames| && WholeWordAt(lower, BareDegreeNames[k], i, false)
    ensures lower[i..j] == BareDegreeNames[k]
  {
    var alts := BareDegreeAlts;
    var ks := AcceptsSeqElim(lower, i, j, [Boundary, alts, Boundary], false);
    assert Accepts(lower, ks[0], ks[1], Boundary, false);
    assert Accepts(lower, ks[2], ks[3], Boundary, false);
    k := AltsElim(lower, ks[1], ks[2], LitsOf(BareDegreeNames), false);
    assert Accepts(lower, ks[1], ks[2], Lit(BareDegreeNames[k]), false);
  }

  /** A whole-word degree name is accepted by the bare-degree pattern. */
  lemma BareDegreeIntro(lower: string, k: nat, i: nat)
    requires k < |BareDegreeNames| && i <= |lower| && WholeWordAt(lower, BareDegreeNames[k], i, false)
    ensures Accepts(lower, i, i + |BareDegreeNames[k]|, BareDegreeRe, false)
  {
    var alts := BareDegreeAlts;
    var j := i + |BareDegreeNames[k]|;
    assert Accepts(lower, i, j, LitsOf(BareDegreeNames)[k], false);
    AltsIntro(lower, i, j, LitsOf(BareDegreeNames), false, k);
    var ks: seq<nat> := [i, i, j, j];
    assert forall m :: 0 <= m < 3 ==> Accepts(lower, ks[m], ks[m + 1], [Boundary, alts, Boundary][m], false);
    AcceptsSeqIntro(lower, ks, [Boundary, alts, Boundary], false);
  }

  /** Without a header, the answer is "" exactly when no degree name occurs
      as a whole word, and otherwise the degree name at the leftmost
      whole-word occurrence of any of them, upper-cased. */
  lemma BareDegreeSpec(lower: string)
    ensures BareDegree(lower) == [] <==>
      forall k :: 0 <= k < |BareDegreeNames| ==> !OccursAsWord(lower, BareDegreeNames[k])
    ensures BareDegree(lower) != [] ==>
      exists k :: 0 <= k < |BareDegreeNames| && BareDegree(lower) == Upper(BareDegreeNames[k])
    ensures BareDegree(lower) != [] ==>
      exists k: nat, i: nat :: FirstBareDegreeAt(lower, k, i) && BareDegree(lower) == Upper(BareDegreeNames[k])
  {
    assert forall k :: 0 <= k < |BareDegreeNames| ==> BareDegreeNames[k] != [];
    if Found(lower, BareDegreeRe, false) {
      var i, j := FirstMatchSpec(lower, BareDegreeRe, false);
      var k := BareDegreeAccepts(lower, i, j);
      assert OccursAsWord(lower, BareDegreeNames[k]);
      forall k', i' | 0 <= k' < |BareDegreeNames| && 0 <= i' < i
        ensures !WholeWordAt(lower, BareDegreeNames[k'], i', false)
      {
        if WholeWordAt(lower, BareDegreeNames[k'], i', false) {
          BareDegreeIntro(lower, k', i');
        }
      }
      assert FirstBareDegreeAt(lower, k, i);
    } else {
      forall k | 0 <= k < |BareDegreeNames| ensures !OccursAsWord(lower, BareDegreeNames[k]) {
        if OccursAsWord(lower, BareDegreeNames[k]) {
          var i :| 0 <= i <= |lower| && WholeWordAt(lower, BareDegreeNames[k], i, false);
          BareDegreeIntro(lower, k, i);
          AcceptedFound(lower, i, i + |BareDegreeNames[k]|, BareDegreeRe, false);
        }
      }
    }
  }

  /** Every degree name starts with a letter. */
  lemma DegreeNamesStartLetter()
    ensures forall k :: 0 <= k < |DegreeNames| ==> DegreeNames[k] != [] && IsLetter(DegreeNames[k][0])
  {
  }

  /** A degree match starts with a letter. */
  lemma DegreeMatchStart(window: string, i: nat, j: nat)
    requires Accepts(window, i, j, DegreeRe, true)
    ensures i < j && IsLetter(window[i])
  {
    DegreeNamesStartLetter();
    WordsToStopStart(window, i, j, DegreeNames, ",\n");
  }

  /** The trimmed degree piece is a non-empty piece of the window. */
  lemma DegreePieceSpec(window: string)
    requires Found(window, DegreeRe, true)
    ensures IsSubstring(Strip(FirstMatch(window, DegreeRe, true)), window)
    ensures Strip(FirstMatch(window, DegreeRe, true)) != [] && !IsBlank(window)
  {
    var i, j := FirstMatchSpec(window, DegreeRe, true);
    DegreeMatchStart(window, i, j);
    var piece := window[i..j];
    assert piece[0] == window[i] && !IsSpace(piece[0]);
    StripSpec(piece);
    SliceSubstring(piece, StripStart(piece), StripEnd(piece));
    SliceSubstring(window, i, j);
    SubstringTrans(Strip(piece), piece, window);
  }

  /** The line fallback is a line of the window, and "" only when the
      window is blank. */
  lemma LineFallbackSpec(window: string)
    ensures var lines := StrippedLines(window);
      var r := if |lines| > 1 then lines[1] else if lines != [] then lines[0] else "";
      IsSubstring(r, window) && (r == [] <==> IsBlank(window))
  {
    var lines := StrippedLines(window);
    StrippedLinesSpec(window);
    if |lines| > 1 {
      assert lines[1] in lines;
    } else if lines != [] {
      assert lines[0] in lines;
    } else {
      assert OccursAt([], window, 0);
    }
  }

  /** With a header, the answer is a piece of the window, and it is "" only
      when the window is blank. */
  lemma WindowEducationSpec(window: string)
    ensures IsSubstring(WindowEducation(window), window)
    ensures WindowEducation(window) == [] <==> IsBlank(window)
  {
    if Found(window, DegreeRe, true) {
      DegreePieceSpec(window);
    } else {
      LineFallbackSpec(window);
    }
  }

  /** The degree names hold neither ',' nor a newline, and those two are
      no letters. */
  lemma DegreeNamesNoStops()
    ensures forall c :: c in ",\n" ==> !IsLetter(c)
    ensures forall k :: 0 <= k < |DegreeNames| ==> forall c :: c in DegreeNames[k] ==> c !in ",\n"
  {
  }

  /** With a header, the window's answer is decided by the degree names:
      when one occurs, in any case, it is the trimmed piece from the
      leftmost occurrence of any of them up to the first ',' or newline
      after it (or the end of the window); when none occurs, it is the
      second non-blank line, else the first, else "". */
  lemma WindowEducationChoice(window: string)
    ensures (exists i :: 0 <= i <= |window| && LitsAt(window, i, DegreeNames)) ==>
      exists i: nat, j: nat :: UpToStop(window, DegreeNames, ",\n", i, j) && WindowEducation(window) == Strip(window[i..j])
    ensures (forall i :: 0 <= i <= |window| ==> !LitsAt(window, i, DegreeNames)) ==>
      var lines := StrippedLines(window);
      WindowEducation(window) == if |lines| > 1 then lines[1] else if lines != [] then lines[0] else ""
  {
    DegreeNamesNoStops();
    WordsToStopSearch(window, DegreeNames, ",\n");
  }

  /** Every header word starts with a letter. */
  lemma HeaderWordsStartLetter()
    ensures forall k :: 0 <= k < |HeaderWords| ==> HeaderWords[k] != [] && IsLetter(HeaderWords[k][0])
  {
  }

  /** The window after a header starts with the header word, so it is not
      blank. */
  lemma HeaderWindowNotBlank(text: string)
    requires HeaderStart(Lower(text), HeaderWords) >= 0
    ensures !IsBlank(Window(text, HeaderStart(Lower(text), HeaderWords)))
  {
    var lower := Lower(text);
    var start := HeaderStart(lower, HeaderWords);
    HeaderStartSpec(lower, HeaderWords);
    var k: nat :| k < |HeaderWords| && ChosenHeader(lower, HeaderWords, k, start);
    var w := HeaderWords[k];
    HeaderWordsStartLetter();
    assert LitAt(lower, start, w, false);
    assert lower[start..start + |w|][0] == w[0];
    assert IsLetter(LowerChar(text[start]));
    assert Window(text, start)[0] == text[start];
  }

  /** A piece of a string is no longer than the string. */
  lemma SubstringLength(a: string, s: string)
    requires IsSubstring(a, s)
    ensures |a| <= |s|
  {
  }

  /** `extract_education`: with a header, the answer is a non-empty piece
      of the 500 characters from the header on: the trimmed degree piece
      when a degree name occurs there, else a non-blank line of it; without
      a header, "" when no degree name occurs as a whole word, else the
      leftmost one, upper-cased. */
  lemma EducationSpec(text: string)
    ensures var start := HeaderStart(Lower(text), HeaderWords);
      start >= 0 ==>
        IsSubstring(Education(text), Window(text, start)) && |Education(text)| <= 500 &&
        (Education(text) == [] <==> IsBlank(Window(text, start))) &&
        Education(text) != []
    ensures var start := HeaderStart(Lower(text), HeaderWords);
      start >= 0 ==>
        var w := Window(text, start);
        ((exists i :: 0 <= i <= |w| && LitsAt(w, i, DegreeNames)) ==>
          exists i: nat, j: nat :: UpToStop(w, DegreeNames, ",\n", i, j) && Education(text) == Strip(w[i..j])) &&
        ((forall i :: 0 <= i <= |w| ==> !LitsAt(w, i, DegreeNames)) ==>
          var lines := StrippedLines(w);
          Education(text) == if |lines| > 1 then lines[1] else if lines != [] then lines[0] else "")
    ensures HeaderStart(Lower(text), HeaderWords) == -1 ==>
      Education(text) == [] || exists k :: 0 <= k < |BareDegreeNames| && Education(text) == Upper(BareDegreeNames[k])
    ensures HeaderStart(Lower(text), HeaderWords) == -1 ==>
      (Education(text) == [] <==>
        forall k :: 0 <= k < |BareDegreeNames| ==> !OccursAsWord(Lower(text), BareDegreeNames[k])) &&
      (Education(text) != [] ==>
        exists k: nat, i: nat :: FirstBareDegreeAt(Lower(text), k, i) && Education(text) == Upper(BareDegreeNames[k]))
  {
    var start := HeaderStart(Lower(text), HeaderWords);
    if start >= 0 {
      WindowEducationSpec(Window(text, start));
      WindowEducationChoice(Window(text, start));
      HeaderWindowNotBlank(text);
      SubstringLength(Education(text), Window(text, start));
    } else {
      BareDegreeSpec(Lower(text));
    }
  }
}
