/**
 * The Python `str` operations the resume pipelines rely on, restricted to
 * ASCII: character classes, `lower`/`upper`, `strip`, `isupper`, `isalpha`,
 * `title`, `capitalize`, `split()`, `split(c)`, `join`, `endswith`,
 * `replace` and `os.path.splitext`.
 */
module PyStr {

  // ---------------------------------------------------------------------
  // Characters
  // ---------------------------------------------------------------------

  /** `str.isspace` on ASCII: the six usual white-space characters and the
      four information separators 0x1C-0x1F, which Python also treats as
      white space (in `strip`, `split()` and the regex class `\s`). */
  predicate IsSpace(c: char) {
    c == ' ' || c == '\t' || c == '\n' || c == '\r' || c == '\U{0B}' || c == '\U{0C}'
    || ('\U{1C}' <= c <= '\U{1F}')
  }

  predicate IsUpperChar(c: char) { 'A' <= c <= 'Z' }

  predicate IsLowerChar(c: char) { 'a' <= c <= 'z' }

  /** A cased character, in Python's sense, on ASCII. */
  predicate IsLetter(c: char) { IsUpperChar(c) || IsLowerChar(c) }

  predicate IsDigit(c: char) { '0' <= c <= '9' }

  /** The characters of the regex class `\w` (ASCII part). */
  predicate IsWordChar(c: char) { IsLetter(c) || IsDigit(c) || c == '_' }

  function LowerChar(c: char): (d: char)
    ensures IsLetter(d) == IsLetter(c) && !IsUpperChar(d)
    ensures !IsLetter(c) ==> d == c
  {
    if IsUpperChar(c) then (c as int + 32) as char else c
  }

  function UpperChar(c: char): (d: char)
    ensures IsLetter(d) == IsLetter(c) && !IsLowerChar(d)
    ensures !IsLetter(c) ==> d == c
  {
    if IsLowerChar(c) then (c as int - 32) as char else c
  }

  lemma CaseFold(c: char)
    ensures LowerChar(UpperChar(c)) == LowerChar(c)
    ensures LowerChar(LowerChar(c)) == LowerChar(c)
    ensures UpperChar(LowerChar(c)) == UpperChar(c)
    ensures UpperChar(UpperChar(c)) == UpperChar(c)
  {
  }

  // ---------------------------------------------------------------------
  // Case mapping and case predicates
  // ---------------------------------------------------------------------

  /** `str.lower()` */
  function Lower(s: string): (r: string)
    ensures |r| == |s|
    ensures forall k {:trigger r[k]} :: 0 <= k < |s| ==> r[k] == LowerChar(s[k])
  {
    seq(|s|, k requires 0 <= k < |s| => LowerChar(s[k]))
  }

  /** `str.upper()` */
  function Upper(s: string): (r: string)
    ensures |r| == |s|
    ensures forall k :: 0 <= k < |s| ==> r[k] == UpperChar(s[k])
  {
    seq(|s|, k requires 0 <= k < |s| => UpperChar(s[k]))
  }

  /** `str.isupper()`: at least one cased character and no lower-case one. */
  predicate IsUpper(s: string) {
    (exists k :: 0 <= k < |s| && IsUpperChar(s[k])) && forall k :: 0 <= k < |s| ==> !IsLowerChar(s[k])
  }

  /** `str.isalpha()`: non-empty and letters only. */
  predicate IsAlpha(s: string) {
    |s| > 0 && forall k :: 0 <= k < |s| ==> IsLetter(s[k])
  }

  /** The character `str.title()` puts at position k: a letter that follows
      a non-letter (or starts the string) is upper-cased, any other letter
      lower-cased, and every other character kept. */
  function TitleAt(s: string, k: nat): char
    requires k < |s|
  {
    if !IsLetter(s[k]) then s[k]
    else if k > 0 && IsLetter(s[k - 1]) then LowerChar(s[k])
    else UpperChar(s[k])
  }

  /** `str.title()` */
  function Title(s: string): (r: string)
    ensures |r| == |s|
    ensures forall k :: 0 <= k < |s| ==> r[k] == TitleAt(s, k)
  {
    seq(|s|, k requires 0 <= k < |s| => TitleAt(s, k))
  }

  /** Title-casing changes only the case of letters. */
  lemma TitleCase(s: string)
    ensures Lower(Title(s)) == Lower(s)
    ensures forall k :: 0 <= k < |s| ==> IsLetter(Title(s)[k]) == IsLetter(s[k])
    ensures forall k :: 0 <= k < |s| ==> (IsSpace(Title(s)[k]) <==> IsSpace(s[k]))
  {
    forall k | 0 <= k < |s| ensures LowerChar(Title(s)[k]) == LowerChar(s[k]) {
      CaseFold(s[k]);
    }
  }

  /** `str.title()` is idempotent. */
  lemma TitleIdempotent(s: string)
    ensures Title(Title(s)) == Title(s)
  {
    var t := Title(s);
    TitleCase(s);
    forall k | 0 <= k < |s| ensures TitleAt(t, k) == t[k] {
      CaseFold(s[k]);
    }
  }

  /** `str.capitalize()`: first character upper-cased, the rest lower-cased. */
  function Capitalize(s: string): (r: string)
    ensures |r| == |s|
    ensures s != [] ==> r[0] == UpperChar(s[0]) && r[1..] == Lower(s[1..])
  {
    if s == [] then [] else [UpperChar(s[0])] + Lower(s[1..])
  }

  // ---------------------------------------------------------------------
  // Stripping
  // ---------------------------------------------------------------------

  /** Index of the first non-white-space character of `s` at or after `i`,
      or `|s|`. */
  function SkipSpaces(s: string, i: nat): (n: nat)
    requires i <= |s|
    ensures i <= n <= |s| && (n < |s| ==> !IsSpace(s[n]))
    ensures forall k :: i <= k < n ==> IsSpace(s[k])
    decreases |s| - i
  {
    if i < |s| && IsSpace(s[i]) then SkipSpaces(s, i + 1) else i
  }

  /** Index just past the last non-white-space character of `s[lo..j]`,
      or `lo`. */
  function TrimEnd(s: string, lo: nat, j: nat): (n: nat)
    requires lo <= j <= |s|
    ensures lo <= n <= j && (n > lo ==> !IsSpace(s[n - 1]))
    ensures forall k :: n <= k < j ==> IsSpace(s[k])
    decreases j
  {
    if j > lo && IsSpace(s[j - 1]) then TrimEnd(s, lo, j - 1) else j
  }

  /** `str.lstrip()` */
  function LStrip(s: string): string {
    s[SkipSpaces(s, 0)..]
  }

  /** Where `Strip(s)` starts in `s`. */
  function StripStart(s: string): nat
    ensures StripStart(s) <= |s|
  {
    SkipSpaces(s, 0)
  }

  /** Where `Strip(s)` ends in `s`. */
  function StripEnd(s: string): nat
    ensures StripStart(s) <= StripEnd(s) <= |s|
  {
    TrimEnd(s, StripStart(s), |s|)
  }

  /** `str.strip()` */
  function Strip(s: string): string {
    s[StripStart(s)..StripEnd(s)]
  }

  /** A string with no white space at either end. */
  predicate IsStripped(s: string) {
    s == [] || (!IsSpace(s[0]) && !IsSpace(s[|s| - 1]))
  }

  /** A string made of white space only (`not s.strip()`). */
  predicate IsBlank(s: string) {
    forall k :: 0 <= k < |s| ==> IsSpace(s[k])
  }

  /** `Strip(s)` is the part of `s` between two white-space margins, it has
      no white space at its ends, and it is empty exactly when `s` is blank. */
  lemma StripSpec(s: string)
    ensures forall k :: 0 <= k < StripStart(s) ==> IsSpace(s[k])
    ensures forall k :: StripEnd(s) <= k < |s| ==> IsSpace(s[k])
    ensures IsStripped(Strip(s))
    ensures Strip(s) == [] <==> IsBlank(s)
  {
    var st, en := StripStart(s), StripEnd(s);
    if st < en {
      assert Strip(s)[0] == s[st];
      assert Strip(s)[|Strip(s)| - 1] == s[en - 1];
    }
    if st == en {
      assert forall k :: 0 <= k < |s| ==> IsSpace(s[k]);
    }
  }

  /** Two strings with white space at the same positions are stripped at
      the same positions. */
  lemma SameSpacesStrip(a: string, b: string)
    requires |a| == |b|
    requires forall k :: 0 <= k < |a| ==> (IsSpace(a[k]) <==> IsSpace(b[k]))
    ensures StripStart(a) == StripStart(b) && StripEnd(a) == StripEnd(b)
  {
    SameSpacesSkip(a, b, 0);
    SameSpacesTrim(a, b, StripStart(a), |a|);
  }

  lemma {:induction false} SameSpacesSkip(a: string, b: string, i: nat)
    requires |a| == |b| && i <= |a|
    requires forall k :: 0 <= k < |a| ==> (IsSpace(a[k]) <==> IsSpace(b[k]))
    ensures SkipSpaces(a, i) == SkipSpaces(b, i)
    decreases |a| - i
  {
    if i < |a| {
      SameSpacesSkip(a, b, i + 1);
    }
  }

  lemma {:induction false} SameSpacesTrim(a: string, b: string, lo: nat, j: nat)
    requires |a| == |b| && lo <= j <= |a|
    requires forall k :: 0 <= k < |a| ==> (IsSpace(a[k]) <==> IsSpace(b[k]))
    ensures TrimEnd(a, lo, j) == TrimEnd(b, lo, j)
    decreases j
  {
    if j > lo {
      SameSpacesTrim(a, b, lo, j - 1);
    }
  }

  /** Stripping leaves a stripped string unchanged. */
  lemma StripStripped(s: string)
    requires IsStripped(s)
    ensures Strip(s) == s
  {
    if s != [] {
      assert StripStart(s) == 0;
      assert StripEnd(s) == |s|;
    }
    assert s[0..|s|] == s;
  }

  // ---------------------------------------------------------------------
  // Splitting and joining
  // ---------------------------------------------------------------------

  /** Length of the leading run of non-white-space characters. */
  function TokenLength(s: string): (n: nat)
    ensures n <= |s| && (n < |s| ==> IsSpace(s[n]))
    ensures forall k :: 0 <= k < n ==> !IsSpace(s[k])
  {
    if s == [] || IsSpace(s[0]) then 0 else 1 + TokenLength(s[1..])
  }

  /** A non-empty run of non-white-space characters. */
  predicate IsToken(w: string) {
    w != [] && forall k :: 0 <= k < |w| ==> !IsSpace(w[k])
  }

  /** `str.split()` with no argument: the maximal runs of non-white-space. */
  function SplitWs(s: string): (ws: seq<string>)
    ensures forall w :: w in ws ==> IsToken(w)
    decreases |s|
  {
    var t := LStrip(s);
    if t == [] then []
    else
      var n := TokenLength(t);
      [t[..n]] + SplitWs(t[n..])
  }

  /** There are no words exactly when the string is blank. */
  lemma SplitWsBlank(s: string)
    ensures SplitWs(s) == [] <==> IsBlank(s)
  {
    var i := SkipSpaces(s, 0);
    if i < |s| {
      assert !IsSpace(s[i]);
    }
  }

  /** A character the string avoids, every word avoids. */
  lemma {:induction false} SplitWsAvoids(s: string, c: char)
    requires c !in s
    ensures forall w :: w in SplitWs(s) ==> c !in w
    decreases |s|
  {
    var t := LStrip(s);
    if t != [] {
      var n := TokenLength(t);
      assert forall k :: 0 <= k < |t| ==> t[k] == s[SkipSpaces(s, 0) + k];
      assert c !in t[..n];
      SplitWsAvoids(t[n..], c);
    }
  }

  /** `sep.join(parts)` */
  function Join(parts: seq<string>, sep: string): string {
    if parts == [] then []
    else if |parts| == 1 then parts[0]
    else parts[0] + sep + Join(parts[1..], sep)
  }

  /** Index of the first `c` in `s`, or `|s|`. */
  function IndexOf(s: string, c: char): (n: nat)
    ensures n <= |s| && (n < |s| ==> s[n] == c)
    ensures forall k :: 0 <= k < n ==> s[k] != c
  {
    if s == [] || s[0] == c then 0 else 1 + IndexOf(s[1..], c)
  }

  /** `s.split(c)` for a one-character separator: the pieces between the
      occurrences of `c`, empty pieces included. */
  function SplitOn(s: string, c: char): (parts: seq<string>)
    ensures |parts| >= 1
    ensures forall p :: p in parts ==> c !in p
    decreases |s|
  {
    var n := IndexOf(s, c);
    if n == |s| then [s] else [s[..n]] + SplitOn(s[n + 1..], c)
  }

  /** Joining the pieces of a split with the separator gives the string back. */
  lemma {:induction false} JoinSplitOn(s: string, c: char)
    ensures Join(SplitOn(s, c), [c]) == s
    decreases |s|
  {
    var n := IndexOf(s, c);
    if n < |s| {
      var rest := SplitOn(s[n + 1..], c);
      JoinSplitOn(s[n + 1..], c);
      assert SplitOn(s, c) == [s[..n]] + rest;
      assert s == s[..n] + [c] + s[n + 1..];
    }
  }

  /** Splitting a join of pieces free of the separator gives the pieces back. */
  lemma {:induction false} SplitOnJoin(parts: seq<string>, c: char)
    requires parts != []
    requires forall p :: p in parts ==> c !in p
    ensures SplitOn(Join(parts, [c]), c) == parts
  {
    if |parts| > 1 {
      var rest := Join(parts[1..], [c]);
      var s := parts[0] + [c] + rest;
      IndexOfPrefix(parts[0], c, rest);
      assert s[..|parts[0]|] == parts[0];
      assert s[|parts[0]| + 1..] == rest;
      SplitOnJoin(parts[1..], c);
    } else {
      IndexOfPrefix(parts[0], c, []);
      assert IndexOf(parts[0], c) == |parts[0]|;
    }
  }

  lemma {:induction false} IndexOfPrefix(a: string, c: char, b: string)
    requires c !in a
    ensures IndexOf(a, c) == |a|
    ensures IndexOf(a + [c] + b, c) == |a|
  {
    if a != [] {
      IndexOfPrefix(a[1..], c, b);
      assert (a + [c] + b)[1..] == a[1..] + [c] + b;
    }
  }

  /** A join with a white-space separator is blank exactly when every piece is. */
  lemma {:induction false} JoinBlank(parts: seq<string>, sep: string)
    requires IsBlank(sep)
    ensures IsBlank(Join(parts, sep)) <==> forall p :: p in parts ==> IsBlank(p)
  {
    if |parts| > 1 {
      JoinBlank(parts[1..], sep);
      var a, r := parts[0], Join(parts[1..], sep);
      BlankConcat(a, sep);
      BlankConcat(a + sep, r);
      assert forall p :: p in parts ==> p == parts[0] || p in parts[1..];
    }
  }

  /** A join avoids a character that neither the separator nor any piece holds. */
  lemma {:induction false} JoinAvoids(parts: seq<string>, sep: string, c: char)
    requires c !in sep
    requires forall p :: p in parts ==> c !in p
    ensures c !in Join(parts, sep)
  {
    if |parts| > 1 {
      JoinAvoids(parts[1..], sep, c);
      assert parts[0] in parts;
      assert Join(parts, sep) == parts[0] + sep + Join(parts[1..], sep);
    }
  }

  lemma BlankConcat(a: string, b: string)
    ensures IsBlank(a + b) <==> IsBlank(a) && IsBlank(b)
  {
    if IsBlank(a + b) {
      forall k | 0 <= k < |b| ensures IsSpace(b[k]) {
        assert (a + b)[|a| + k] == b[k];
      }
      forall k | 0 <= k < |a| ensures IsSpace(a[k]) {
        assert (a + b)[k] == a[k];
      }
    }
  }

  /** `[p.strip() for p in parts if p.strip()]`: the non-blank pieces,
      trimmed, in order. */
  function NonBlankStripped(parts: seq<string>): (r: seq<string>)
    ensures forall l :: l in r ==> !IsBlank(l) && IsStripped(l)
    ensures |r| <= |parts|
  {
    if parts == [] then []
    else
      StripSpec(parts[0]);
      (if IsBlank(parts[0]) then [] else [Strip(parts[0])]) + NonBlankStripped(parts[1..])
  }

  /** Nothing is kept exactly when every piece is blank. */
  lemma {:induction false} NonBlankStrippedEmpty(parts: seq<string>)
    ensures NonBlankStripped(parts) == [] <==> forall p :: p in parts ==> IsBlank(p)
  {
    if parts != [] {
      NonBlankStrippedEmpty(parts[1..]);
      assert forall p :: p in parts <==> p == parts[0] || p in parts[1..];
    }
  }

  /** Every kept piece is the trimmed form of one of the pieces. */
  lemma {:induction false} NonBlankStrippedFrom(parts: seq<string>, l: string)
    requires l in NonBlankStripped(parts)
    ensures exists p :: p in parts && l == Strip(p)
    decreases |parts|
  {
    if !IsBlank(parts[0]) && l == Strip(parts[0]) {
      assert parts[0] in parts;
    } else {
      NonBlankStrippedFrom(parts[1..], l);
      var p :| p in parts[1..] && l == Strip(p);
      assert p in parts;
    }
  }

  /** `a` occurs in `s` at position i. */
  predicate OccursAt(a: string, s: string, i: nat) {
    i + |a| <= |s| && s[i..i + |a|] == a
  }

  /** `a in s` for strings: `a` occurs in `s` as a contiguous piece. */
  ghost predicate IsSubstring(a: string, s: string) {
    exists i: nat :: OccursAt(a, s, i)
  }

  lemma SliceSubstring(s: string, i: nat, j: nat)
    requires i <= j <= |s|
    ensures IsSubstring(s[i..j], s)
  {
    assert OccursAt(s[i..j], s, i);
  }

  lemma SubstringTrans(a: string, b: string, c: string)
    requires IsSubstring(a, b) && IsSubstring(b, c)
    ensures IsSubstring(a, c)
  {
    var i: nat :| OccursAt(a, b, i);
    var j: nat :| OccursAt(b, c, j);
    forall k | 0 <= k < |a| ensures c[j + i + k] == a[k] {
      assert b[i + k] == a[k];
    }
    assert c[j + i..j + i + |a|] == a;
    assert OccursAt(a, c, j + i);
  }

  lemma SuffixSubstring(s: string, r: string)
    requires |r| <= |s| && r == s[|s| - |r|..]
    ensures IsSubstring(r, s)
  {
    assert OccursAt(r, s, |s| - |r|);
  }

  lemma PrefixSubstring(s: string, n: nat)
    requires n <= |s|
    ensures IsSubstring(s[..n], s)
  {
    assert OccursAt(s[..n], s, 0);
  }

  /** The pieces of a split all occur in the string. */
  lemma {:induction false} SplitOnSubstrings(s: string, c: char)
    ensures forall p :: p in SplitOn(s, c) ==> IsSubstring(p, s)
    decreases |s|
  {
    var n := IndexOf(s, c);
    SliceSubstring(s, 0, n);
    if n < |s| {
      var rest := s[n + 1..];
      SplitOnSubstrings(rest, c);
      SliceSubstring(s, n + 1, |s|);
      assert s[n + 1..|s|] == rest;
      forall p | p in SplitOn(rest, c) ensures IsSubstring(p, s) {
        SubstringTrans(p, rest, s);
      }
      assert s[..n] == s[0..n];
    } else {
      assert s[0..|s|] == s;
    }
  }

  /** `[l.strip() for l in s.split('\n') if l.strip()]` */
  function StrippedLines(s: string): seq<string> {
    NonBlankStripped(SplitOn(s, '\n'))
  }

  /** The stripped lines are non-empty pieces of the string without
      surrounding white space, and there is none exactly when the string
      is blank. */
  lemma StrippedLinesSpec(s: string)
    ensures forall l :: l in StrippedLines(s) ==> l != [] && IsStripped(l) && IsSubstring(l, s)
    ensures StrippedLines(s) == [] <==> IsBlank(s)
  {
    var parts := SplitOn(s, '\n');
    SplitOnSubstrings(s, '\n');
    forall l | l in StrippedLines(s) ensures IsSubstring(l, s) {
      NonBlankStrippedFrom(parts, l);
      var p :| p in parts && l == Strip(p);
      SliceSubstring(p, StripStart(p), StripEnd(p));
      SubstringTrans(l, p, s);
    }
    NonBlankStrippedEmpty(parts);
    JoinSplitOn(s, '\n');
    JoinBlank(parts, "\n");
  }

  /** One stripped line, spelled out. */
  lemma StrippedLineAt(s: string, k: nat)
    requires k < |StrippedLines(s)|
    ensures StrippedLines(s)[k] != [] && IsStripped(StrippedLines(s)[k])
    ensures IsSubstring(StrippedLines(s)[k], s)
  {
    StrippedLinesSpec(s);
    assert StrippedLines(s)[k] in StrippedLines(s);
  }

  // ---------------------------------------------------------------------
  // Other helpers
  // ---------------------------------------------------------------------

  /** `s.endswith(suffix)` */
  predicate EndsWith(s: string, suffix: string) {
    |suffix| <= |s| && s[|s| - |suffix|..] == suffix
  }

  /** `s.replace(a, b)` for single characters. */
  function ReplaceChar(s: string, a: char, b: char): (r: string)
    ensures |r| == |s|
    ensures forall k :: 0 <= k < |s| ==> r[k] == (if s[k] == a then b else s[k])
  {
    seq(|s|, k requires 0 <= k < |s| => if s[k] == a then b else s[k])
  }

  /** `s.replace(a, '')` */
  function RemoveChar(s: string, a: char): (r: string)
    ensures a !in r
    ensures forall c :: c in r ==> c in s
  {
    if s == [] then []
    else (if s[0] == a then [] else [s[0]]) + RemoveChar(s[1..], a)
  }

  /** `s.rfind(c)`: the last index of `c`, or -1. */
  function RFind(s: string, c: char): (n: int)
    ensures -1 <= n < |s|
    ensures n >= 0 ==> s[n] == c
    ensures forall k :: n < k < |s| ==> s[k] != c
  {
    if s == [] then -1
    else if s[|s| - 1] == c then |s| - 1
    else RFind(s[..|s| - 1], c)
  }

  /** The first half of `os.path.splitext` on a POSIX path: the path without
      its last extension. The extension starts at the last dot of the last
      path component, unless only dots precede that dot in the component. */
  function SplitExtRoot(p: string): string {
    var sep := RFind(p, '/');
    var dot := RFind(p, '.');
    if dot > sep && exists k :: sep < k < dot && p[k] != '.' then p[..dot] else p
  }
}
