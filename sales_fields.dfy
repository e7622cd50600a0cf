/**
 * The two field extractors of the sales pipeline that have a body: the
 * candidate's name read off the file name, and the test for an internship
 * entry.
 */
module SalesFields {
  import opened PyStr
  import opened Regex

  // ---------------------------------------------------------------------
  // extract_name_from_filename
  // ---------------------------------------------------------------------

  /** The file name without its last extension, with '_' and '-' read as
      spaces. */
  function NameText(filename: string): (s: string)
    ensures '_' !in s && '-' !in s
  {
    var spaced := ReplaceChar(SplitExtRoot(filename), '_', ' ');
    assert '_' !in spaced;
    ReplaceChar(spaced, '-', ' ')
  }

  /** The white-space separated words of that text. */
  function NameWords(filename: string): seq<string> {
    SplitWs(NameText(filename))
  }

  /** `word.capitalize()` for each word. */
  function CapitalizeAll(words: seq<string>): (r: seq<string>)
    ensures |r| == |words| && forall k :: 0 <= k < |words| ==> r[k] == Capitalize(words[k])
  {
    seq(|words|, k requires 0 <= k < |words| => Capitalize(words[k]))
  }

  /** `extract_name_from_filename`: the capitalised words joined by single
      spaces, or the file name itself when that join is empty. */
  function ExtractNameFromFilename(filename: string): string {
    var joined := Join(CapitalizeAll(NameWords(filename)), " ");
    if joined == [] then filename else joined
  }

  /** Non-empty, with no space at either end and no two spaces in a row. */
  predicate SingleSpaced(s: string) {
    s != [] && s[0] != ' ' && s[|s| - 1] != ' ' &&
    forall k :: 0 <= k < |s| - 1 && s[k] == ' ' ==> s[k + 1] != ' '
  }

  /** Capitalising changes only the case of letters: the result avoids
      every non-letter the word avoids. */
  lemma CapitalizeAvoids(w: string, c: char)
    requires !IsLetter(c) && c !in w
    ensures c !in Capitalize(w)
  {
    var r := Capitalize(w);
    forall k | 0 <= k < |r| ensures r[k] != c {
      if k > 0 {
        assert r[k] == r[1..][k - 1] == LowerChar(w[k]);
      }
    }
  }

  /** Non-empty parts without a space, joined by single spaces, give a
      single-spaced string. */
  lemma {:induction false} JoinSingleSpaced(parts: seq<string>)
    requires parts != []
    requires forall p :: p in parts ==> p != [] && ' ' !in p
    ensures SingleSpaced(Join(parts, " "))
    decreases |parts|
  {
    assert parts[0] in parts;
    if |parts| > 1 {
      var head, rest := parts[0], Join(parts[1..], " ");
      assert forall p :: p in parts[1..] ==> p in parts;
      JoinSingleSpaced(parts[1..]);
      var s := Join(parts, " ");
      assert s == head + " " + rest;
      forall k | 0 <= k < |s| - 1 && s[k] == ' ' ensures s[k + 1] != ' ' {
        if k > |head| {
          assert s[k] == rest[k - |head| - 1] && s[k + 1] == rest[k - |head|];
        }
      }
    }
  }

  /** The capitalised words are non-empty and hold no space, '_' or '-'. */
  lemma CapitalizedWords(filename: string)
    ensures forall p :: p in CapitalizeAll(NameWords(filename)) ==>
      p != [] && ' ' !in p && '_' !in p && '-' !in p
  {
    var text := NameText(filename);
    var words := NameWords(filename);
    var caps := CapitalizeAll(words);
    SplitWsAvoids(text, '_');
    SplitWsAvoids(text, '-');
    forall p | p in caps ensures p != [] && ' ' !in p && '_' !in p && '-' !in p {
      var k :| 0 <= k < |caps| && caps[k] == p;
      var w := words[k];
      assert w in words && IsToken(w);
      CapitalizeAvoids(w, ' ');
      CapitalizeAvoids(w, '_');
      CapitalizeAvoids(w, '-');
    }
  }

  /** The name is never empty for a non-empty file name. It is the file
      name itself exactly when the extension-less name holds no word;
      otherwise it holds no '_' and no '-', it is single-spaced, and
      splitting it on spaces gives back the capitalised words. */
  lemma ExtractNameFromFilenameSpec(filename: string)
    ensures filename != [] ==> ExtractNameFromFilename(filename) != []
    ensures IsBlank(NameText(filename)) ==> ExtractNameFromFilename(filename) == filename
    ensures !IsBlank(NameText(filename)) ==>
      var name := ExtractNameFromFilename(filename);
      '_' !in name && '-' !in name && SingleSpaced(name) &&
      SplitOn(name, ' ') == CapitalizeAll(NameWords(filename))
  {
    var caps := CapitalizeAll(NameWords(filename));
    SplitWsBlank(NameText(filename));
    if !IsBlank(NameText(filename)) {
      CapitalizedWords(filename);
      JoinSingleSpaced(caps);
      JoinAvoids(caps, " ", '_');
      JoinAvoids(caps, " ", '-');
      SplitOnJoin(caps, ' ');
    }
  }

  // ---------------------------------------------------------------------
  // is_internship_entry
  // ---------------------------------------------------------------------

  /** The words that mark an internship. */
  const InternshipWords: seq<string> := ["intern", "internship", "trainee", "training"]

  /** `is_internship_entry`: some marker word's whole-word pattern is
      found, case-insensitively. */
  function IsInternshipEntry(textBlock: string): bool {
    AnyFound(textBlock, WordsRe(InternshipWords))
  }

  /** An entry is an internship exactly when a marker word occurs in it as
      a whole word, in any case. */
  lemma IsInternshipEntrySpec(t: string)
    ensures IsInternshipEntry(t) <==> exists w :: w in InternshipWords && HasWholeWord(t, w, true)
  {
    AnyWordFound(t, InternshipWords);
  }

  /** In a text made of word characters only, a non-empty word occurs as a
      whole word only as the whole text. */
  lemma OneWordText(t: string, w: string)
    requires forall k :: 0 <= k < |t| ==> IsWordChar(t[k])
    requires w != [] && HasWholeWord(t, w, true)
    ensures |w| == |t| && Lower(t) == Lower(w)
  {
    var i :| 0 <= i <= |t| && WholeWordAt(t, w, i, true);
    assert t[0..|t|] == t;
  }

  /** A text of word characters only holds one of some non-empty
      lower-case words as a whole word exactly when, lower-cased, it is one
      of them. */
  lemma OneWordHasWord(t: string, ws: seq<string>)
    requires forall k :: 0 <= k < |t| ==> IsWordChar(t[k])
    requires forall w :: w in ws ==> w != [] && Lower(w) == w
    ensures (exists w :: w in ws && HasWholeWord(t, w, true)) <==> Lower(t) in ws
  {
    if exists w :: w in ws && HasWholeWord(t, w, true) {
      var w :| w in ws && HasWholeWord(t, w, true);
      OneWordText(t, w);
    }
    if Lower(t) in ws {
      var w := Lower(t);
      assert t[0..|t|] == t;
      assert WholeWordAt(t, w, 0, true);
    }
  }

  /** The marker words are non-empty and lower-case. */
  lemma InternshipWordsLower()
    ensures forall w :: w in InternshipWords ==> w != [] && Lower(w) == w
  {
    forall w | w in InternshipWords ensures Lower(w) == w {
      assert forall k :: 0 <= k < |w| ==> IsLowerChar(w[k]);
    }
  }

  /** A text of word characters only is an internship entry exactly when,
      lower-cased, it is a marker word: so "Intern" is one, while
      "internal" and "internships" are not. */
  lemma OneWordEntry(t: string)
    requires forall k :: 0 <= k < |t| ==> IsWordChar(t[k])
    ensures IsInternshipEntry(t) <==> Lower(t) in InternshipWords
  {
    IsInternshipEntrySpec(t);
    InternshipWordsLower();
    OneWordHasWord(t, InternshipWords);
  }

  lemma InternalExample(t: string)
    requires t == "internal"
    ensures !IsInternshipEntry(t)
  {
    OneWordEntry(t);
    assert Lower(t)[7] == 'l';
  }

  lemma InternshipsExample(t: string)
    requires t == "internships"
    ensures !IsInternshipEntry(t)
  {
    OneWordEntry(t);
    assert |Lower(t)| == 11;
  }

  lemma InternExample(t: string)
    requires t == "Intern"
    ensures IsInternshipEntry(t)
  {
    OneWordEntry(t);
    assert Lower(t) == InternshipWords[0];
  }
}
